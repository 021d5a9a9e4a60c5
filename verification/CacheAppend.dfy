/** The in-place append of `AppendFile` (Skyrim/src/DecompCache.cpp) and what
    a crash at any point of it can leave on the disk. */
module CacheAppend {
  import opened Basics
  import opened ByteCodec
  import opened CacheFormat
  import opened CacheDisk

  // ----------------------------------------------------------- the claims

  /** The validator accepts `c` (a tail is allowed) and decodes it to `recs`. */
  ghost predicate DecodesTo(c: seq<Byte>, id: ArchiveIdentity, recs: seq<Rec>) {
    Accepts(c, Some(id), true) && WellFormed(c, None) && RecordsOf(c) == recs
  }

  /** Every crash image is accepted, as the old entries or as old plus new. */
  ghost predicate CrashSafe(s: Storage, id: ArchiveIdentity, before: seq<Rec>, after: seq<Rec>) {
    forall c :: MayRemain(s, c) ==> DecodesTo(c, id, before) || DecodesTo(c, id, after)
  }

  /** A crash image may be rejected, but is never accepted with a third content. */
  ghost predicate NeverThird(s: Storage, id: ArchiveIdentity, before: seq<Rec>, after: seq<Rec>) {
    forall c :: MayRemain(s, c) && Accepts(c, Some(id), true) ==>
                  DecodesTo(c, id, before) || DecodesTo(c, id, after)
  }

  lemma SafeIsNeverThird(s: Storage, id: ArchiveIdentity, before: seq<Rec>, after: seq<Rec>)
    requires CrashSafe(s, id, before, after)
    ensures NeverThird(s, id, before, after)
  {}

  /** Flushing cannot make things worse: what is flushed might have remained anyway. */
  lemma FlushKeepsNeverThird(s: Storage, id: ArchiveIdentity, before: seq<Rec>, after: seq<Rec>)
    requires NeverThird(s, id, before, after)
    ensures NeverThird(Storage(Replay(s.durable, s.ops), []), id, before, after)
  {
    ReplayMayRemain(s);
  }

  // ---------------------------------------------- one append, as constants

  /** What one append works on: the validated file, and the records to add. */
  datatype Plan = Plan(id: ArchiveIdentity, file: seq<Byte>, header: Header, prior: seq<Rec>, added: seq<Rec>) {
    ghost predicate Valid() {
      && Represents(file, header, prior)
      && GoodHeader(header, Some(id))
      && GoodRecs(prior + added)
      && |prior| + |added| <= header.indexCapacity
      && End() + Total(added) < TWO64
    }

    function Start(): nat { DataStart(header.indexCapacity) }

    function End(): nat { Start() + Total(prior) }

    function OldHeader(): (b: seq<Byte>)
      requires |header.magic| == 4
      ensures |b| == HEADER_SIZE
    {
      EncodeHeader(header)
    }

    function NewHeader(): Header
      requires |prior| + |added| < TWO32
    {
      header.(entryCount := |prior| + |added|)
    }

    function Kept(): Committed
      requires |header.magic| == 4
    {
      Committed(OldHeader(), |prior|, Start(), End())
    }

    function EntryFor(i: nat): Entry
      requires i < |added| && End() + Total(added) < TWO64
      requires forall k :: 0 <= k < |added| ==> GoodRec(added[k])
    {
      TotalStep(added, i);
      assert GoodRec(added[i]);
      Entry(added[i].off, |added[i].data|, End() + Total(added[..i]), added[i].checksum)
    }
  }

  lemma SplitGood(a: seq<Rec>, b: seq<Rec>)
    requires GoodRecs(a + b)
    ensures GoodRecs(a) && forall k :: 0 <= k < |b| ==> GoodRec(b[k])
  {
    forall k | 0 <= k < |b| ensures GoodRec(b[k]) {
      assert (a + b)[|a| + k] == b[k];
    }
    forall i | 0 <= i < |a| ensures GoodRec(a[i]) {
      assert (a + b)[i] == a[i];
    }
    forall i, j | 0 <= i < j < |a| ensures a[i].off != a[j].off {
      assert (a + b)[i] == a[i] && (a + b)[j] == a[j];
    }
  }

  lemma PlanFacts(p: Plan)
    requires p.Valid()
    ensures |p.header.magic| == 4 && p.Kept().Valid()
    ensures p.Kept().Intact(p.file, p.file) && p.file[..HEADER_SIZE] == p.OldHeader()
    ensures forall k :: 0 <= k < |p.added| ==> GoodRec(p.added[k])
    ensures GoodRecs(p.prior) && p.header.entryCount == |p.prior|
  {
    hide DecodeHeader, EncodeHeader, SlotHolds;
    assert |p.header.magic| == 4;
    HeaderExact(p.file);
    SplitGood(p.prior, p.added);
  }

  // ------------------------------------------------- before the commit point

  /** The committed part is in place in `b`. */
  ghost predicate KeepsOld(p: Plan, b: seq<Byte>)
    requires p.Valid()
  {
    PlanFacts(p);
    p.Kept().Intact(p.file, b) && b[..HEADER_SIZE] == p.OldHeader()
  }

  lemma KeepsOldLeft(p: Plan, b: seq<Byte>, op: WriteOp, c: seq<Byte>)
    requires p.Valid() && |p.header.magic| == 4 && KeepsOld(p, b)
    requires p.Kept().Spares(op) && MayLeave(b, op, c)
    ensures KeepsOld(p, c)
  {
    PlanFacts(p);
    SpareStep(p.Kept(), b, op, c);
  }

  lemma KeepsOldStep(p: Plan, b: seq<Byte>, op: WriteOp)
    requires p.Valid() && |p.header.magic| == 4 && KeepsOld(p, b) && p.Kept().Spares(op)
    ensures KeepsOld(p, Apply(b, op))
  {
    KeepsOldLeft(p, b, op, Apply(b, op));
  }

  /** Whatever a crash leaves, the committed part is in place. */
  ghost predicate Uncommitted(p: Plan, s: Storage)
    requires p.Valid()
  {
    forall c :: MayRemain(s, c) ==> KeepsOld(p, c)
  }

  lemma IntactDecodesOld(p: Plan, c: seq<Byte>)
    requires p.Valid() && |p.header.magic| == 4 && p.Kept().Intact(p.file, c)
    ensures DecodesTo(c, p.id, p.prior)
  {
    hide EntryAt, DecodeHeader, SlotHolds, EncodeHeader;
    PlanFacts(p);
    RepresentsFrame(p.file, c, p.header, p.prior);
    RepresentsWellFormed(c, p.header, p.prior, Some(p.id));
  }

  /** The bytes of the committed part are forced by the entries they decode to. */
  lemma DecodesOldIff(p: Plan, c: seq<Byte>)
    requires p.Valid()
    ensures DecodesTo(c, p.id, p.prior) <==> KeepsOld(p, c)
  {
    hide EntryAt, DecodeHeader, SlotHolds, EncodeHeader, GoodEntry, RecordsOf, Total;
    PlanFacts(p);
    if DecodesTo(c, p.id, p.prior) {
      WellFormedRepresents(c, Some(p.id));
      assert DecodeHeader(c) == p.header;
      RepresentsExact(p.file, c, p.header, p.prior);
      HeaderExact(c);
    }
    if KeepsOld(p, c) {
      IntactDecodesOld(p, c);
    }
  }

  lemma UncommittedIff(p: Plan, s: Storage)
    requires p.Valid()
    ensures Uncommitted(p, s) <==> forall c :: MayRemain(s, c) ==> DecodesTo(c, p.id, p.prior)
  {
    forall c ensures DecodesTo(c, p.id, p.prior) <==> KeepsOld(p, c) {
      DecodesOldIff(p, c);
    }
  }

  /** Until the header is switched, every crash image decodes to the old entries. */
  lemma UncommittedIsSafe(p: Plan, s: Storage)
    requires p.Valid() && Uncommitted(p, s)
    ensures CrashSafe(s, p.id, p.prior, p.prior + p.added)
  {
    hide DecodesTo;
    UncommittedIff(p, s);
  }

  lemma FlushedIsUncommitted(p: Plan, s: Storage)
    requires p.Valid() && Uncommitted(p, s)
    ensures Uncommitted(p, Storage(Replay(s.durable, s.ops), []))
  {
    ReplayMayRemain(s);
  }

  /** Enough for it: the committed part is durable, and everything in flight spares it. */
  lemma SparedIsUncommitted(p: Plan, s: Storage)
    requires p.Valid() && |p.header.magic| == 4 && KeepsOld(p, s.durable)
    requires forall op :: op in s.ops ==> p.Kept().Spares(op)
    ensures Uncommitted(p, s)
  {
    PlanFacts(p);
    forall c | MayRemain(s, c) ensures KeepsOld(p, c) {
      SparedRemains(p.Kept(), s, c);
    }
  }

  lemma SparedNext(p: Plan, t: Storage)
    requires p.Valid() && |p.header.magic| == 4 && t.ops != []
    requires Uncommitted(p, Storage(t.durable, t.ops[..|t.ops| - 1]))
    requires p.Kept().Spares(t.ops[|t.ops| - 1])
    ensures Uncommitted(p, t)
  {
    hide KeepsOld, MayLeave, Committed.Spares, Plan.Valid;
    var m := |t.ops| - 1;
    forall c | MayRemain(t, c) ensures KeepsOld(p, c) {
      var mid :| MayRemain(Storage(t.durable, t.ops[..m]), mid) && MayLeave(mid, t.ops[m], c);
      KeepsOldLeft(p, mid, t.ops[m], c);
    }
  }

  lemma {:induction false} SparedAfter(p: Plan, s: Storage, t: Storage)
    requires p.Valid() && |p.header.magic| == 4 && Uncommitted(p, s)
    requires t.durable == s.durable && s.ops <= t.ops
    requires forall i :: |s.ops| <= i < |t.ops| ==> p.Kept().Spares(t.ops[i])
    ensures Uncommitted(p, t)
    decreases |t.ops|
  {
    hide KeepsOld, MayLeave, Committed.Spares, Plan.Valid, Uncommitted, MayRemain;
    if |t.ops| > |s.ops| {
      var m := |t.ops| - 1;
      SparedAfter(p, s, Storage(t.durable, t.ops[..m]));
      SparedNext(p, t);
    } else {
      assert t == s;
    }
  }

  /** `s` is `before` with operations that spare the old entries, or a flush of bytes that
      keep them with such operations. */
  ghost predicate Sparing(p: Plan, before: Storage, s: Storage)
    requires p.Valid()
  {
    PlanFacts(p);
    || (KeepsOld(p, s.durable) && forall op :: op in s.ops ==> p.Kept().Spares(op))
    || (&& s.durable == before.durable && before.ops <= s.ops
        && forall i :: |before.ops| <= i < |s.ops| ==> p.Kept().Spares(s.ops[i]))
  }

  lemma SparingNothing(p: Plan, s: Storage)
    requires p.Valid()
    ensures Sparing(p, s, s)
  {}

  lemma SparingJoins(p: Plan, a: Storage, b: Storage, c: Storage)
    requires p.Valid() && Sparing(p, a, b) && Sparing(p, b, c)
    ensures Sparing(p, a, c)
  {
    hide KeepsOld, Plan.Valid, Committed.Spares;
    PlanFacts(p);
  }

  /** What readers see keeps the old entries. */
  lemma {:induction false} SparingVisible(p: Plan, before: Storage, s: Storage)
    requires p.Valid() && Sparing(p, before, s) && KeepsOld(p, Replay(before.durable, before.ops))
    ensures KeepsOld(p, Replay(s.durable, s.ops))
    decreases |s.ops|
  {
    hide KeepsOld, Plan.Valid, Committed.Spares, Apply;
    PlanFacts(p);
    if s.ops != [] && s != before {
      var m := |s.ops| - 1;
      var t := Storage(s.durable, s.ops[..m]);
      assert s.ops[m] in s.ops;
      SparingVisible(p, before, t);
      KeepsOldStep(p, Replay(t.durable, t.ops), s.ops[m]);
    }
  }

  lemma SparingFlushed(p: Plan, before: Storage, s: Storage)
    requires p.Valid() && Sparing(p, before, s) && KeepsOld(p, Replay(before.durable, before.ops))
    ensures Sparing(p, before, Storage(Replay(s.durable, s.ops), []))
  {
    hide KeepsOld, Plan.Valid;
    SparingVisible(p, before, s);
  }

  lemma SparingUncommitted(p: Plan, before: Storage, s: Storage)
    requires p.Valid() && Sparing(p, before, s) && Uncommitted(p, before)
    ensures Uncommitted(p, s)
  {
    hide KeepsOld, Plan.Valid, Uncommitted;
    PlanFacts(p);
    if KeepsOld(p, s.durable) && forall op :: op in s.ops ==> p.Kept().Spares(op) {
      SparedIsUncommitted(p, s);
    } else {
      SparedAfter(p, before, s);
    }
  }

  /** A file that decodes to more than the old entries stops doing so when it is
      cut to their end. */
  lemma CutForgetsAdded(p: Plan, c: seq<Byte>)
    requires p.Valid() && p.added != [] && DecodesTo(c, p.id, p.prior + p.added)
    ensures var t := Resize(c, p.End());
            !DecodesTo(t, p.id, p.prior) && !DecodesTo(t, p.id, p.prior + p.added)
  {
    hide EntryAt, DecodeHeader, SlotHolds, GoodEntry, RecordsOf, Total;
    PlanFacts(p);
    TotalPositive(p.added);
    TotalSplit(p.prior, p.added);
    WellFormedRepresents(c, Some(p.id));
    var t := Resize(c, p.End());
    HeaderFrame(c, t);
    if DecodesTo(t, p.id, p.prior + p.added) {
      WellFormedRepresents(t, Some(p.id));
    }
  }

  function CutTail(s: Storage, end: nat): Storage { Storage(s.durable, s.ops + [SetLength(end)]) }

  /** Cutting the tail is the first thing an append does. If that leaves the file crash
      safe, every crash image decoded to the old entries before. */
  lemma CutNeedsUncommitted(p: Plan, s: Storage)
    requires p.Valid()
    requires CrashSafe(CutTail(s, p.End()), p.id, p.prior, p.prior + p.added)
    ensures Uncommitted(p, s)
  {
    hide DecodesTo, Plan.Valid;
    UncommittedIff(p, s);
    var cut := SetLength(p.End());
    forall c | MayRemain(s, c) ensures DecodesTo(c, p.id, p.prior) {
      RemainsOn(s.durable, s.ops, c, cut, c);
      RemainsOn(s.durable, s.ops, c, cut, Apply(c, cut));
      if p.added == [] {
        assert p.prior + p.added == p.prior;
      } else if DecodesTo(c, p.id, p.prior + p.added) {
        CutForgetsAdded(p, c);
      }
    }
  }

  // ----------------------------------------------------- at the commit point

  /** Payloads and index slots of the added records are in place in `d`. */
  ghost predicate Staged(p: Plan, d: seq<Byte>)
    requires p.Valid()
  {
    PlanFacts(p);
    && p.Kept().Intact(p.file, d)
    && d[..HEADER_SIZE] == p.OldHeader()
    && |d| == p.End() + Total(p.added)
    && forall i :: 0 <= i < |p.added| ==> AddedSlot(p, d, i)
  }

  ghost predicate AddedSlot(p: Plan, d: seq<Byte>, i: nat)
    requires p.Valid() && i < |p.added|
  {
    PlanFacts(p);
    TotalStep(p.added, i);
    var s := p.End() + Total(p.added[..i]);
    && SlotOffset(|p.prior| + i + 1) <= p.Start() <= |d|
    && s + |p.added[i].data| <= |d|
    && EntryAt(d, |p.prior| + i) == p.EntryFor(i)
    && d[s..s + |p.added[i].data|] == p.added[i].data
  }

  lemma AddedSlotHolds(p: Plan, d: seq<Byte>, i: nat)
    requires p.Valid() && i < |p.added| && AddedSlot(p, d, i)
    ensures SlotHolds(d, p.header.indexCapacity, p.prior + p.added, |p.prior| + i)
  {
    hide EntryAt;
    var all := p.prior + p.added;
    assert all[..|p.prior| + i] == p.prior + p.added[..i];
    TotalSplit(p.prior, p.added[..i]);
  }

  lemma OldSlotHolds(p: Plan, d: seq<Byte>, i: nat)
    requires p.Valid() && |p.header.magic| == 4 && p.Kept().Intact(p.file, d) && i < |p.prior|
    ensures SlotHolds(d, p.header.indexCapacity, p.prior + p.added, i)
  {
    hide EntryAt, EncodeHeader, DecodeHeader;
    SlotFrame(p.file, d, p.header.indexCapacity, p.prior, i);
    assert (p.prior + p.added)[..i] == p.prior[..i];
  }

  /** All slots of the new index are filled in a staged file. */
  lemma StagedSlot(p: Plan, d: seq<Byte>, i: nat)
    requires p.Valid() && Staged(p, d) && i < |p.prior + p.added|
    ensures SlotHolds(d, p.header.indexCapacity, p.prior + p.added, i)
  {
    hide EntryAt, SlotHolds, AddedSlot, Represents, GoodHeader, GoodRecs, DecodeHeader, EncodeHeader, Total;
    PlanFacts(p);
    if i < |p.prior| {
      OldSlotHolds(p, d, i);
    } else {
      AddedSlotHolds(p, d, i - |p.prior|);
    }
  }

  lemma NewHeaderDecodesAll(p: Plan, d: seq<Byte>, c: seq<Byte>)
    requires p.Valid() && Staged(p, d) && p.added != []
    requires |p.prior| + |p.added| < TWO32 && |p.header.magic| == 4
    requires |c| == |d| && c[..HEADER_SIZE] == EncodeHeader(p.NewHeader())
    requires Agree(d, c, HEADER_SIZE, |d|)
    ensures DecodesTo(c, p.id, p.prior + p.added)
    ensures Accepts(c, Some(p.id), false) && DecodeHeader(c) == p.NewHeader()
  {
    hide EntryAt, DecodeHeader, EncodeHeader;
    var all, h := p.prior + p.added, p.NewHeader();
    TotalSplit(p.prior, p.added);
    HeaderRoundTrip(c, h);
    forall i | 0 <= i < |all| ensures SlotHolds(c, h.indexCapacity, all, i) {
      StagedSlot(p, d, i);
      SlotFrame(d, c, h.indexCapacity, all, i);
    }
    assert Represents(c, h, all);
    RepresentsWellFormed(c, h, all, Some(p.id));
  }

  /** The file is too short for the added payloads: the new header is refused. */
  lemma NewHeaderNeedsPayloads(p: Plan, d: seq<Byte>, c: seq<Byte>)
    requires p.Valid() && Staged(p, d) && p.added != []
    requires |p.prior| + |p.added| < TWO32 && |p.header.magic| == 4
    requires |c| == p.End() && c[..HEADER_SIZE] == EncodeHeader(p.NewHeader())
    requires Agree(d, c, HEADER_SIZE, |c|)
    ensures !Accepts(c, Some(p.id), true)
  {
    hide EntryAt, DecodeHeader, EncodeHeader;
    HeaderRoundTrip(c, p.NewHeader());
    if Accepts(c, Some(p.id), true) {
      assert (p.prior + p.added)[..|p.prior|] == p.prior;
      assert GoodEntry(c, |p.prior|);
      StagedStarts(p, d, c, |p.prior|);
    }
  }

  /** Payload starts depend on the index alone. */
  lemma {:induction false} StagedStarts(p: Plan, d: seq<Byte>, c: seq<Byte>, i: nat)
    requires p.Valid() && Staged(p, d) && i <= |p.prior + p.added|
    requires p.End() <= |c| && Agree(d, c, HEADER_SIZE, p.Start())
    requires InIndex(c, i) && DecodeHeader(c).indexCapacity == p.header.indexCapacity
    ensures PayloadStart(c, i) == PayloadAt(p.header.indexCapacity, p.prior + p.added, i)
  {
    hide EntryAt, DecodeHeader, Staged, EncodeHeader;
    var all := p.prior + p.added;
    if i == 0 {
      assert all[..0] == [];
    } else {
      StagedStarts(p, d, c, i - 1);
      TotalStep(all, i - 1);
      StagedSlot(p, d, i - 1);
      EntryFrame(d, c, i - 1);
    }
  }

  /** The staged file is durable; only header switches and their undoing are in flight. */
  ghost predicate Switching(p: Plan, s: Storage)
    requires p.Valid()
  {
    PlanFacts(p);
    && p.added != [] && |p.prior| + |p.added| < TWO32
    && Staged(p, s.durable)
    && forall op :: op in s.ops ==>
         Switches(op, p.OldHeader(), EncodeHeader(p.NewHeader()), p.End())
  }

  lemma TotalPositive(recs: seq<Rec>)
    requires recs != [] && forall k :: 0 <= k < |recs| ==> GoodRec(recs[k])
    ensures Total(recs) > 0
  {
    assert GoodRec(recs[|recs| - 1]);
  }

  /** The three kinds of image around the commit point. */
  lemma SwitchingImage(p: Plan, s: Storage, c: seq<Byte>)
    requires p.Valid() && Switching(p, s) && MayRemain(s, c)
    ensures DecodesTo(c, p.id, p.prior) || DecodesTo(c, p.id, p.prior + p.added)
            || (!Accepts(c, Some(p.id), true) && |c| == p.End() < |s.durable|)
  {
    hide DecodesTo, Accepts, Represents, GoodHeader, GoodRecs, EncodeHeader, DecodeHeader, Total, EntryAt, AddedSlot;
    PlanFacts(p);
    TotalPositive(p.added);
    var d := s.durable;
    SwitchRemains(s, c, p.OldHeader(), EncodeHeader(p.NewHeader()), p.End());
    if c[..HEADER_SIZE] == p.OldHeader() {
      HeaderBytesAgree(d, c);
      IntactDecodesOld(p, c);
    } else if |c| == |d| {
      NewHeaderDecodesAll(p, d, c);
    } else {
      NewHeaderNeedsPayloads(p, d, c);
    }
  }

  lemma HeaderBytesAgree(d: seq<Byte>, c: seq<Byte>)
    requires HEADER_SIZE <= |d| && HEADER_SIZE <= |c| && c[..HEADER_SIZE] == d[..HEADER_SIZE]
    ensures Agree(d, c, 0, HEADER_SIZE)
  {
    forall q | 0 <= q < HEADER_SIZE ensures d[q] == c[q] {
      assert d[..HEADER_SIZE][q] == c[..HEADER_SIZE][q];
    }
  }

  /** Undoing a header switch can lose the tail while the new header survives;
      such a file is rejected, never read as something else. */
  lemma SwitchingIsNeverThird(p: Plan, s: Storage)
    requires p.Valid() && Switching(p, s)
    ensures NeverThird(s, p.id, p.prior, p.prior + p.added)
  {
    forall c | MayRemain(s, c) && Accepts(c, Some(p.id), true)
      ensures DecodesTo(c, p.id, p.prior) || DecodesTo(c, p.id, p.prior + p.added)
    {
      SwitchingImage(p, s, c);
    }
  }

  /** On the way forward the length never shrinks, so every image is accepted. */
  lemma ForwardSwitchIsSafe(p: Plan, s: Storage)
    requires p.Valid() && Switching(p, s)
    requires SetLength(p.End()) !in s.ops
    ensures CrashSafe(s, p.id, p.prior, p.prior + p.added)
  {
    hide DecodesTo, Accepts, Plan.Valid, Staged, EncodeHeader;
    PlanFacts(p);
    assert HEADER_SIZE <= |s.durable| by { StagedHasHeader(p, s.durable); }
    forall c | MayRemain(s, c)
      ensures DecodesTo(c, p.id, p.prior) || DecodesTo(c, p.id, p.prior + p.added)
    {
      SwitchingImage(p, s, c);
      HeaderWritesKeepLength(s, c);
    }
  }

  lemma StagedHasHeader(p: Plan, d: seq<Byte>)
    requires p.Valid() && Staged(p, d)
    ensures HEADER_SIZE <= |d|
  {
    PlanFacts(p);
  }

  lemma {:induction false} HeaderWritesKeepLength(s: Storage, c: seq<Byte>)
    requires HEADER_SIZE <= |s.durable| && MayRemain(s, c)
    requires forall op :: op in s.ops ==> IsHeaderWrite(op)
    ensures |c| == |s.durable|
    decreases |s.ops|
  {
    if s.ops != [] {
      var m := |s.ops| - 1;
      var t := Storage(s.durable, s.ops[..m]);
      var mid :| MayRemain(t, mid) && MayLeave(mid, s.ops[m], c);
      assert forall op :: op in t.ops ==> op in s.ops;
      HeaderWritesKeepLength(t, mid);
      assert IsHeaderWrite(s.ops[m]);
    }
  }

  // ---------------------------------------------------------- the writing

  /** `op` is one chunk of writing `data` at `at`. */
  predicate Piece(op: WriteOp, at: nat, data: seq<Byte>) {
    && op.Write?
    && at <= op.at && op.at + |op.data| <= at + |data|
    && (at == 0 && |data| == HEADER_SIZE ==> op == Write(at, data))
  }

  /** `s` is `before` plus some chunks of one write. */
  ghost predicate Wrote(before: Storage, s: Storage, at: nat, data: seq<Byte>) {
    && s.durable == before.durable && before.ops <= s.ops
    && forall i :: |before.ops| <= i < |s.ops| ==> Piece(s.ops[i], at, data)
  }

  lemma WroteNothing(s: Storage, at: nat, data: seq<Byte>)
    ensures Wrote(s, s, at, data)
  {}

  lemma ChunkJoin(b: seq<Byte>, at: nat, x: seq<Byte>, y: seq<Byte>)
    ensures Apply(Apply(b, Write(at, x)), Write(at + |x|, y)) == Apply(b, Write(at, x + y))
  {
    var l := Apply(Apply(b, Write(at, x)), Write(at + |x|, y));
    var r := Apply(b, Write(at, x + y));
    forall q | 0 <= q < |l| ensures l[q] == r[q] {
      if at <= q < at + |x| {
        assert Apply(b, Write(at, x))[at..at + |x|][q - at] == x[q - at];
        assert r[at..at + |x + y|][q - at] == (x + y)[q - at];
      } else if at + |x| <= q < at + |x| + |y| {
        assert l[at + |x|..at + |x| + |y|][q - at - |x|] == y[q - at - |x|];
        assert r[at..at + |x + y|][q - at] == (x + y)[q - at];
      }
    }
  }

  lemma NextChunk(b: seq<Byte>, at: nat, data: seq<Byte>, done: nat, chunk: nat)
    requires done + chunk <= |data|
    ensures var c := if done == 0 then b else Apply(b, Write(at, data[..done]));
            Apply(c, Write(at + done, data[done..done + chunk])) == Apply(b, Write(at, data[..done + chunk]))
  {
    hide Apply;
    if done > 0 {
      ChunkJoin(b, at, data[..done], data[done..done + chunk]);
      assert data[..done + chunk] == data[..done] + data[done..done + chunk];
    } else {
      assert data[..chunk] == data[0..chunk];
    }
  }

  lemma PieceOf(at: nat, data: seq<Byte>, done: nat, chunk: nat, written: nat)
    requires done + chunk <= |data| && written <= chunk
    requires at == 0 && |data| == HEADER_SIZE ==> done == 0 && written == chunk == |data|
    ensures Piece(Write(at + done, data[done..done + chunk][..written]), at, data)
  {
    assert data[done..done + chunk][..written] == data[done..done + written];
    assert data[0..|data|] == data;
  }

  /** `WriteAt`: bounded chunks, each preceded by a look at the cancel flag. */
  method WriteAt(file: CacheFile, at: nat, data: seq<Byte>) returns (ok: bool)
    requires file.Valid() && data != []
    modifies file
    ensures file.Valid() && old(file.trail) <= file.trail
    ensures ok ==> file.bytes == Apply(old(file.bytes), Write(at, data))
    ensures Wrote(old(file.disk), file.disk, at, data)
    ensures forall j :: |old(file.trail)| <= j < |file.trail| ==>
              Wrote(old(file.disk), file.trail[j], at, data)
    ensures file.reliable ==> ok
  {
    hide Apply, Piece, Replay, Wrote, CacheFile.Valid;
    var done: nat := 0;
    ghost var start, before, from := file.bytes, file.disk, |file.trail|;
    WroteNothing(before, at, data);
    while done < |data|
      invariant done <= |data| && file.Valid() && old(file.trail) <= file.trail
      invariant file.bytes == if done == 0 then start else Apply(start, Write(at, data[..done]))
      invariant |data| <= WRITE_CHUNK && 0 < done ==> done == |data|
      invariant Wrote(before, file.disk, at, data)
      invariant forall j :: from <= j < |file.trail| ==> Wrote(before, file.trail[j], at, data)
    {
      var cancelled: bool := *;
      if cancelled && !file.reliable {
        return false;
      }
      var chunk := if |data| - done < WRITE_CHUNK then |data| - done else WRITE_CHUNK;
      ok := WritePiece(file, at, data, done, chunk, before, from);
      if !ok {
        return;
      }
      NextChunk(start, at, data, done, chunk);
      done := done + chunk;
    }
    assert data[..done] == data;
    return true;
  }

  method WritePiece(
    file: CacheFile, at: nat, data: seq<Byte>, done: nat, chunk: nat,
    ghost before: Storage, ghost from: nat)
    returns (ok: bool)
    requires file.Valid() && 0 < chunk && done + chunk <= |data|
    requires at == 0 && |data| == HEADER_SIZE ==> done == 0 && chunk == |data|
    requires Wrote(before, file.disk, at, data) && from <= |file.trail|
    requires forall j :: from <= j < |file.trail| ==> Wrote(before, file.trail[j], at, data)
    modifies file
    ensures file.Valid() && old(file.trail) <= file.trail
    ensures ok ==> file.bytes == Apply(old(file.bytes), Write(at + done, data[done..done + chunk]))
    ensures Wrote(before, file.disk, at, data)
    ensures forall j :: from <= j < |file.trail| ==> Wrote(before, file.trail[j], at, data)
    ensures file.reliable ==> ok
  {
    hide Apply, Piece, Replay;
    var piece := data[done..done + chunk];
    ghost var written;
    ok, written := file.WriteChunk(at + done, piece);
    if written > 0 {
      if at == 0 && |data| == HEADER_SIZE {
        assert IsHeaderWrite(Write(at + done, piece));
      }
      PieceOf(at, data, done, chunk, written);
      assert piece[..|piece|] == piece;
    }
  }
}
