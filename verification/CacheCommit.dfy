/** The steps of the in-place append, in the order `AppendFile` issues them:
    truncate, payloads, flush, index, flush, header, flush, and the rollback. */
module CacheCommit {
  import opened Basics
  import opened ByteCodec
  import opened CacheFormat
  import opened CacheDisk
  import opened CacheAppend

  // ------------------------------------------------------- small bookkeeping

  function EncodeIndex(entries: seq<Entry>): (b: seq<Byte>)
    ensures |b| == ENTRY_SIZE * |entries|
  {
    if entries == [] then []
    else EncodeIndex(entries[..|entries| - 1]) + EncodeEntry(entries[|entries| - 1])
  }

  lemma {:induction false} IndexSlice(entries: seq<Entry>, i: nat)
    requires i < |entries|
    ensures EncodeIndex(entries)[ENTRY_SIZE * i..ENTRY_SIZE * (i + 1)] == EncodeEntry(entries[i])
  {
    hide EncodeEntry;
    var m := |entries| - 1;
    var head := EncodeIndex(entries[..m]);
    if i < m {
      IndexSlice(entries[..m], i);
      assert EncodeIndex(entries)[ENTRY_SIZE * i..ENTRY_SIZE * (i + 1)]
          == head[ENTRY_SIZE * i..ENTRY_SIZE * (i + 1)];
    }
  }

  lemma WroteSpares(p: Plan, before: Storage, s: Storage, at: nat, data: seq<Byte>)
    requires p.Valid() && Wrote(before, s, at, data)
    requires p.End() <= at || (SlotOffset(|p.prior|) <= at && at + |data| <= p.Start())
    ensures Sparing(p, before, s)
  {
    hide Plan.Valid;
    PlanFacts(p);
  }

  /** `s` is `before` plus old headers and old lengths. */
  ghost predicate Undone(p: Plan, before: Storage, s: Storage)
    requires p.Valid()
  {
    PlanFacts(p);
    && s.durable == before.durable && before.ops <= s.ops
    && forall i :: |before.ops| <= i < |s.ops| ==>
         s.ops[i] == Write(0, p.OldHeader()) || s.ops[i] == SetLength(p.End())
  }

  lemma HeaderUndone(p: Plan, before: Storage, s: Storage)
    requires p.Valid() && |p.header.magic| == 4 && Wrote(before, s, 0, p.OldHeader())
    ensures Undone(p, before, s)
  {}

  lemma LengthUndone(p: Plan, before: Storage, s: Storage)
    requires p.Valid() && Undone(p, before, s)
    ensures Undone(p, before, Storage(s.durable, s.ops + [SetLength(p.End())]))
  {
    hide Plan.Valid;
  }

  lemma UndoSpares(p: Plan, before: Storage, s: Storage)
    requires p.Valid() && Undone(p, before, s)
    ensures Sparing(p, before, s)
    ensures Switching(p, before) ==> Switching(p, s)
  {
    hide Plan.Valid, Staged;
    PlanFacts(p);
    if Switching(p, before) {
      forall op | op in s.ops
        ensures Switches(op, p.OldHeader(), EncodeHeader(p.NewHeader()), p.End())
      {
        var i :| 0 <= i < |s.ops| && s.ops[i] == op;
        assert i < |before.ops| ==> before.ops[i] == op;
      }
    }
  }

  // ------------------------------------------------------------ the payloads

  ghost predicate PayloadsIn(p: Plan, b: seq<Byte>, n: nat)
    requires p.Valid() && n <= |p.added|
  {
    && |b| == p.End() + Total(p.added[..n])
    && forall i :: 0 <= i < n ==> PayloadIn(p, b, i)
  }

  ghost predicate PayloadIn(p: Plan, b: seq<Byte>, i: nat)
    requires p.Valid() && i < |p.added|
  {
    var s := p.End() + Total(p.added[..i]);
    s + |p.added[i].data| <= |b| && b[s..s + |p.added[i].data|] == p.added[i].data
  }

  lemma PayloadAppended(p: Plan, b: seq<Byte>, n: nat)
    requires p.Valid() && n < |p.added| && PayloadsIn(p, b, n)
    ensures PayloadsIn(p, Apply(b, Write(|b|, p.added[n].data)), n + 1)
  {
    var data := p.added[n].data;
    var c := Apply(b, Write(|b|, data));
    TotalStep(p.added, n);
    assert c[..|b|] == b;
    forall i | 0 <= i < n + 1 ensures PayloadIn(p, c, i) {
      if i < n {
        assert PayloadIn(p, b, i);
        var s := p.End() + Total(p.added[..i]);
        assert c[s..s + |p.added[i].data|] == b[s..s + |p.added[i].data|];
      }
    }
  }

  /** One payload, right behind the bytes already there. */
  method WritePayload(file: CacheFile, at: nat, data: seq<Byte>, ghost p: Plan, ghost i: nat)
    returns (ok: bool)
    requires p.Valid() && i < |p.added| && data == p.added[i].data && at == |file.bytes|
    requires file.Valid() && KeepsOld(p, file.bytes) && PayloadsIn(p, file.bytes, i)
    modifies file
    ensures file.Valid() && old(file.trail) <= file.trail
    ensures Sparing(p, old(file.disk), file.disk)
    ensures forall j :: |old(file.trail)| <= j < |file.trail| ==> Sparing(p, old(file.disk), file.trail[j])
    ensures ok ==> KeepsOld(p, file.bytes) && PayloadsIn(p, file.bytes, i + 1)
    ensures file.reliable ==> ok
  {
    PlanFacts(p);
    assert GoodRec(p.added[i]) && p.End() <= at;
    hide Apply, Replay, Sparing, Plan.Valid, Wrote, PayloadsIn, KeepsOld;
    ghost var before, bytes := file.disk, file.bytes;
    ok := WriteAt(file, at, data);
    WroteSpares(p, before, file.disk, at, data);
    forall j | |old(file.trail)| <= j < |file.trail| ensures Sparing(p, before, file.trail[j]) {
      WroteSpares(p, before, file.trail[j], at, data);
    }
    if ok {
      KeepsOldStep(p, bytes, Write(at, data));
      PayloadAppended(p, bytes, i);
    }
  }

  method WritePayloads(file: CacheFile, end: nat, added: seq<Rec>, ghost p: Plan)
    returns (ok: bool)
    requires p.Valid() && added == p.added && end == p.End()
    requires file.Valid() && KeepsOld(p, file.bytes) && PayloadsIn(p, file.bytes, 0)
    modifies file
    ensures file.Valid() && old(file.trail) <= file.trail
    ensures Sparing(p, old(file.disk), file.disk)
    ensures forall j :: |old(file.trail)| <= j < |file.trail| ==> Sparing(p, old(file.disk), file.trail[j])
    ensures ok ==> KeepsOld(p, file.bytes) && PayloadsIn(p, file.bytes, |added|)
    ensures file.reliable ==> ok
  {
    hide Apply, Replay, Sparing, Plan.Valid, PayloadIn, KeepsOld;
    ok := true;
    ghost var before, from := file.disk, |file.trail|;
    SparingNothing(p, before);
    var payloadOffset := end;
    assert added[..0] == [];
    for i := 0 to |added|
      invariant ok && file.Valid() && old(file.trail) <= file.trail && KeepsOld(p, file.bytes)
      invariant Sparing(p, before, file.disk)
      invariant forall j :: from <= j < |file.trail| ==> Sparing(p, before, file.trail[j])
      invariant payloadOffset == end + Total(added[..i]) && PayloadsIn(p, file.bytes, i)
    {
      ghost var trail, disk := file.trail, file.disk;
      ok := WritePayload(file, payloadOffset, added[i].data, p, i);
      SparingTrail(p, before, disk, trail, file.trail, from);
      SparingJoins(p, before, disk, file.disk);
      if !ok {
        return;
      }
      TotalStep(added, i);
      payloadOffset := payloadOffset + |added[i].data|;
    }
    assert added[..|added|] == added;
  }

  /** One stretch of the trail after another. */
  lemma SparingTrail(p: Plan, before: Storage, disk: Storage, trail: seq<Storage>, more: seq<Storage>, from: nat)
    requires p.Valid() && trail <= more && Sparing(p, before, disk)
    requires forall j :: from <= j < |trail| ==> Sparing(p, before, trail[j])
    requires forall j :: |trail| <= j < |more| ==> Sparing(p, disk, more[j])
    ensures forall j :: from <= j < |more| ==> Sparing(p, before, more[j])
  {
    hide Sparing, Plan.Valid;
    forall j | from <= j < |more| ensures Sparing(p, before, more[j]) {
      if j < |trail| {
        assert more[j] == trail[j];
      } else {
        SparingJoins(p, before, disk, more[j]);
      }
    }
  }

  // --------------------------------------------------------------- the index

  /** Writing the slots leaves the payloads alone and fills slot `i`. */
  lemma {:induction false} SlotWritten(p: Plan, b: seq<Byte>, d: seq<Byte>, index: seq<Byte>, i: nat)
    requires p.Valid() && i < |p.added| && PayloadIn(p, b, i)
    requires forall k :: 0 <= k < |p.added| ==> GoodRec(p.added[k])
    requires |index| == ENTRY_SIZE * |p.added|
    requires index[ENTRY_SIZE * i..ENTRY_SIZE * (i + 1)] == EncodeEntry(p.EntryFor(i))
    requires p.Start() <= |b| == |d| && Agree(b, d, p.Start(), |b|)
    requires SlotOffset(|p.prior|) + |index| <= |d|
    requires d[SlotOffset(|p.prior|)..SlotOffset(|p.prior|) + |index|] == index
    ensures AddedSlot(p, d, i)
  {
    hide EncodeEntry, EntryAt, DecodeHeader, Represents, GoodHeader, GoodRecs, Total;
    var at, o := SlotOffset(|p.prior|), SlotOffset(|p.prior| + i);
    FieldAt(d, at, index, ENTRY_SIZE * i, ENTRY_SIZE * (i + 1), EncodeEntry(p.EntryFor(i)));
    EntryRoundTrip(d, |p.prior| + i, p.EntryFor(i));
    TotalStep(p.added, i);
    var s := p.End() + Total(p.added[..i]);
    AgreeSlice(b, d, p.Start(), |b|, s, s + |p.added[i].data|);
  }

  lemma {:induction false} IndexWritten(p: Plan, b: seq<Byte>, entries: seq<Entry>)
    requires p.Valid() && PayloadsIn(p, b, |p.added|) && |p.header.magic| == 4
    requires KeepsOld(p, b)
    requires forall k :: 0 <= k < |p.added| ==> GoodRec(p.added[k])
    requires |entries| == |p.added|
    requires forall i :: 0 <= i < |entries| ==> entries[i] == p.EntryFor(i)
    ensures Staged(p, Apply(b, Write(SlotOffset(|p.prior|), EncodeIndex(entries))))
  {
    hide EncodeEntry, EntryAt, EncodeHeader, DecodeHeader, Represents, GoodHeader, GoodRecs, PayloadIn,
      AddedSlot, EncodeIndex;
    var at, index := SlotOffset(|p.prior|), EncodeIndex(entries);
    var d := Apply(b, Write(at, index));
    assert p.added[..|p.added|] == p.added;
    assert d[..HEADER_SIZE] == b[..HEADER_SIZE];
    forall i | 0 <= i < |p.added| ensures AddedSlot(p, d, i) {
      IndexSlice(entries, i);
      SlotWritten(p, b, d, index, i);
    }
  }

  /** The checked 64-bit addition of the source cannot fail here: a valid plan ends
      below 2^64. */
  method BuildIndex(end: nat, added: seq<Rec>, ghost p: Plan) returns (entries: seq<Entry>)
    requires p.Valid() && added == p.added && end == p.End()
    requires forall k :: 0 <= k < |added| ==> GoodRec(added[k])
    ensures |entries| == |added|
    ensures forall i :: 0 <= i < |entries| ==> entries[i] == p.EntryFor(i)
  {
    entries := [];
    var cursor := end;
    assert added[..0] == [];
    for i := 0 to |added|
      invariant |entries| == i && cursor == end + Total(added[..i])
      invariant forall k :: 0 <= k < i ==> entries[k] == p.EntryFor(k)
    {
      assert GoodRec(added[i]);
      TotalStep(added, i);
      entries := entries + [Entry(added[i].off, |added[i].data|, cursor, added[i].checksum)];
      cursor := cursor + |added[i].data|;
    }
  }

  method WriteIndex(file: CacheFile, count: nat, entries: seq<Entry>, ghost p: Plan)
    returns (ok: bool)
    requires p.Valid() && count == |p.prior| && p.added != [] && |p.header.magic| == 4
    requires file.Valid() && KeepsOld(p, file.bytes) && PayloadsIn(p, file.bytes, |p.added|)
    requires |entries| == |p.added|
    requires forall k :: 0 <= k < |p.added| ==> GoodRec(p.added[k])
    requires forall i :: 0 <= i < |entries| ==> entries[i] == p.EntryFor(i)
    modifies file
    ensures file.Valid() && old(file.trail) <= file.trail
    ensures Sparing(p, old(file.disk), file.disk)
    ensures forall j :: |old(file.trail)| <= j < |file.trail| ==> Sparing(p, old(file.disk), file.trail[j])
    ensures ok ==> Staged(p, file.bytes) && file.disk == Storage(file.bytes, [])
    ensures file.reliable ==> ok
  {
    hide Apply, Replay, Sparing, Wrote, PayloadIn, Staged, EncodeIndex, KeepsOld;
    IndexWritten(p, file.bytes, entries);
    ghost var before := file.disk;
    var index := EncodeIndex(entries);
    ok := WriteAt(file, SlotOffset(count), index);
    WroteSpares(p, before, file.disk, SlotOffset(count), index);
    forall j | |old(file.trail)| <= j < |file.trail| ensures Sparing(p, before, file.trail[j]) {
      WroteSpares(p, before, file.trail[j], SlotOffset(count), index);
    }
    if ok {
      SparingFlushed(p, before, file.disk);
      ok := file.Flush();
    }
  }

  // -------------------------------------------------------------- the header

  lemma HeaderWritten(p: Plan, d: seq<Byte>)
    requires p.Valid() && Staged(p, d) && p.added != [] && |p.header.magic| == 4
    requires |p.prior| + |p.added| < TWO32
    ensures var c := Apply(d, Write(0, EncodeHeader(p.NewHeader())));
            && DecodesTo(c, p.id, p.prior + p.added) && Accepts(c, Some(p.id), false)
            && DecodeHeader(c) == p.NewHeader()
  {
    hide EncodeHeader, EntryAt, AddedSlot, Represents, DecodesTo, GoodHeader, GoodRecs, DecodeHeader;
    var data := EncodeHeader(p.NewHeader());
    var c := Apply(d, Write(0, data));
    assert c[0..0 + |data|] == data && c[..HEADER_SIZE] == c[0..0 + |data|];
    NewHeaderDecodesAll(p, d, c);
  }

  lemma WroteHeaderSwitches(p: Plan, before: Storage, s: Storage)
    requires p.Valid() && |p.header.magic| == 4 && p.added != []
    requires |p.prior| + |p.added| < TWO32
    requires before == Storage(before.durable, []) && Staged(p, before.durable)
    requires Wrote(before, s, 0, EncodeHeader(p.NewHeader()))
    ensures Switching(p, s) && SetLength(p.End()) !in s.ops
  {
    PlanFacts(p);
  }

  lemma DurableIsSafe(c: seq<Byte>, id: ArchiveIdentity, prior: seq<Rec>, after: seq<Rec>)
    requires DecodesTo(c, id, after)
    ensures CrashSafe(Storage(c, []), id, prior, after)
  {}

  /** Nothing but new headers is in flight over `d`, or all of it has been flushed. */
  ghost predicate HeaderOnly(p: Plan, d: seq<Byte>, s: Storage)
    requires p.Valid()
  {
    PlanFacts(p);
    || s.ops == []
    || (s.durable == d && NewHeaderInFlight(p, s))
  }

  /** The new header has been written over the staged file, and not flushed since. */
  ghost predicate NewHeaderInFlight(p: Plan, s: Storage)
    requires p.Valid()
  {
    PlanFacts(p);
    Switching(p, s) && Write(0, EncodeHeader(p.NewHeader())) in s.ops
  }

  lemma FlushedHeaderOnly(p: Plan, d: seq<Byte>, s: Storage)
    requires p.Valid() && s.ops == []
    ensures HeaderOnly(p, d, s)
  {}

  lemma WroteHeaderOnly(p: Plan, before: Storage, s: Storage)
    requires p.Valid() && |p.header.magic| == 4 && |p.prior| + |p.added| < TWO32
    requires before == Storage(before.durable, []) && Wrote(before, s, 0, EncodeHeader(p.NewHeader()))
    requires Switching(p, s)
    ensures HeaderOnly(p, before.durable, s)
  {
    hide Plan.Valid, EncodeHeader, Staged;
    if s.ops != [] {
      assert s.ops[0] in s.ops;
    }
  }

  /** The commit point. */
  method SwitchHeader(file: CacheFile, header: Header, count: nat, ghost p: Plan)
    returns (ok: bool)
    requires p.Valid() && header == p.header && count == |p.added| && p.added != []
    requires |header.magic| == 4 && |p.prior| + |p.added| < TWO32
    requires header.entryCount + count < TWO32 && header.entryCount == |p.prior|
    requires file.Valid() && Staged(p, file.bytes) && file.disk == Storage(file.bytes, [])
    modifies file
    ensures file.Valid() && old(file.trail) <= file.trail
    ensures forall j :: |old(file.trail)| <= j < |file.trail| ==>
              CrashSafe(file.trail[j], p.id, p.prior, p.prior + p.added)
    ensures ok ==> DecodesTo(file.bytes, p.id, p.prior + p.added)
                   && Accepts(file.bytes, Some(p.id), false)
                   && DecodeHeader(file.bytes) == p.NewHeader()
                   && file.disk == Storage(file.bytes, [])
    ensures !ok ==> Switching(p, file.disk)
    ensures file.reliable ==> ok
    ensures forall j :: |old(file.trail)| <= j < |file.trail| ==> HeaderOnly(p, old(file.bytes), file.trail[j])
    ensures HeaderOnly(p, old(file.bytes), file.disk)
  {
    hide Apply, Replay, Wrote, Staged, EncodeHeader, DecodeHeader, DecodesTo, CrashSafe, Switching, Plan.Valid, Accepts,
      HeaderOnly;
    HeaderWritten(p, file.bytes);
    ghost var before := file.disk;
    var newHeader := header.(entryCount := header.entryCount + count);
    ok := WriteAt(file, 0, EncodeHeader(newHeader));
    WroteHeaderSwitches(p, before, file.disk);
    WroteHeaderOnly(p, before, file.disk);
    forall j | |old(file.trail)| <= j < |file.trail|
      ensures CrashSafe(file.trail[j], p.id, p.prior, p.prior + p.added)
      ensures HeaderOnly(p, before.durable, file.trail[j])
    {
      WroteHeaderSwitches(p, before, file.trail[j]);
      WroteHeaderOnly(p, before, file.trail[j]);
      ForwardSwitchIsSafe(p, file.trail[j]);
    }
    if ok {
      DurableIsSafe(file.bytes, p.id, p.prior, p.prior + p.added);
      FlushedHeaderOnly(p, before.durable, Storage(file.bytes, []));
      ok := file.Flush();
    }
  }

  // ------------------------------------------------------------ the rollback

  /** Old header, old length, flush; each may fail. From before the commit point
      this stays safe at every moment; after it, a crash image may be rejected
      but is never read as a third content. */
  method Rollback(file: CacheFile, header: Header, end: nat, ghost p: Plan)
    requires p.Valid() && header == p.header && end == p.End() && |header.magic| == 4
    requires file.Valid()
    modifies file
    ensures file.Valid() && old(file.trail) <= file.trail
    ensures Rolled(p, old(file.disk), file.disk)
    ensures forall j :: |old(file.trail)| <= j < |file.trail| ==> Rolled(p, old(file.disk), file.trail[j])
    ensures Uncommitted(p, old(file.disk)) ==>
              forall j :: |old(file.trail)| <= j < |file.trail| ==> Uncommitted(p, file.trail[j])
    ensures Uncommitted(p, old(file.disk)) || Switching(p, old(file.disk)) ==>
              forall j :: |old(file.trail)| <= j < |file.trail| ==>
                NeverThird(file.trail[j], p.id, p.prior, p.prior + p.added)
  {
    hide Apply, Replay, Uncommitted, Switching, NeverThird, EncodeHeader, Plan.Valid, Undone, Wrote;
    ghost var before, from := file.disk, |file.trail|;
    var _ := WriteAt(file, 0, EncodeHeader(header));
    HeaderUndone(p, before, file.disk);
    forall j | from <= j < |file.trail| ensures Rolled(p, before, file.trail[j]) {
      HeaderUndone(p, before, file.trail[j]);
    }
    LengthUndone(p, before, file.disk);
    var _ := file.Truncate(end);
    assert Undone(p, before, file.disk);
    var _ := file.Flush();
    forall j | from <= j < |file.trail| && (Uncommitted(p, before) || Switching(p, before))
      ensures Uncommitted(p, before) ==> Uncommitted(p, file.trail[j])
      ensures NeverThird(file.trail[j], p.id, p.prior, p.prior + p.added)
    {
      UndoSafe(p, before, file.trail[j]);
    }
  }

  /** `s` is a state of a rollback that began in `before`: undone so far, or flushed then. */
  ghost predicate Rolled(p: Plan, before: Storage, s: Storage)
    requires p.Valid()
  {
    || Undone(p, before, s)
    || exists t :: Undone(p, before, t) && s == Storage(Replay(t.durable, t.ops), [])
  }

  lemma UndoSafe(p: Plan, before: Storage, s: Storage)
    requires p.Valid() && Rolled(p, before, s)
    requires Uncommitted(p, before) || Switching(p, before)
    ensures Uncommitted(p, before) ==> Uncommitted(p, s)
    ensures NeverThird(s, p.id, p.prior, p.prior + p.added)
  {
    hide Uncommitted, Switching, NeverThird, CrashSafe, Plan.Valid, Undone;
    var flushed := !Undone(p, before, s);
    var t := s;
    if flushed {
      t :| Undone(p, before, t) && s == Storage(Replay(t.durable, t.ops), []);
    }
    UndoSpares(p, before, t);
    if Uncommitted(p, before) {
      SparingUncommitted(p, before, t);
      UncommittedIsSafe(p, t);
      SafeIsNeverThird(t, p.id, p.prior, p.prior + p.added);
      FlushedIsUncommitted(p, t);
    } else {
      SwitchingIsNeverThird(p, t);
    }
    FlushKeepsNeverThird(t, p.id, p.prior, p.prior + p.added);
  }

  /** From before the header write, a rollback only spares what is there. */
  lemma RolledSpares(p: Plan, before: Storage, s: Storage)
    requires p.Valid() && Rolled(p, before, s) && KeepsOld(p, Replay(before.durable, before.ops))
    ensures Sparing(p, before, s)
  {
    hide Plan.Valid, Undone, KeepsOld, Sparing, Replay;
    if Undone(p, before, s) {
      UndoSpares(p, before, s);
    } else {
      var t :| Undone(p, before, t) && s == Storage(Replay(t.durable, t.ops), []);
      UndoSpares(p, before, t);
      SparingFlushed(p, before, t);
    }
  }

  /** From a header switch, everything in flight stays so until a flush. */
  lemma RolledSwitch(p: Plan, before: Storage, s: Storage)
    requires p.Valid() && Rolled(p, before, s) && Switching(p, before)
    ensures NewHeaderInFlight(p, before) ==> NewHeaderInFlight(p, s) || s.ops == []
  {
    hide Plan.Valid, Switching;
    if Undone(p, before, s) {
      UndoSpares(p, before, s);
    }
  }

  /** The rejection is real: keep the new header and the old length, lose the rest. */
  lemma RollbackMayReject(p: Plan, d: seq<Byte>)
    requires p.Valid() && Staged(p, d) && p.added != [] && |p.header.magic| == 4
    requires |p.prior| + |p.added| < TWO32
    ensures var s := Storage(d, [Write(0, EncodeHeader(p.NewHeader())), SetLength(p.End())]);
            Switching(p, s) && exists c :: MayRemain(s, c) && !Accepts(c, Some(p.id), true)
  {
    hide EncodeHeader, EntryAt, AddedSlot, Represents, Accepts, GoodHeader, GoodRecs, DecodeHeader, Total;
    PlanFacts(p);
    TotalPositive(p.added);
    var one, two := Write(0, EncodeHeader(p.NewHeader())), SetLength(p.End());
    var b := Apply(d, one);
    var c := b[..p.End()];
    assert b[0..0 + HEADER_SIZE] == one.data && c[..HEADER_SIZE] == b[0..0 + HEADER_SIZE];
    NewHeaderNeedsPayloads(p, d, c);
    assert c == Apply(b, two);
    AllMayRemain(d, one, two);
  }

  lemma AllMayRemain(d: seq<Byte>, one: WriteOp, two: WriteOp)
    ensures MayRemain(Storage(d, [one, two]), Apply(Apply(d, one), two))
  {
    var s := Storage(d, [one, two]);
    assert s.ops[..1] == [one] && [one][..0] == [];
    assert Replay(d, []) == d && Replay(d, [one]) == Apply(d, one);
    ReplayMayRemain(s);
  }

  // ------------------------------------------- appending to an unsettled file

  lemma OtherIsGood(prior: seq<Rec>, r: Rec, other: seq<Byte>)
    requires GoodRecs(prior + [r]) && |other| == |r.data|
    ensures GoodRecs(prior + [r.(data := other)])
  {
    var was, now := prior + [r], prior + [r.(data := other)];
    assert forall i :: 0 <= i < |now| ==> now[i].off == was[i].off && |now[i].data| == |was[i].data|;
    forall i | 0 <= i < |now| ensures GoodRec(now[i]) {
      assert GoodRec(was[i]);
    }
    forall i, j | 0 <= i < j < |now| ensures now[i].off != now[j].off {
      assert was[i].off != was[j].off;
    }
  }

  /** Another payload over the added one, under the added one's index entry. */
  lemma OtherPayloadStaged(p: Plan, d: seq<Byte>, other: seq<Byte>) returns (q: Plan)
    requires p.Valid() && Staged(p, d) && |p.added| == 1 && |other| == |p.added[0].data|
    ensures q == p.(added := [p.added[0].(data := other)]) && q.Valid()
    ensures Staged(q, Apply(d, Write(p.End(), other))) && p.End() + |other| == |d|
  {
    hide EntryAt, EncodeHeader, DecodeHeader, Represents, GoodHeader;
    PlanFacts(p);
    var r := p.added[0].(data := other);
    q := p.(added := [r]);
    assert p.added[..0] == [] && q.added[..0] == [] && p.added[..1] == p.added && q.added[..1] == q.added;
    TotalStep(p.added, 0);
    TotalStep(q.added, 0);
    assert p.added == [p.added[0]];
    OtherIsGood(p.prior, p.added[0], other);
    var e := Apply(d, Write(p.End(), other));
    KeepsOldStep(p, d, Write(p.End(), other));
    assert AddedSlot(p, d, 0);
    EntryFrame(d, e, |p.prior|);
    assert q.EntryFor(0) == p.EntryFor(0);
    assert AddedSlot(q, e, 0);
  }

  /** A crash may keep only the first and the last of several operations. */
  lemma FirstAndLastRemain(d: seq<Byte>, first: WriteOp, dropped: seq<WriteOp>, last: WriteOp)
    ensures MayRemain(Storage(d, [first] + dropped + [last]), Apply(Apply(d, first), last))
  {
    var b := Apply(d, first);
    RemainsOn(d, [], d, first, b);
    assert [] + [first] == [first];
    DropsRemain(d, [first], b, dropped);
    RemainsOn(d, [first] + dropped, b, last, Apply(b, last));
  }

  /** What a rollback leaves whose flush failed, and the first writes of the next append. */
  function RolledBack(p: Plan): seq<WriteOp>
    requires |p.header.magic| == 4 && |p.prior| + |p.added| < TWO32
  {
    [Write(0, EncodeHeader(p.NewHeader())), Write(0, p.OldHeader()), SetLength(p.End())]
  }

  /** Why a flush must have succeeded before an append: after a rollback whose flush
      failed, the next append's payload may reach the disk together with the header that
      was rolled back, and the file is then accepted with a third content. */
  lemma UnsettledAppendMayMix(p: Plan, d: seq<Byte>, other: seq<Byte>) returns (c: seq<Byte>)
    requires p.Valid() && Staged(p, d) && |p.added| == 1 && |p.header.magic| == 4 && |p.prior| + 1 < TWO32
    requires |other| == |p.added[0].data| && other != p.added[0].data
    ensures Switching(p, Storage(d, RolledBack(p)))
    ensures MayRemain(Storage(d, RolledBack(p) + [SetLength(p.End()), Write(p.End(), other)]), c)
    ensures DecodesTo(c, p.id, p.prior + [p.added[0].(data := other)])
    ensures p.prior + [p.added[0].(data := other)] != p.prior + p.added
  {
    hide EncodeHeader, DecodeHeader, EntryAt, DecodesTo, Represents, GoodHeader, GoodRecs, AddedSlot,
      MayRemain, Plan.Valid, Staged, Apply, Replay;
    assert Switching(p, Storage(d, RolledBack(p)));
    var q := OtherPayloadStaged(p, d, other);
    assert q.Valid();
    var ops := RolledBack(p);
    var data := Write(p.End(), other);
    FirstAndLastRemain(d, ops[0], [ops[1], ops[2], ops[2]], data);
    assert ops + [ops[2], data] == [ops[0]] + [ops[1], ops[2], ops[2]] + [data];
    c := Apply(Apply(d, ops[0]), data);
    NewHeaderOverStaged(q, p, d, data);
    assert (p.prior + q.added)[|p.prior|] != (p.prior + p.added)[|p.prior|];
  }

  lemma NewHeaderOverStaged(q: Plan, p: Plan, d: seq<Byte>, data: WriteOp)
    requires p.Valid() && q.Valid() && q == p.(added := q.added) && |q.added| == |p.added| == 1
    requires |p.header.magic| == 4 && |p.prior| + 1 < TWO32
    requires data.Write? && data.at == p.End() && p.End() + |data.data| <= |d|
    requires Staged(q, Apply(d, data))
    ensures DecodesTo(Apply(Apply(d, RolledBack(p)[0]), data), p.id, p.prior + q.added)
  {
    hide EncodeHeader, DecodeHeader, EntryAt, DecodesTo, Represents, GoodHeader, GoodRecs, AddedSlot;
    PlanFacts(q);
    var hdr := RolledBack(p)[0];
    var b, e := Apply(d, hdr), Apply(d, data);
    var c := Apply(b, data);
    assert b[0..0 + HEADER_SIZE] == hdr.data;
    assert c[..HEADER_SIZE] == b[0..0 + HEADER_SIZE];
    assert Agree(e, c, HEADER_SIZE, |e|);
    NewHeaderDecodesAll(q, e, c);
  }
}
