/** When a cache file is safe to append to: a condition on the writes since the last flush,
    and why it is exact for every state the append of Skyrim/src/DecompCache.cpp leaves. */
module CacheCalm {
  import opened Basics
  import opened ByteCodec
  import opened CacheFormat
  import opened CacheDisk
  import opened CacheAppend
  import opened CacheCommit

  /** Every image a crash may leave is accepted and decodes to `recs`. */
  ghost predicate AllDecode(disk: Storage, id: ArchiveIdentity, recs: seq<Rec>) {
    forall c :: MayRemain(disk, c) ==> DecodesTo(c, id, recs)
  }

  /** The parts of an accepted file that an operation must not disturb. */
  ghost function CommittedPart(b: seq<Byte>): Committed
    requires WellFormed(b, None)
  {
    Committed(b[..HEADER_SIZE], DecodeHeader(b).entryCount, DataStart(DecodeHeader(b).indexCapacity), ValidSize(b))
  }

  /** What was flushed last is accepted, and nothing since touches its committed part. */
  ghost predicate Calm(disk: Storage, id: ArchiveIdentity) {
    && Accepts(disk.durable, Some(id), true) && WellFormed(disk.durable, None)
    && forall op :: op in disk.ops ==> CommittedPart(disk.durable).Spares(op)
  }

  /** All crash images agree on their records only if that shows in the operations. */
  ghost predicate Plain(disk: Storage, id: ArchiveIdentity) {
    (exists recs :: AllDecode(disk, id, recs)) ==> Calm(disk, id)
  }

  lemma CommittedPartIsValid(b: seq<Byte>, id: ArchiveIdentity)
    requires Accepts(b, Some(id), true)
    ensures WellFormed(b, None) && CommittedPart(b).Valid() && CommittedPart(b).end <= |b|
  {
    hide DecodeHeader, EntryAt, SlotHolds, PayloadStart, GoodEntry;
    WellFormedRepresents(b, Some(id));
  }

  /** A crash on a calm disk loses nothing that was flushed. */
  lemma CalmDecodes(disk: Storage, id: ArchiveIdentity)
    requires Calm(disk, id)
    ensures AllDecode(disk, id, RecordsOf(disk.durable))
  {
    hide DecodeHeader, EntryAt, SlotHolds, PayloadStart, GoodEntry, RecordsOf, DecodesTo;
    CommittedPartIsValid(disk.durable, id);
    forall c | MayRemain(disk, c) ensures DecodesTo(c, id, RecordsOf(disk.durable)) {
      SparedRemains(CommittedPart(disk.durable), disk, c);
      IntactDecodes(disk.durable, id, c);
    }
  }

  lemma IntactDecodes(b: seq<Byte>, id: ArchiveIdentity, c: seq<Byte>)
    requires Accepts(b, Some(id), true) && WellFormed(b, None) && CommittedPart(b).Intact(b, c)
    ensures DecodesTo(c, id, RecordsOf(b))
  {
    hide DecodeHeader, EntryAt, SlotHolds, PayloadStart, GoodEntry, RecordsOf;
    WellFormedRepresents(b, Some(id));
    RepresentsFrame(b, c, DecodeHeader(b), RecordsOf(b));
    RepresentsWellFormed(c, DecodeHeader(b), RecordsOf(b), Some(id));
  }

  lemma FlushedIsPlain(b: seq<Byte>, id: ArchiveIdentity)
    ensures Plain(Storage(b, []), id)
  {
    hide DecodesTo;
    if recs :| AllDecode(Storage(b, []), id, recs) {
      assert MayRemain(Storage(b, []), b);
      assert DecodesTo(b, id, recs);
      DecodedIsAccepted(b, id, recs);
    }
  }

  lemma DecodedIsAccepted(b: seq<Byte>, id: ArchiveIdentity, recs: seq<Rec>)
    requires DecodesTo(b, id, recs)
    ensures Accepts(b, Some(id), true) && WellFormed(b, None) && RecordsOf(b) == recs
  {}

  /** What may remain now may remain after more operations. */
  lemma EarlierRemains(s: Storage, t: Storage, c: seq<Byte>)
    requires t.durable == s.durable && s.ops <= t.ops && MayRemain(s, c)
    ensures MayRemain(t, c)
  {
    assert t.ops == s.ops + t.ops[|s.ops|..];
    DropsRemain(s.durable, s.ops, c, t.ops[|s.ops|..]);
  }

  lemma EarlierDecode(s: Storage, t: Storage, id: ArchiveIdentity, recs: seq<Rec>)
    requires t.durable == s.durable && s.ops <= t.ops && AllDecode(t, id, recs)
    ensures AllDecode(s, id, recs)
  {
    hide DecodesTo;
    forall c | MayRemain(s, c) ensures DecodesTo(c, id, recs) {
      EarlierRemains(s, t, c);
    }
  }

  /** An append works on the committed part of what a calm disk flushed last. */
  lemma CalmPart(p: Plan, s: Storage)
    requires p.Valid() && Calm(s, p.id) && KeepsOld(p, Replay(s.durable, s.ops))
    ensures |p.header.magic| == 4 && CommittedPart(s.durable) == p.Kept()
  {
    hide EntryAt, SlotHolds, PayloadStart, GoodEntry, RecordsOf, DecodesTo, EncodeHeader, Replay, MayRemain;
    PlanFacts(p);
    var b := Replay(s.durable, s.ops);
    CalmDecodes(s, p.id);
    ReplayMayRemain(s);
    DecodesOldIff(p, b);
    assert DecodesTo(b, p.id, p.prior) && DecodesTo(b, p.id, RecordsOf(s.durable));
    SameRecords(b, p.id, p.prior, RecordsOf(s.durable));
    CommittedPartIsValid(s.durable, p.id);
    SparedRemains(CommittedPart(s.durable), s, b);
    WellFormedRepresents(s.durable, Some(p.id));
    HeaderExact(s.durable);
    HeaderRoundTrip(s.durable, p.header);
  }

  lemma SameRecords(b: seq<Byte>, id: ArchiveIdentity, one: seq<Rec>, two: seq<Rec>)
    requires DecodesTo(b, id, one) && DecodesTo(b, id, two)
    ensures one == two
  {}

  /** Staging and undoing keep a state plain. */
  lemma SparingIsPlain(p: Plan, before: Storage, s: Storage)
    requires p.Valid() && Sparing(p, before, s) && KeepsOld(p, Replay(before.durable, before.ops))
    requires Plain(before, p.id)
    ensures Plain(s, p.id)
  {
    hide KeepsOld, Plan.Valid, AllDecode, Committed.Spares, Replay, MayRemain;
    PlanFacts(p);
    if recs :| AllDecode(s, p.id, recs) {
      if KeepsOld(p, s.durable) && forall op :: op in s.ops ==> p.Kept().Spares(op) {
        KeptIsCalm(p, s);
      } else {
        EarlierDecode(before, s, p.id, recs);
        CalmPart(p, before);
        forall op | op in s.ops ensures p.Kept().Spares(op) {
          var i :| 0 <= i < |s.ops| && s.ops[i] == op;
          if i < |before.ops| {
            assert before.ops[i] == op;
          }
        }
      }
    }
  }

  lemma KeptIsCalm(p: Plan, s: Storage)
    requires p.Valid() && |p.header.magic| == 4 && KeepsOld(p, s.durable)
    requires forall op :: op in s.ops ==> p.Kept().Spares(op)
    ensures Calm(s, p.id)
  {
    hide EntryAt, SlotHolds, PayloadStart, GoodEntry, DecodesTo, EncodeHeader, MayRemain;
    DecodesOldIff(p, s.durable);
    DecodedIsAccepted(s.durable, p.id, p.prior);
    var t := Storage(s.durable, []);
    assert Replay(t.durable, t.ops) == s.durable;
    CalmPart(p, t);
  }

  /** A new header in flight over the staged file: some crash images have the old records,
      some have old and new. */
  lemma SwitchIsUnsettled(p: Plan, s: Storage, recs: seq<Rec>)
    requires p.Valid() && NewHeaderInFlight(p, s)
    ensures !AllDecode(s, p.id, recs)
  {
    hide DecodesTo, EncodeHeader, Plan.Valid, Staged, MayRemain, Apply;
    PlanFacts(p);
    var d, switch := s.durable, Write(0, EncodeHeader(p.NewHeader()));
    OneRemains(d, s.ops, switch);
    StagedKeeps(p, d);
    DecodesOldIff(p, d);
    HeaderWritten(p, d);
    if AllDecode(s, p.id, recs) {
      SameRecords(d, p.id, p.prior, recs);
      SameRecords(Apply(d, switch), p.id, p.prior + p.added, recs);
      AddedShows(p.prior, p.added);
      assert false;
    }
  }

  lemma AddedShows(prior: seq<Rec>, added: seq<Rec>)
    requires added != []
    ensures prior != prior + added
  {
    assert |prior + added| > |prior|;
  }

  /** A crash may keep any one of the operations, or none. */
  lemma OneRemains(d: seq<Byte>, ops: seq<WriteOp>, op: WriteOp)
    requires op in ops
    ensures MayRemain(Storage(d, ops), d) && MayRemain(Storage(d, ops), Apply(d, op))
  {
    hide MayRemain, Apply;
    NoneRemains(d, ops);
    var i :| 0 <= i < |ops| && ops[i] == op;
    NoneRemains(d, ops[..i]);
    RemainsOn(d, ops[..i], d, op, Apply(d, op));
    assert ops[..i] + [op] <= ops;
    EarlierRemains(Storage(d, ops[..i] + [op]), Storage(d, ops), Apply(d, op));
  }

  lemma NoneRemains(d: seq<Byte>, ops: seq<WriteOp>)
    ensures MayRemain(Storage(d, ops), d)
  {
    hide MayRemain, Apply;
    NothingRemains(d);
    EarlierRemains(Storage(d, []), Storage(d, ops), d);
  }

  lemma NothingRemains(d: seq<Byte>)
    ensures MayRemain(Storage(d, []), d) && Replay(d, []) == d
  {}

  lemma StagedKeeps(p: Plan, d: seq<Byte>)
    requires p.Valid() && Staged(p, d)
    ensures KeepsOld(p, d)
  {}

  lemma SwitchIsPlain(p: Plan, s: Storage)
    requires p.Valid() && NewHeaderInFlight(p, s)
    ensures Plain(s, p.id)
  {
    hide NewHeaderInFlight, AllDecode, Plan.Valid;
    forall recs ensures !AllDecode(s, p.id, recs) {
      SwitchIsUnsettled(p, s, recs);
    }
  }

  lemma HeaderOnlyIsPlain(p: Plan, d: seq<Byte>, s: Storage)
    requires p.Valid() && HeaderOnly(p, d, s)
    ensures Plain(s, p.id)
  {
    hide NewHeaderInFlight, Plan.Valid, Plain;
    if s.ops == [] {
      FlushedIsPlain(s.durable, p.id);
    } else {
      SwitchIsPlain(p, s);
    }
  }

  /** Around the commit point every crash image has the old records if and only if the new
      header was not issued since the flush before it. */
  lemma SwitchingIff(p: Plan, s: Storage)
    requires p.Valid() && Switching(p, s)
    ensures Uncommitted(p, s) <==> !NewHeaderInFlight(p, s)
  {
    hide Staged, DecodesTo, EncodeHeader, Plan.Valid;
    PlanFacts(p);
    StagedKeeps(p, s.durable);
    if NewHeaderInFlight(p, s) {
      SwitchIsUnsettled(p, s, p.prior);
      UncommittedIff(p, s);
    } else {
      hide KeepsOld, Uncommitted;
      assert forall op :: op in s.ops ==> p.Kept().Spares(op);
      SparedIsUncommitted(p, s);
    }
  }

  /** What the end of an append leaves: a state that spares the old entries, or one with the
      new header in flight, or a flushed one; all of them are plain. */
  lemma RolledIsPlain(p: Plan, before: Storage, turned: Storage, s: Storage)
    requires p.Valid() && KeepsOld(p, Replay(before.durable, before.ops)) && Rolled(p, turned, s)
    requires Sparing(p, before, turned) || NewHeaderInFlight(p, turned)
    ensures Sparing(p, before, turned) ==> Sparing(p, before, s)
    ensures NewHeaderInFlight(p, turned) ==> NewHeaderInFlight(p, s) || s.ops == []
    ensures Plain(before, p.id) ==> Plain(s, p.id)
  {
    hide KeepsOld, Plan.Valid, Sparing, Rolled, NewHeaderInFlight, Plain, Replay;
    if Sparing(p, before, turned) {
      SparingVisible(p, before, turned);
      RolledSpares(p, turned, s);
      SparingJoins(p, before, turned, s);
      if Plain(before, p.id) {
        SparingIsPlain(p, before, s);
      }
    }
    if NewHeaderInFlight(p, turned) {
      InFlightSwitches(p, turned);
      RolledSwitch(p, turned, s);
      if s.ops == [] {
        FlushedIsPlain(s.durable, p.id);
      } else {
        SwitchIsPlain(p, s);
      }
    }
  }

  lemma InFlightSwitches(p: Plan, s: Storage)
    requires p.Valid() && NewHeaderInFlight(p, s)
    ensures Switching(p, s)
  {}

  /** What readers see after a rollback: the old records, or old and new, or nothing. */
  lemma RolledVisible(p: Plan, before: Storage, turned: Storage, s: Storage)
    requires p.Valid() && KeepsOld(p, Replay(before.durable, before.ops)) && Rolled(p, turned, s)
    requires Sparing(p, before, turned) || NewHeaderInFlight(p, turned)
    ensures var b := Replay(s.durable, s.ops);
            && (Sparing(p, before, turned) ==> DecodesTo(b, p.id, p.prior))
            && (Accepts(b, Some(p.id), true) ==>
                  DecodesTo(b, p.id, p.prior) || DecodesTo(b, p.id, p.prior + p.added))
  {
    hide KeepsOld, Plan.Valid, Sparing, Rolled, NewHeaderInFlight, Replay, DecodesTo, MayRemain, Accepts;
    if Sparing(p, before, turned) {
      RolledIsPlain(p, before, turned, s);
      SparingVisible(p, before, s);
      DecodesOldIff(p, Replay(s.durable, s.ops));
    } else {
      InFlightSwitches(p, turned);
      UndoSafe(p, turned, s);
      ReplayMayRemain(s);
    }
  }
}
