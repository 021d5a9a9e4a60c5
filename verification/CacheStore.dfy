/** `AppendFile` as a whole, and `LoadCacheFile` (Skyrim/src/DecompCache.cpp). */
module CacheStore {
  import opened Basics
  import opened ByteCodec
  import opened CacheFormat
  import opened CacheDisk
  import opened CacheAppend
  import opened CacheCommit
  import opened CacheCalm
  import opened CacheWriter
  import opened CacheFlush
  import opened CacheFresh
  import opened Validator

  /** What a flush did to the file. */
  datatype Outcome = Untouched | Appended | RolledBack | Replaced

  method PreparePending(pending: seq<Pending>, hash: Hash, cancelAfter: nat) returns (prepared: seq<Rec>)
    requires GoodPending(pending)
    ensures if cancelAfter < |pending| then prepared == []
            else
              && prepared == Prepared(pending, hash) && GoodRecs(prepared) && |prepared| == |pending|
              && forall k :: 0 <= k < |pending| ==>
                   prepared[k] == Rec(pending[k].off, hash(pending[k].data), pending[k].data)
  {
    prepared := [];
    for i := 0 to |pending|
      invariant |prepared| == i <= cancelAfter
      invariant forall k :: 0 <= k < i ==>
                  prepared[k] == Rec(pending[k].off, hash(pending[k].data), pending[k].data)
    {
      if cancelAfter <= i {
        return [];  // cancelled
      }
      prepared := prepared + [Rec(pending[i].off, hash(pending[i].data), pending[i].data)];
    }
    assert prepared == Prepared(pending, hash);
    forall i | 0 <= i < |prepared| ensures GoodRec(prepared[i]) {
      assert 0 < |pending[i].data| <= MAX_PAYLOAD;
    }
  }

  /** The append of `prepared` to a file of `prior` records. */
  ghost function PlanFor(file: seq<Byte>, id: ArchiveIdentity, prepared: seq<Rec>): Plan
    requires WellFormed(file, None)
  {
    Plan(id, file, DecodeHeader(file), RecordsOf(file), Missing(prepared, Keys(RecordsOf(file))))
  }

  lemma AddedFits(prior: seq<Rec>, added: seq<Rec>)
    requires GoodRecs(prior + added) && |added| <= MAX_CAPACITY
    ensures Total(added) < SIZE_LIMIT
  {
    hide Total, GoodRecs, GoodRec;
    SplitGood(prior, added);
    TotalBound(added);
  }

  /** A file of a legal size has room below 2^64 for all it may add. */
  lemma PlanForIsValid(file: seq<Byte>, id: ArchiveIdentity, prepared: seq<Rec>)
    requires Accepts(file, Some(id), true) && WellFormed(file, None) && GoodRecs(prepared)
    requires |Missing(prepared, Keys(RecordsOf(file)))|
             <= DecodeHeader(file).indexCapacity - DecodeHeader(file).entryCount
    requires |file| < SIZE_LIMIT
    ensures PlanFor(file, id, prepared).Valid()
    ensures PlanFor(file, id, prepared).End() == ValidSize(file)
  {
    hide DecodeHeader, EntryAt, SlotHolds, Total, PayloadStart, GoodEntry;
    WellFormedRepresents(file, Some(id));
    AddedIsGood(RecordsOf(file), prepared);
    AddedFits(RecordsOf(file), Missing(prepared, Keys(RecordsOf(file))));
  }

  /** The file after an append holds the old records, then the missing ones. */
  ghost predicate AppendedTo(
    before: seq<Byte>, after: seq<Byte>, id: ArchiveIdentity, prepared: seq<Rec>)
  {
    && Accepts(before, Some(id), true) && WellFormed(before, None)
    && Accepts(after, Some(id), false) && WellFormed(after, None)
    && RecordsOf(after) == RecordsOf(before) + Missing(prepared, Keys(RecordsOf(before)))
  }

  /** Whatever a crash leaves, the validator accepts it and reads the committed records. */
  ghost predicate Settled(disk: Storage, before: seq<Byte>, id: ArchiveIdentity) {
    && Accepts(before, Some(id), true) && WellFormed(before, None)
    && AllDecode(disk, id, RecordsOf(before))
  }

  /** On a plain disk, whatever wrote it, that is if and only if what was flushed last is
      accepted and nothing issued since touches its committed part. */
  lemma SettledIffCalm(disk: Storage, id: ArchiveIdentity)
    requires Plain(disk, id)
    ensures Settled(disk, Replay(disk.durable, disk.ops), id) <==> Calm(disk, id)
  {
    hide DecodesTo, MayRemain;
    var b := Replay(disk.durable, disk.ops);
    ReplayMayRemain(disk);
    if Calm(disk, id) {
      CalmDecodes(disk, id);
      DecodedIsAccepted(b, id, RecordsOf(disk.durable));
    }
  }

  /** In particular after a flush, and while only the tail was cut or overwritten since. */
  lemma TailWritesAreSettled(durable: seq<Byte>, ops: seq<WriteOp>, id: ArchiveIdentity)
    requires Accepts(durable, Some(id), true)
    requires forall op :: op in ops ==> match op
               case SetLength(n) => ValidSize(durable) <= n
               case Write(at, _) => ValidSize(durable) <= at
    ensures Calm(Storage(durable, ops), id) && Settled(Storage(durable, ops), durable, id)
  {
    hide DecodesTo;
    WellFormedWeaken(durable, Some(id));
    CalmDecodes(Storage(durable, ops), id);
  }

  lemma FlushKeepsSettled(disk: Storage, before: seq<Byte>, id: ArchiveIdentity)
    requires Settled(disk, before, id)
    ensures Settled(Storage(Replay(disk.durable, disk.ops), []), before, id)
  {
    hide DecodesTo;
    ReplayMayRemain(disk);
  }

  lemma CutKeepsSettled(disk: Storage, before: seq<Byte>, id: ArchiveIdentity)
    requires Settled(disk, before, id) && |before| < SIZE_LIMIT
    ensures ValidSize(before) <= |before|
    ensures Settled(CutTail(disk, ValidSize(before)), before[..ValidSize(before)], id)
  {
    hide DecodeHeader, EntryAt, SlotHolds, Total, PayloadStart, GoodEntry, Represents, DecodesTo,
      EncodeHeader, Uncommitted, Plan.Valid;
    PlanForIsValid(before, id, []);
    var p := PlanFor(before, id, []);
    PlanFacts(p);
    UncommittedIff(p, disk);
    SparedAfter(p, disk, CutTail(disk, p.End()));
    UncommittedIff(p, CutTail(disk, p.End()));
    PrefixStable(before, Some(id));
    WellFormedWeaken(before[..ValidSize(before)], Some(id));
  }

  /** What an append that got under way leaves on the disk. Up to `turn`, where its
      rollback begins, every crash image is accepted, as the old records or as old and
      new, exactly if it found the file settled; after that a crash image of a settled
      file may be rejected but never misread. */
  ghost predicate CrashContract(
    disk: Storage, trail: seq<Storage>, from: nat, turn: nat, before: seq<Byte>,
    id: ArchiveIdentity, prepared: seq<Rec>)
  {
    && Accepts(before, Some(id), true) && WellFormed(before, None)
    && from <= turn <= |trail|
    && var prior := RecordsOf(before);
       var after := prior + Missing(prepared, Keys(prior));
       && (from < turn ==>
             (Settled(disk, before, id) <==>
               forall j :: from <= j < turn ==> CrashSafe(trail[j], id, prior, after)))
       && (Settled(disk, before, id) ==>
             forall j :: turn <= j < |trail| ==> NeverThird(trail[j], id, prior, after))
  }

  /** Commits the pending entries of one archive. */
  method AppendFile(file: CacheFile, work: Work, hash: Hash, around: Circumstances)
    returns (result: MapResult, ghost outcome: Outcome, ghost turn: nat, ghost switched: bool, ghost flushed: bool)
    requires file.Valid() && GoodPending(work.pending)
    modifies file
    ensures file.Valid()
    ensures (outcome.Appended? || outcome.RolledBack?) <==>
              && |work.pending| <= around.cancelAfter && !work.resetFile
              && around.opens && !around.locked && around.readable
              && |old(file.bytes)| < SIZE_LIMIT
              && Accepts(old(file.bytes), Some(work.id), true) && WellFormed(old(file.bytes), None)
              && var prior := RecordsOf(old(file.bytes));
                 && (forall k, i :: 0 <= k < |work.pending| && 0 <= i < |prior|
                                    && prior[i].off == work.pending[k].off ==>
                       && |prior[i].data| == |work.pending[k].data|
                       && prior[i].checksum == hash(work.pending[k].data)
                       && hash(prior[i].data) == prior[i].checksum)
                 && |Missing(Prepared(work.pending, hash), Keys(prior))| <= work.id.entryCount - |prior|
    ensures outcome.Appended? || outcome.RolledBack? ==>
              forall k :: 0 <= k < |work.pending| && work.pending[k].off in Table(RecordsOf(old(file.bytes))) ==>
                && |Table(RecordsOf(old(file.bytes)))[work.pending[k].off]| == |work.pending[k].data|
                && hash(Table(RecordsOf(old(file.bytes)))[work.pending[k].off]) == hash(work.pending[k].data)
    ensures outcome.Replaced? ==> |work.pending| <= around.cancelAfter && around.mayReplace
    ensures outcome.Appended? ==> (result.ok <==> around.maps)
    ensures outcome.Replaced? ==> (result.ok <==> around.maps && work.id.entryCount <= MAX_CAPACITY)
    ensures result.ok ==> outcome.Appended? || outcome.Replaced?
    ensures file.reliable ==>
              && !outcome.RolledBack?
              && (outcome.Untouched? <==>
                    && !outcome.Appended?
                    && (|| |work.pending| > around.cancelAfter
                        || (!work.resetFile && around.opens && around.locked) || !around.mayReplace
                        || work.pending == [] || |work.pending| > work.id.entryCount))
              && (outcome.Replaced? ==> flushed)
    ensures outcome.Untouched? ==> file.bytes == old(file.bytes) && file.trail == old(file.trail)
    ensures outcome.Appended? ==>
              && AppendedTo(old(file.bytes), file.bytes, work.id, Prepared(work.pending, hash))
              && Compatible(Prepared(work.pending, hash), RecordsOf(old(file.bytes)), hash)
              && |old(file.trail)| < turn == |file.trail|
              && (Settled(old(file.disk), old(file.bytes), work.id) ==>
                    Settled(file.disk, file.bytes, work.id))
    ensures outcome.Appended? || outcome.RolledBack? ==>
              && old(file.trail) <= file.trail
              && CrashContract(old(file.disk), file.trail, |old(file.trail)|, turn, old(file.bytes),
                               work.id, Prepared(work.pending, hash))
    ensures outcome.RolledBack? && !switched ==>
              && Unchanged(old(file.bytes), file.bytes, work.id)
              && (Settled(old(file.disk), old(file.bytes), work.id) ==> Settled(file.disk, file.bytes, work.id))
    ensures outcome.RolledBack? && switched ==>
              file.disk.ops == [] || forall recs :: !AllDecode(file.disk, work.id, recs)
    ensures outcome.RolledBack? && Accepts(file.bytes, Some(work.id), true) ==>
              || Unchanged(old(file.bytes), file.bytes, work.id)
              || AddedTo(old(file.bytes), file.bytes, work.id, Prepared(work.pending, hash))
    ensures old(file.trail) <= file.trail
    ensures Plain(old(file.disk), work.id) ==>
              && Plain(file.disk, work.id)
              && forall j :: |old(file.trail)| <= j < |file.trail| ==> Plain(file.trail[j], work.id)
    ensures outcome.Replaced? ==>
              && file.trail == old(file.trail) + [file.disk]
              && (work.id.entryCount <= MAX_CAPACITY <==>
                    DecodesTo(file.bytes, work.id, Prepared(work.pending, hash))
                    && Accepts(file.bytes, Some(work.id), false))
              && (if flushed then file.disk == Storage(file.bytes, []) else file.disk.durable == [])
    ensures result.ok && outcome.Appended? ==>
              && Serves(file.bytes, result.index, RecordsOf(file.bytes))
              && forall k :: k in result.index ==>
                   (result.index[k].verified <==>
                     k in work.verifiedOffsets || k in Keys(Prepared(work.pending, hash)))
    ensures result.ok && outcome.Replaced? ==>
              Serves(file.bytes, result.index, Prepared(work.pending, hash))
  {
    hide DecodeHeader, EntryAt, SlotHolds, Total, PayloadStart, GoodEntry, CrashSafe, NeverThird,
      Represents, DecodesTo, Prepared, Missing, GoodRecs, EncodeHeader, Serves, Uncommitted, Plain,
      CrashContract, AppendedTo, Unchanged, AddedTo, Settled, AllDecode, Keys, Table, RecordsOf, GoodPending,
      Compatible, GoodHeader;
    result, outcome, turn, switched, flushed := FAILURE, Untouched, |file.trail|, false, true;
    var prepared := PreparePending(work.pending, hash, around.cancelAfter);
    if |prepared| != |work.pending| {
      return;
    }
    if !work.resetFile && around.opens && around.locked {
      return;
    }
    var usable, header, end, added, valid := ReadForAppend(file, work, prepared, hash, around);
    if usable {
      var ok;
      ok, turn, switched := AppendInPlace(file, work.id, header, end, added, prepared);
      outcome := if ok then Appended else RolledBack;
      if ok {
        valid := MarkCommitted(valid, prepared);
        AcceptedIsSmall(file.bytes, work.id);
        result := MapCommittedFile(file, work.id, valid, hash, around.maps);
      }
    } else {
      assert forall i :: 0 <= i < |prepared| ==> GoodRec(prepared[i]) by { SplitGoodOne(prepared); }
      ghost var replaced;
      result, replaced, flushed := WriteFreshFile(file, work, prepared, hash, around);
      outcome := if replaced then Replaced else Untouched;
      if replaced {
        NewFileIsPlain(file.disk, work.id);
      }
    }
  }

  /** A strictly valid file is far below the size at which mapping is refused. */
  lemma AcceptedIsSmall(b: seq<Byte>, id: ArchiveIdentity)
    ensures Accepts(b, Some(id), false) ==> |b| < SIZE_LIMIT
  {
    hide DecodeHeader, EntryAt, SlotHolds, GoodEntry, Total, PayloadStart;
    if Accepts(b, Some(id), false) {
      WellFormedWeaken(b, Some(id));
      WellFormedRepresents(b, Some(id));
      TotalBound(RecordsOf(b));
    }
  }

  /** What `ReadForAppend` finds, in terms of the pending payloads. */
  lemma MergeableIff(work: Work, b: seq<Byte>, prepared: seq<Rec>, hash: Hash)
    requires GoodPending(work.pending) && prepared == Prepared(work.pending, hash)
    ensures Accepts(b, Some(work.id), true) && WellFormed(b, None) ==>
              var prior := RecordsOf(b);
              && |prior| == DecodeHeader(b).entryCount
              && DecodeHeader(b).indexCapacity == work.id.entryCount
              && (Compatible(prepared, prior, hash) <==>
                    forall k, i :: 0 <= k < |work.pending| && 0 <= i < |prior|
                                   && prior[i].off == work.pending[k].off ==>
                      && |prior[i].data| == |work.pending[k].data|
                      && prior[i].checksum == hash(work.pending[k].data)
                      && hash(prior[i].data) == prior[i].checksum)
              && (Compatible(prepared, prior, hash) ==>
                    forall k :: 0 <= k < |work.pending| && work.pending[k].off in Table(prior) ==>
                      && |Table(prior)[work.pending[k].off]| == |work.pending[k].data|
                      && hash(Table(prior)[work.pending[k].off]) == hash(work.pending[k].data))
  {
    hide DecodeHeader, EntryAt, Total, PayloadStart, GoodEntry, Compatible, Table;
    if Accepts(b, Some(work.id), true) && WellFormed(b, None) {
      WellFormedRepresents(b, Some(work.id));
      CompatibleIff(prepared, RecordsOf(b), hash);
      forall k | 0 <= k < |work.pending|
        ensures prepared[k] == Rec(work.pending[k].off, hash(work.pending[k].data), work.pending[k].data)
      {}
    }
  }

  /** The append of `AppendFile`, once it was found possible. */
  method AppendInPlace(
    file: CacheFile, id: ArchiveIdentity, header: Header, end: nat, added: seq<Rec>, ghost prepared: seq<Rec>)
    returns (ok: bool, ghost turn: nat, ghost switched: bool)
    requires file.Valid() && Accepts(file.bytes, Some(id), true) && WellFormed(file.bytes, None)
    requires header == DecodeHeader(file.bytes) && end == ValidSize(file.bytes) && GoodRecs(prepared)
    requires added == Missing(prepared, Keys(RecordsOf(file.bytes)))
    requires |added| <= header.indexCapacity - header.entryCount && |file.bytes| < SIZE_LIMIT
    modifies file
    ensures file.Valid() && old(file.trail) <= file.trail
    ensures CrashContract(old(file.disk), file.trail, |old(file.trail)|, turn, old(file.bytes), id, prepared)
    ensures file.reliable ==> ok
    ensures ok ==>
              && AppendedTo(old(file.bytes), file.bytes, id, prepared) && Accepts(file.bytes, Some(id), false)
              && |old(file.trail)| < turn == |file.trail|
              && (Settled(old(file.disk), old(file.bytes), id) ==> Settled(file.disk, file.bytes, id))
    ensures !ok && !switched ==>
              && Unchanged(old(file.bytes), file.bytes, id)
              && (Settled(old(file.disk), old(file.bytes), id) ==> Settled(file.disk, file.bytes, id))
    ensures !ok && switched ==> file.disk.ops == [] || forall recs :: !AllDecode(file.disk, id, recs)
    ensures !ok && Accepts(file.bytes, Some(id), true) ==>
              || Unchanged(old(file.bytes), file.bytes, id)
              || AddedTo(old(file.bytes), file.bytes, id, prepared)
    ensures Plain(old(file.disk), id) ==>
              && Plain(file.disk, id)
              && forall j :: |old(file.trail)| <= j < |file.trail| ==> Plain(file.trail[j], id)
  {
    hide DecodeHeader, EntryAt, SlotHolds, Total, PayloadStart, GoodEntry, CrashSafe, NeverThird, Plain,
      Represents, DecodesTo, Missing, GoodRecs, EncodeHeader, Uncommitted, Replay, Sparing, NewHeaderInFlight,
      Table, Keys, AppendedTo, GoodHeader;
    ghost var p := PlanFor(file.bytes, id, prepared);
    PlanForIsValid(file.bytes, id, prepared);
    PlanFacts(p);
    SettledIff(p, file.disk, prepared);
    ok, turn, switched := CommitAppend(file, header, end, added, p);
    if ok {
      AppendDone(old(file.bytes), file.bytes, id, prepared);
    } else {
      RolledBackLeaves(p, old(file.disk), file.disk, file.bytes, prepared, switched);
    }
  }

  /** The file still holds the records it held. */
  ghost predicate Unchanged(before: seq<Byte>, after: seq<Byte>, id: ArchiveIdentity) {
    && Accepts(before, Some(id), true) && WellFormed(before, None)
    && Accepts(after, Some(id), true) && WellFormed(after, None)
    && RecordsOf(after) == RecordsOf(before)
  }

  /** The old records and the missing ones after them; a tail may be there. */
  ghost predicate AddedTo(before: seq<Byte>, after: seq<Byte>, id: ArchiveIdentity, prepared: seq<Rec>) {
    && Accepts(before, Some(id), true) && WellFormed(before, None)
    && Accepts(after, Some(id), true) && WellFormed(after, None)
    && RecordsOf(after) == RecordsOf(before) + Missing(prepared, Keys(RecordsOf(before)))
  }

  lemma RolledBackLeaves(
    p: Plan, before: Storage, disk: Storage, bytes: seq<Byte>, prepared: seq<Rec>, switched: bool)
    requires Accepts(p.file, Some(p.id), true) && WellFormed(p.file, None)
    requires p == PlanFor(p.file, p.id, prepared) && p.Valid() && bytes == Replay(disk.durable, disk.ops)
    requires !switched ==> Sparing(p, before, disk) && DecodesTo(bytes, p.id, p.prior)
    requires switched ==> NewHeaderInFlight(p, disk) || disk.ops == []
    requires Accepts(bytes, Some(p.id), true) ==>
               DecodesTo(bytes, p.id, p.prior) || DecodesTo(bytes, p.id, p.prior + p.added)
    ensures !switched ==>
              Unchanged(p.file, bytes, p.id) && (Settled(before, p.file, p.id) ==> Settled(disk, bytes, p.id))
    ensures switched ==> disk.ops == [] || forall recs :: !AllDecode(disk, p.id, recs)
    ensures Accepts(bytes, Some(p.id), true) ==>
              Unchanged(p.file, bytes, p.id) || AddedTo(p.file, bytes, p.id, prepared)
  {
    hide DecodeHeader, EntryAt, SlotHolds, Total, PayloadStart, GoodEntry, Represents, Missing, GoodRecs,
      Sparing, NewHeaderInFlight, Uncommitted, MayRemain, Replay, Plan.Valid;
    if !switched && Settled(before, p.file, p.id) {
      SettledIff(p, before, prepared);
      SparingUncommitted(p, before, disk);
      SettledIff(p, disk, prepared);
    }
    if switched && disk.ops != [] {
      forall recs ensures !AllDecode(disk, p.id, recs) {
        SwitchIsUnsettled(p, disk, recs);
      }
    }
  }

  /** A replacement survives a crash if and only if its flush was not skipped. */
  lemma NewFileIsSettledIff(disk: Storage, id: ArchiveIdentity)
    requires disk.ops == [] || disk.durable == []
    requires Accepts(Replay(disk.durable, disk.ops), Some(id), true)
    ensures Settled(disk, Replay(disk.durable, disk.ops), id) <==> disk.ops == []
    ensures disk.ops != [] ==> MayRemain(disk, [])
  {
    NewFileIsPlain(disk, id);
    SettledIffCalm(disk, id);
    WellFormedWeaken(Replay(disk.durable, disk.ops), Some(id));
    if disk.ops != [] {
      NoneRemains([], disk.ops);
    }
    hide RecordsOf, PayloadStart, GoodEntry, DecodeHeader, AllDecode, Settled, MayRemain;
  }

  lemma NewFileIsPlain(disk: Storage, id: ArchiveIdentity)
    requires disk.ops == [] || disk.durable == []
    ensures Plain(disk, id)
  {
    hide DecodesTo;
    if disk.ops == [] {
      FlushedIsPlain(disk.durable, id);
    } else if recs :| AllDecode(disk, id, recs) {
      NoneRemains([], disk.ops);
      DecodedIsAccepted([], id, recs);
      assert false;
    }
  }

  lemma SettledIff(p: Plan, disk: Storage, prepared: seq<Rec>)
    requires Accepts(p.file, Some(p.id), true) && WellFormed(p.file, None)
    requires p == PlanFor(p.file, p.id, prepared) && p.Valid()
    ensures Settled(disk, p.file, p.id) <==> Uncommitted(p, disk)
  {
    UncommittedIff(p, disk);
  }

  /** The bytes of every committed offset are known to be good. */
  method MarkCommitted(known: set<U32>, prepared: seq<Rec>) returns (valid: set<U32>)
    ensures valid == known + Keys(prepared)
  {
    valid := known;
    NothingYet(prepared, {});
    for i := 0 to |prepared|
      invariant valid == known + Keys(prepared[..i])
    {
      KeysStep(prepared, i, {});
      valid := valid + {prepared[i].off};
    }
    assert prepared[..|prepared|] == prepared;
  }

  lemma SplitGoodOne(recs: seq<Rec>)
    requires GoodRecs(recs)
    ensures forall i :: 0 <= i < |recs| ==> GoodRec(recs[i])
  {}

  lemma AppendDone(before: seq<Byte>, after: seq<Byte>, id: ArchiveIdentity, prepared: seq<Rec>)
    requires Accepts(before, Some(id), true) && WellFormed(before, None)
    requires DecodesTo(after, id, RecordsOf(before) + Missing(prepared, Keys(RecordsOf(before))))
    requires Accepts(after, Some(id), false)
    ensures AppendedTo(before, after, id, prepared)
  {}

  /** The read side of `AppendFile`: is an in-place append possible, and of what? */
  method ReadForAppend(file: CacheFile, work: Work, prepared: seq<Rec>, hash: Hash, around: Circumstances)
    returns (usable: bool, header: Header, end: nat, added: seq<Rec>, valid: set<U32>)
    requires GoodPending(work.pending) && prepared == Prepared(work.pending, hash) && GoodRecs(prepared)
    ensures usable <==>
              && !work.resetFile && around.opens && around.readable
              && |file.bytes| < SIZE_LIMIT
              && Accepts(file.bytes, Some(work.id), true) && WellFormed(file.bytes, None)
              && var prior := RecordsOf(file.bytes);
                 && (forall k, i :: 0 <= k < |work.pending| && 0 <= i < |prior|
                                    && prior[i].off == work.pending[k].off ==>
                       && |prior[i].data| == |work.pending[k].data|
                       && prior[i].checksum == hash(work.pending[k].data)
                       && hash(prior[i].data) == prior[i].checksum)
                 && |Missing(prepared, Keys(prior))| <= work.id.entryCount - |prior|
    ensures usable ==>
              forall k :: 0 <= k < |work.pending| && work.pending[k].off in Table(RecordsOf(file.bytes)) ==>
                && |Table(RecordsOf(file.bytes))[work.pending[k].off]| == |work.pending[k].data|
                && hash(Table(RecordsOf(file.bytes))[work.pending[k].off]) == hash(work.pending[k].data)
    ensures usable ==>
              && !work.resetFile
              && Accepts(file.bytes, Some(work.id), true) && WellFormed(file.bytes, None)
              && header == DecodeHeader(file.bytes) && end == ValidSize(file.bytes)
              && Compatible(prepared, RecordsOf(file.bytes), hash)
              && added == Missing(prepared, Keys(RecordsOf(file.bytes)))
              && |added| <= header.indexCapacity - header.entryCount
              && |file.bytes| < SIZE_LIMIT
              && valid == work.verifiedOffsets + (Keys(prepared) * Keys(RecordsOf(file.bytes)))
  {
    hide DecodeHeader, EntryAt, Total, PayloadStart, GoodEntry, Missing, GoodRecs, Compatible, RecordsOf,
      Prepared, GoodPending, Table, Keys;
    usable, header, end, added, valid :=
      false, FreshHeader(work.id, 0), 0, [], work.verifiedOffsets;
    MergeableIff(work, file.bytes, prepared, hash);
    if Accepts(file.bytes, Some(work.id), true) {
      WellFormedWeaken(file.bytes, Some(work.id));
    }
    if work.resetFile || !around.opens || !around.readable {
      return;
    }
    if |file.bytes| < HEADER_SIZE || |file.bytes| >= SIZE_LIMIT {
      return;
    }
    var validation := Validate(Some(file.bytes), Some(work.id), StructuralOnly, true, hash);
    if validation.error != NoError {
      return;
    }
    WellFormedWeaken(file.bytes, Some(work.id));
    var conflict;
    conflict, added, valid := Classify(file.bytes, prepared, hash, work.verifiedOffsets);
    if conflict {
      return;
    }
    header := validation.header.value;
    end := validation.validSize as int;
    usable := |added| <= header.indexCapacity - header.entryCount;
  }

  /** Startup: accepts a file with an uncommitted tail, cuts the tail if it can,
      and serves exactly the committed records either way. `opens` is that the file can be
      opened and mapped, `writable` that also for writing and locked, `maps` that it can be
      mapped again after the cut was tried. */
  method LoadCacheFile(
    file: CacheFile, id: ArchiveIdentity, hash: Hash, opens: bool, writable: bool, maps: bool)
    returns (ok: bool, index: map<U32, CachedEntry>, needsReplacement: bool)
    requires file.Valid()
    modifies file
    ensures file.Valid()
    ensures ok <==>
              && opens && |old(file.bytes)| < SIZE_LIMIT && Accepts(old(file.bytes), Some(id), true)
              && (maps || !writable || Accepts(old(file.bytes), Some(id), false))
    ensures ok && needsReplacement && writable ==> !file.reliable
    ensures ok && needsReplacement ==>
              file.bytes == old(file.bytes) && !Accepts(old(file.bytes), Some(id), false)
    ensures ok ==>
              && Accepts(old(file.bytes), Some(id), true) && WellFormed(old(file.bytes), None)
              && Accepts(file.bytes, Some(id), true) && WellFormed(file.bytes, None)
              && RecordsOf(file.bytes) == RecordsOf(old(file.bytes))
              && DecodeHeader(file.bytes) == DecodeHeader(old(file.bytes))
              && Serves(file.bytes, index, RecordsOf(old(file.bytes)))
              && (!needsReplacement <==> Accepts(file.bytes, Some(id), false))
              && forall k :: k in index ==> !index[k].verified
    ensures Accepts(old(file.bytes), Some(id), true) ==> Unchanged(old(file.bytes), file.bytes, id)
    ensures Settled(old(file.disk), old(file.bytes), id) ==> Settled(file.disk, file.bytes, id)
    ensures !Accepts(old(file.bytes), Some(id), true) ==> !ok && file.bytes == old(file.bytes)
    ensures old(file.trail) <= file.trail
    ensures Plain(old(file.disk), id) ==>
              && Plain(file.disk, id)
              && forall j :: |old(file.trail)| <= j < |file.trail| ==> Plain(file.trail[j], id)
  {
    hide DecodeHeader, EntryAt, Total, PayloadStart, GoodEntry, RecordsOf, GoodHeader, Resize, Serves, Indexed,
      Replay, Settled, Plain, AllDecode;
    ok, index, needsReplacement := false, map[], false;
    if Accepts(file.bytes, Some(id), true) {
      WellFormedWeaken(file.bytes, Some(id));
    }
    if |file.bytes| < HEADER_SIZE || |file.bytes| >= SIZE_LIMIT {
      return;
    }
    if !opens {
      return;
    }
    var validation := Validate(Some(file.bytes), Some(id), StructuralOnly, true, hash);
    if validation.error != NoError {
      return;
    }
    ghost var before := file.bytes;
    WellFormedWeaken(before, Some(id));
    var size := validation.validSize as int;
    needsReplacement := size != |file.bytes|;
    if needsReplacement && writable {
      var cut := RecoverTail(file, id, size);
      needsReplacement := !cut;
      if !maps {
        return;
      }
    }
    index := BuildLookup(file.bytes, {});
    FieldsOf(file.bytes);
    IndexedServes(file.bytes, index, {}, RecordsOf(file.bytes));
    ok := true;
  }

  /** Cuts the uncommitted tail and flushes; both may fail. */
  method RecoverTail(file: CacheFile, id: ArchiveIdentity, size: nat) returns (cut: bool)
    requires file.Valid() && |file.bytes| < SIZE_LIMIT
    requires Accepts(file.bytes, Some(id), true) && WellFormed(file.bytes, None) && size == ValidSize(file.bytes)
    modifies file
    ensures file.Valid() && old(file.trail) <= file.trail
    ensures Unchanged(old(file.bytes), file.bytes, id) && DecodeHeader(file.bytes) == DecodeHeader(old(file.bytes))
    ensures if cut then Accepts(file.bytes, Some(id), false) else file.bytes == old(file.bytes)
    ensures file.reliable ==> cut && file.disk == Storage(file.bytes, [])
    ensures Settled(old(file.disk), old(file.bytes), id) ==> Settled(file.disk, file.bytes, id)
    ensures Plain(old(file.disk), id) ==>
              && Plain(file.disk, id)
              && forall j :: |old(file.trail)| <= j < |file.trail| ==> Plain(file.trail[j], id)
  {
    hide DecodeHeader, EntryAt, Total, PayloadStart, GoodEntry, RecordsOf, GoodHeader, Resize, Replay, Settled,
      Plain, AllDecode;
    ghost var before, disk := file.bytes, file.disk;
    PrefixStable(before, Some(id));
    WellFormedWeaken(before[..size], Some(id));
    ResizeCuts(before, size);
    if Settled(disk, before, id) {
      CutKeepsSettled(disk, before, id);
    }
    if Plain(disk, id) {
      CutIsPlain(disk, before, id);
    }
    cut := file.Truncate(size);
    if cut {
      if Settled(file.disk, file.bytes, id) {
        FlushKeepsSettled(file.disk, file.bytes, id);
      }
      FlushedIsPlain(file.bytes, id);
      var _ := file.Flush();
    }
  }

  lemma CutIsPlain(disk: Storage, before: seq<Byte>, id: ArchiveIdentity)
    requires Accepts(before, Some(id), true) && WellFormed(before, None) && |before| < SIZE_LIMIT
    requires before == Replay(disk.durable, disk.ops) && Plain(disk, id)
    ensures Plain(CutTail(disk, ValidSize(before)), id)
  {
    hide DecodeHeader, EntryAt, SlotHolds, Total, PayloadStart, GoodEntry, Represents, DecodesTo,
      EncodeHeader, Plan.Valid, Sparing, Replay, Plain;
    WellFormedRepresents(before, Some(id));
    PlanForIsValid(before, id, []);
    var p := PlanFor(before, id, []);
    OldIsKept(p);
    CutSpares(p, disk, CutTail(disk, p.End()));
    SparingIsPlain(p, disk, CutTail(disk, p.End()));
  }

  lemma ResizeCuts(b: seq<Byte>, n: nat)
    requires n <= |b|
    ensures Resize(b, n) == b[..n]
  {}
}
