/** The file operations of one flush: `MapCommittedFile`, `WriteFreshFile`,
    `AppendFile`, and `LoadCacheFile` (Skyrim/src/DecompCache.cpp). */
module CacheFlush {
  import opened Basics
  import opened ByteCodec
  import opened CacheFormat
  import opened CacheDisk
  import opened CacheAppend
  import opened CacheCommit
  import opened CacheCalm
  import opened CacheWriter
  import opened Validator

  // ------------------------------------------------------------ the mapping

  /** The index serves exactly `recs`: same offsets, and each one's bytes. */
  ghost predicate Serves(b: seq<Byte>, index: map<U32, CachedEntry>, recs: seq<Rec>) {
    && index.Keys == Table(recs).Keys
    && forall k :: k in index ==>
         && index[k].at + index[k].size <= |b|
         && k in Table(recs)
         && b[index[k].at..index[k].at + index[k].size] == Table(recs)[k]
  }

  /** `index` lists the first `n` slots of `b`. */
  ghost predicate Indexed(b: seq<Byte>, index: map<U32, CachedEntry>, n: nat, valid: set<U32>)
    requires InIndex(b, n)
  {
    && (forall i :: 0 <= i < n ==>
          && EntryAt(b, i).startOffset in index
          && index[EntryAt(b, i).startOffset]
             == CachedEntry(EntryAt(b, i).cacheOffset, EntryAt(b, i).decompSize,
                            EntryAt(b, i).checksum, EntryAt(b, i).startOffset in valid))
    && (forall k :: k in index ==> exists i :: 0 <= i < n && EntryAt(b, i).startOffset == k)
  }

  method BuildLookup(b: seq<Byte>, valid: set<U32>) returns (index: map<U32, CachedEntry>)
    requires WellFormed(b, None)
    ensures InIndex(b, DecodeHeader(b).entryCount)
    ensures Indexed(b, index, DecodeHeader(b).entryCount, valid)
  {
    hide EntryAt, DecodeHeader, GoodEntry;
    index := map[];
    var n := DecodeHeader(b).entryCount;
    for i := 0 to n
      invariant InIndex(b, i) && Indexed(b, index, i, valid)
    {
      var e := EntryAt(b, i);
      forall j | 0 <= j < i ensures EntryAt(b, j).startOffset != e.startOffset {}
      index := index[e.startOffset :=
        CachedEntry(e.cacheOffset, e.decompSize, e.checksum, e.startOffset in valid)];
    }
  }

  /** The index slots of `b`, field by field, are `recs`. */
  ghost predicate Fields(b: seq<Byte>, recs: seq<Rec>) {
    && InIndex(b, |recs|)
    && forall i :: 0 <= i < |recs| ==>
         && EntryAt(b, i).startOffset == recs[i].off
         && EntryAt(b, i).decompSize == |recs[i].data|
         && EntryAt(b, i).checksum == recs[i].checksum
         && EntryAt(b, i).cacheOffset + |recs[i].data| <= |b|
         && b[EntryAt(b, i).cacheOffset..EntryAt(b, i).cacheOffset + |recs[i].data|] == recs[i].data
  }

  lemma FieldsOf(b: seq<Byte>)
    requires WellFormed(b, None)
    ensures Fields(b, RecordsOf(b)) && GoodRecs(RecordsOf(b))
    ensures |RecordsOf(b)| == DecodeHeader(b).entryCount
  {
    hide EntryAt, DecodeHeader, Total, PayloadStart;
    WellFormedRepresents(b, None);
    var recs := RecordsOf(b);
    assert InIndex(b, |recs|);
    forall i | 0 <= i < |recs|
      ensures EntryAt(b, i).startOffset == recs[i].off
      ensures EntryAt(b, i).decompSize == |recs[i].data|
      ensures EntryAt(b, i).checksum == recs[i].checksum
      ensures EntryAt(b, i).cacheOffset + |recs[i].data| <= |b|
      ensures b[EntryAt(b, i).cacheOffset..EntryAt(b, i).cacheOffset + |recs[i].data|] == recs[i].data
    {
      assert SlotHolds(b, DecodeHeader(b).indexCapacity, recs, i);
    }
  }

  lemma IndexedServes(b: seq<Byte>, index: map<U32, CachedEntry>, valid: set<U32>, recs: seq<Rec>)
    requires Fields(b, recs) && GoodRecs(recs) && Indexed(b, index, |recs|, valid)
    ensures Serves(b, index, recs)
    ensures forall k :: k in index ==> (index[k].verified <==> k in valid)
  {
    hide EntryAt, DecodeHeader, Total, Table;
    forall k ensures k in index <==> k in Table(recs) {
      TableKeys(recs, k);
    }
    forall k | k in index
      ensures index[k].at + index[k].size <= |b| && k in Table(recs)
      ensures b[index[k].at..index[k].at + index[k].size] == Table(recs)[k]
      ensures index[k].verified <==> k in valid
    {
      var i :| 0 <= i < |recs| && EntryAt(b, i).startOffset == k;
      TableLookup(recs, i);
    }
  }

  /** Opens, strictly validates and indexes the file. */
  method MapCommittedFile(file: CacheFile, id: ArchiveIdentity, valid: set<U32>, hash: Hash, maps: bool)
    returns (result: MapResult)
    ensures result.ok <==> maps && |file.bytes| < SIZE_LIMIT && Accepts(file.bytes, Some(id), false)
    ensures result.ok ==>
              && Accepts(file.bytes, Some(id), false) && WellFormed(file.bytes, None)
              && Serves(file.bytes, result.index, RecordsOf(file.bytes))
              && result.fileSize == |file.bytes|
              && forall k :: k in result.index ==> (result.index[k].verified <==> k in valid)
  {
    if !maps {
      return FAILURE;
    }
    if |file.bytes| < HEADER_SIZE || |file.bytes| >= SIZE_LIMIT {
      return FAILURE;
    }
    var validation := Validate(Some(file.bytes), Some(id), StructuralOnly, false, hash);
    if validation.error != NoError {
      return FAILURE;
    }
    WellFormedWeaken(file.bytes, Some(id));
    var index := BuildLookup(file.bytes, valid);
    FieldsOf(file.bytes);
    IndexedServes(file.bytes, index, valid, RecordsOf(file.bytes));
    return MapResult(true, index, |file.bytes|);
  }

  // --------------------------------------------------- sorting out the pending

  /** Splits the pending records into missing ones and ones already on disk. */
  method Classify(b: seq<Byte>, prepared: seq<Rec>, hash: Hash, verified: set<U32>)
    returns (conflict: bool, added: seq<Rec>, valid: set<U32>)
    requires WellFormed(b, None)
    ensures !conflict <==>
              forall k, i :: 0 <= k < |prepared| && 0 <= i < |RecordsOf(b)|
                             && RecordsOf(b)[i].off == prepared[k].off ==>
                && |RecordsOf(b)[i].data| == |prepared[k].data|
                && RecordsOf(b)[i].checksum == prepared[k].checksum
                && hash(RecordsOf(b)[i].data) == RecordsOf(b)[i].checksum
    ensures conflict <==> !Compatible(prepared, RecordsOf(b), hash)
    ensures !conflict ==> added == Missing(prepared, Keys(RecordsOf(b)))
    ensures !conflict ==> valid == verified + (Keys(prepared) * Keys(RecordsOf(b)))
  {
    hide EntryAt, DecodeHeader, GoodEntry, Total, Table, RecordsOf, AlreadyThere, Fields, Indexed, Missing,
      Keys;
    var existing := BuildLookup(b, {});
    ghost var recs := RecordsOf(b);
    FieldsOf(b);
    IndexedKeys(b, existing, recs);
    CompatibleIff(prepared, recs, hash);
    conflict, added, valid := false, [], verified;
    NothingYet(prepared, Keys(recs));
    for i := 0 to |prepared|
      invariant !conflict
      invariant added == Missing(prepared[..i], Keys(recs))
      invariant forall j :: 0 <= j < i && prepared[j].off in Keys(recs) ==>
                  AlreadyThere(prepared[j], recs, hash)
      invariant valid == verified + (Keys(prepared[..i]) * Keys(recs))
    {
      var r := prepared[i];
      KeysStep(prepared, i, Keys(recs));
      if r.off !in existing {
        added := added + [r];
      } else {
        var found := Found(b, existing, r, hash, recs);
        if !found {
          conflict := true;
          return;
        }
        valid := valid + {r.off};
      }
    }
    assert prepared[..|prepared|] == prepared;
  }

  /** The payload of `r` is on disk already: not only its metadata matches. */
  method Found(b: seq<Byte>, index: map<U32, CachedEntry>, r: Rec, hash: Hash, ghost recs: seq<Rec>)
    returns (found: bool)
    requires Fields(b, recs) && GoodRecs(recs) && Indexed(b, index, |recs|, {}) && r.off in index
    ensures found <==> AlreadyThere(r, recs, hash)
  {
    hide *;
    MatchesIndex(b, index, r, hash, recs);
    var e := index[r.off];
    found := e.size == |r.data| && e.checksum == r.checksum && hash(b[e.at..e.at + e.size]) == e.checksum;
  }

  lemma IndexedKeys(b: seq<Byte>, index: map<U32, CachedEntry>, recs: seq<Rec>)
    requires Fields(b, recs) && GoodRecs(recs) && Indexed(b, index, |recs|, {})
    ensures index.Keys == Keys(recs)
  {
    hide Fields, Indexed, Table;
    IndexedServes(b, index, {}, recs);
  }

  lemma NothingYet(recs: seq<Rec>, keys: set<U32>)
    ensures Keys(recs[..0]) == {} && Keys(recs[..0]) * keys == {} && Missing(recs[..0], keys) == []
  {}

  lemma KeysStep(recs: seq<Rec>, i: nat, keys: set<U32>)
    requires i < |recs|
    ensures Keys(recs[..i + 1]) == Keys(recs[..i]) + {recs[i].off}
    ensures Keys(recs[..i + 1]) * keys
            == (Keys(recs[..i]) * keys) + if recs[i].off in keys then {recs[i].off} else {}
    ensures Missing(recs[..i + 1], keys)
            == Missing(recs[..i], keys) + if recs[i].off in keys then [] else [recs[i]]
  {
    assert recs[..i + 1][..i] == recs[..i];
  }

  lemma MatchesIndex(
    b: seq<Byte>, index: map<U32, CachedEntry>, r: Rec, hash: Hash, recs: seq<Rec>)
    requires Fields(b, recs) && GoodRecs(recs) && Indexed(b, index, |recs|, {}) && r.off in index
    ensures var e := index[r.off];
            && e.at + e.size <= |b|
            && (AlreadyThere(r, recs, hash) <==>
                e.size == |r.data| && e.checksum == r.checksum
                && hash(b[e.at..e.at + e.size]) == e.checksum)
  {
    hide EntryAt, DecodeHeader, Total;
    var i :| 0 <= i < |recs| && EntryAt(b, i).startOffset == r.off;
    if AlreadyThere(r, recs, hash) {
      var j :| 0 <= j < |recs| && Same(r, recs[j], hash);
      assert i == j;
    } else {
      assert !Same(r, recs[i], hash);
    }
  }

  // ---------------------------------------------------------- append in place

  /** The crash-critical part of `AppendFile`. `turn` is where the rollback begins. Up
      to there every crash image is accepted with the old or with all entries, exactly
      if every crash image of the file the append found had the old ones. `switched` is
      that the new header was in flight then; only that can leave a plain file with crash
      images that differ. */
  method CommitAppend(
    file: CacheFile, header: Header, end: nat, added: seq<Rec>, ghost p: Plan)
    returns (ok: bool, ghost turn: nat, ghost switched: bool)
    requires p.Valid() && p.header == header && p.End() == end && p.added == added
    requires |header.magic| == 4 && header.entryCount + |added| < TWO32
    requires file.Valid() && file.bytes == p.file
    modifies file
    ensures file.Valid() && old(file.trail) <= file.trail
    ensures |old(file.trail)| <= turn <= |file.trail|
    ensures |old(file.trail)| < turn ==>
              (Uncommitted(p, old(file.disk)) <==>
                forall j :: |old(file.trail)| <= j < turn ==>
                  CrashSafe(file.trail[j], p.id, p.prior, p.prior + added))
    ensures Uncommitted(p, old(file.disk)) ==>
              forall j :: turn <= j < |file.trail| ==>
                NeverThird(file.trail[j], p.id, p.prior, p.prior + added)
    ensures file.reliable ==> ok
    ensures ok ==> |old(file.trail)| < turn == |file.trail|
    ensures ok && Uncommitted(p, old(file.disk)) ==>
              forall c :: MayRemain(file.disk, c) ==> DecodesTo(c, p.id, p.prior + added)
    ensures ok ==> DecodesTo(file.bytes, p.id, p.prior + added)
                   && Accepts(file.bytes, Some(p.id), false)
    ensures ok && added != [] ==> file.disk == Storage(file.bytes, [])
    ensures switched <==> !ok && |old(file.trail)| < turn && NewHeaderInFlight(p, file.trail[turn - 1])
                          && !Sparing(p, old(file.disk), file.trail[turn - 1])
    ensures !ok && !switched ==> Sparing(p, old(file.disk), file.disk) && DecodesTo(file.bytes, p.id, p.prior)
    ensures switched ==> NewHeaderInFlight(p, file.disk) || file.disk.ops == []
    ensures !ok && Accepts(file.bytes, Some(p.id), true) ==>
              DecodesTo(file.bytes, p.id, p.prior) || DecodesTo(file.bytes, p.id, p.prior + added)
    ensures Plain(old(file.disk), p.id) ==>
              forall j :: |old(file.trail)| <= j < |file.trail| ==> Plain(file.trail[j], p.id)
  {
    hide Replay, Uncommitted, Switching, Staged, CrashSafe, NeverThird, DecodesTo, Plan.Valid, Accepts,
      Sparing, Rolled, NewHeaderInFlight, HeaderOnly, Plain, KeepsOld;
    OldIsKept(p);
    ghost var before, from := file.disk, |file.trail|;
    ghost var staged, d;
    ok, staged, d := StageAndSwitch(file, header, end, added, p);
    turn := |file.trail|;
    ghost var turned := file.disk;
    switched := !ok && !Sparing(p, before, turned);
    if !ok {
      label undo:
      Rollback(file, header, end, p);
      assert forall j :: 0 <= j < turn ==> file.trail[j] == old@undo(file.trail)[j];
      RolledIsPlain(p, before, turned, file.disk);
      RolledVisible(p, before, turned, file.disk);
    }
    TrailIsPlain(p, before, file.trail, from, staged, turn, d, turned);
  }

  /** The append up to where it is durable or must be undone. `staged` is where the header
      switch begins, over the bytes `d`. */
  method StageAndSwitch(
    file: CacheFile, header: Header, end: nat, added: seq<Rec>, ghost p: Plan)
    returns (ok: bool, ghost staged: nat, ghost d: seq<Byte>)
    requires p.Valid() && p.header == header && p.End() == end && p.added == added
    requires |header.magic| == 4 && header.entryCount + |added| < TWO32
    requires file.Valid() && file.bytes == p.file
    modifies file
    ensures file.Valid() && old(file.trail) <= file.trail && |old(file.trail)| <= staged <= |file.trail|
    ensures |old(file.trail)| < |file.trail| ==>
              (Uncommitted(p, old(file.disk)) <==>
                forall j :: |old(file.trail)| <= j < |file.trail| ==>
                  CrashSafe(file.trail[j], p.id, p.prior, p.prior + added))
    ensures forall j :: |old(file.trail)| <= j < staged ==> Sparing(p, old(file.disk), file.trail[j])
    ensures forall j :: staged <= j < |file.trail| ==> HeaderOnly(p, d, file.trail[j])
    ensures ok ==>
              && |old(file.trail)| < |file.trail|
              && DecodesTo(file.bytes, p.id, p.prior + added) && Accepts(file.bytes, Some(p.id), false)
              && (added != [] ==> file.disk == Storage(file.bytes, []))
    ensures ok && Uncommitted(p, old(file.disk)) ==>
              forall c :: MayRemain(file.disk, c) ==> DecodesTo(c, p.id, p.prior + added)
    ensures !ok ==>
              && (Sparing(p, old(file.disk), file.disk) || NewHeaderInFlight(p, file.disk))
              && (Uncommitted(p, old(file.disk)) ==> Uncommitted(p, file.disk) || Switching(p, file.disk))
    ensures !ok && !Sparing(p, old(file.disk), file.disk) ==> |old(file.trail)| < |file.trail|
    ensures file.reliable ==> ok
  {
    hide Replay, Uncommitted, Switching, Staged, CrashSafe, NeverThird, DecodesTo, Plan.Valid, Accepts,
      Sparing, NewHeaderInFlight, HeaderOnly, KeepsOld;
    PlanFacts(p);
    OldIsKept(p);
    ghost var before := file.disk;
    ok := StageAll(file, header, end, added, p);
    staged, d := |file.trail|, file.bytes;
    UncommittedIff(p, file.disk);
    StagedTurn(p, before, file.disk);
    if ok && added != [] {
      label commit:
      ok := SwitchHeader(file, header, |added|, p);
      assert forall j :: 0 <= j < |old@commit(file.trail)| ==>
          file.trail[j] == old@commit(file.trail)[j];
      if !ok {
        SwitchTurn(p, before, d, file.disk);
      }
    } else if ok {
      assert p.prior + added == p.prior;
    }
  }

  /** Staging, header switch and rollback, one after the other. */
  lemma TrailIsPlain(
    p: Plan, before: Storage, trail: seq<Storage>, from: nat, staged: nat, turn: nat, d: seq<Byte>, turned: Storage)
    requires p.Valid() && KeepsOld(p, Replay(before.durable, before.ops)) && from <= staged <= turn <= |trail|
    requires forall j :: from <= j < staged ==> Sparing(p, before, trail[j])
    requires forall j :: staged <= j < turn ==> HeaderOnly(p, d, trail[j])
    requires forall j :: turn <= j < |trail| ==> Rolled(p, turned, trail[j])
    requires turn < |trail| ==> Sparing(p, before, turned) || NewHeaderInFlight(p, turned)
    ensures Plain(before, p.id) ==> forall j :: from <= j < |trail| ==> Plain(trail[j], p.id)
  {
    hide KeepsOld, Replay, Plan.Valid, Sparing, HeaderOnly, Rolled, NewHeaderInFlight, Plain;
    forall j | from <= j < |trail| && Plain(before, p.id) ensures Plain(trail[j], p.id) {
      if j < staged {
        SparingIsPlain(p, before, trail[j]);
      } else if j < turn {
        HeaderOnlyIsPlain(p, d, trail[j]);
      } else {
        RolledIsPlain(p, before, turned, trail[j]);
      }
    }
  }

  /** Where a failed staging leaves the file, seen from the rollback. */
  lemma StagedTurn(p: Plan, before: Storage, s: Storage)
    requires p.Valid() && Sparing(p, before, s) && KeepsOld(p, Replay(before.durable, before.ops))
    ensures Uncommitted(p, before) ==> Uncommitted(p, s)
  {
    hide Plan.Valid, Uncommitted, Sparing, KeepsOld;
    if Uncommitted(p, before) {
      SparingUncommitted(p, before, s);
    }
  }

  /** Where a failed header switch leaves it. */
  lemma SwitchTurn(p: Plan, before: Storage, d: seq<Byte>, s: Storage)
    requires p.Valid() && Switching(p, s) && HeaderOnly(p, d, s)
    ensures Sparing(p, before, s) || NewHeaderInFlight(p, s)
  {
    hide Plan.Valid;
    PlanFacts(p);
    if s.ops == [] {
      StagedKeeps(p, s.durable);
    }
  }

  /** Everything before the header: tail, payloads, index. */
  method StageAll(
    file: CacheFile, header: Header, end: nat, added: seq<Rec>, ghost p: Plan)
    returns (ok: bool)
    requires p.Valid() && p.header == header && p.End() == end && p.added == added
    requires |header.magic| == 4
    requires file.Valid() && file.bytes == p.file
    modifies file
    ensures file.Valid() && old(file.trail) <= file.trail
    ensures |old(file.trail)| < |file.trail| ==>
              (Uncommitted(p, old(file.disk)) <==>
                forall j :: |old(file.trail)| <= j < |file.trail| ==>
                  CrashSafe(file.trail[j], p.id, p.prior, p.prior + added))
    ensures Sparing(p, old(file.disk), file.disk)
    ensures forall j :: |old(file.trail)| <= j < |file.trail| ==> Sparing(p, old(file.disk), file.trail[j])
    ensures file.reliable ==> ok
    ensures ok ==> |old(file.trail)| < |file.trail|
    ensures ok && added != [] ==> Staged(p, file.bytes) && file.disk == Storage(file.bytes, [])
    ensures ok && added == [] ==> DecodesTo(file.bytes, p.id, p.prior)
                                  && Accepts(file.bytes, Some(p.id), false)
  {
    hide Replay, Uncommitted, Sparing, Staged, CrashSafe, DecodesTo, PayloadsIn, Plan.Valid, Accepts, KeepsOld;
    PlanFacts(p);
    ghost var before, from := file.disk, |file.trail|;
    var entries;
    ok, entries := StageTail(file, end, added, p);
    ghost var disk, trail := file.disk, file.trail;
    if ok && added != [] {
      ok := WriteIndex(file, header.entryCount, entries, p);
      SparingTrail(p, before, disk, trail, file.trail, from);
      SparingJoins(p, before, disk, file.disk);
    } else if ok {
      TruncatedDecodes(p, file.bytes);
    }
    if from < |file.trail| && CrashSafe(file.trail[from], p.id, p.prior, p.prior + added) {
      CutNeedsUncommitted(p, before);
    }
    forall j | from <= j < |file.trail| && Uncommitted(p, before)
      ensures CrashSafe(file.trail[j], p.id, p.prior, p.prior + added)
    {
      SparingUncommitted(p, before, file.trail[j]);
      UncommittedIsSafe(p, file.trail[j]);
    }
  }

  /** Nothing to add: cutting the tail leaves a strictly valid file. */
  lemma TruncatedDecodes(p: Plan, b: seq<Byte>)
    requires p.Valid() && |p.header.magic| == 4 && p.Kept().Intact(p.file, b) && |b| == p.End()
    ensures DecodesTo(b, p.id, p.prior) && Accepts(b, Some(p.id), false)
  {
    hide EntryAt, EncodeHeader, DecodeHeader;
    PlanFacts(p);
    RepresentsFrame(p.file, b, p.header, p.prior);
    RepresentsWellFormed(b, p.header, p.prior, Some(p.id));
  }

  lemma TailCut(p: Plan, b: seq<Byte>)
    requires p.Valid() && b == Resize(p.file, p.End())
    ensures PayloadsIn(p, b, 0)
  {
    assert p.added[..0] == [];
  }

  lemma OldIsKept(p: Plan)
    requires p.Valid()
    ensures KeepsOld(p, p.file) && KeepsOld(p, Resize(p.file, p.End()))
  {
    PlanFacts(p);
    KeepsOldStep(p, p.file, SetLength(p.End()));
  }

  lemma CutSpares(p: Plan, before: Storage, s: Storage)
    requires p.Valid() && (s == before || s == CutTail(before, p.End()))
    ensures Sparing(p, before, s)
  {
    hide Plan.Valid;
    PlanFacts(p);
  }

  /** Truncate the uncommitted tail, write the payloads, flush. The flush is
      skipped if a load was signalled just before it; the next one covers it. */
  method StageTail(file: CacheFile, end: nat, added: seq<Rec>, ghost p: Plan)
    returns (ok: bool, entries: seq<Entry>)
    requires p.Valid() && p.End() == end && p.added == added && |p.header.magic| == 4
    requires file.Valid() && file.bytes == p.file
    modifies file
    ensures file.Valid() && old(file.trail) <= file.trail
    ensures Sparing(p, old(file.disk), file.disk)
    ensures forall j :: |old(file.trail)| <= j < |file.trail| ==> Sparing(p, old(file.disk), file.trail[j])
    ensures forall k :: 0 <= k < |added| ==> GoodRec(added[k])
    ensures |entries| == |added|
    ensures forall i :: 0 <= i < |entries| ==> entries[i] == p.EntryFor(i)
    ensures |old(file.trail)| < |file.trail| ==>
              file.trail[|old(file.trail)|] == CutTail(old(file.disk), end)
    ensures file.reliable ==> ok
    ensures ok ==> |old(file.trail)| < |file.trail|
    ensures ok ==> KeepsOld(p, file.bytes) && PayloadsIn(p, file.bytes, |added|)
    ensures ok && added == [] ==> p.Kept().Intact(p.file, file.bytes) && |file.bytes| == end
  {
    hide Replay, Sparing, PayloadsIn, Plan.Valid;
    PlanFacts(p);
    OldIsKept(p);
    ghost var before, from := file.disk, |file.trail|;
    ok := file.Truncate(end);
    CutSpares(p, before, file.disk);
    entries := BuildIndex(end, added, p);
    if ok {
      TailCut(p, file.bytes);
      ghost var disk, trail := file.disk, file.trail;
      ok := WritePayloads(file, end, added, p);
      SparingTrail(p, before, disk, trail, file.trail, from);
      SparingJoins(p, before, disk, file.disk);
    }
    if ok {
      var cancelled: bool := *;
      if cancelled && !file.reliable {
        // the flush is skipped
      } else {
        SparingFlushed(p, before, file.disk);
        ok := file.Flush();
      }
    }
    if ok {
      EmptyTail(p, file.bytes);
    }
  }

  lemma EmptyTail(p: Plan, b: seq<Byte>)
    requires p.Valid() && PayloadsIn(p, b, |p.added|)
    ensures p.added == [] ==> |b| == p.End()
  {}
}
