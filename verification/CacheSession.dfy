/** One cache file over any sequence of loads and appends: when it is safe to append to, and
    what it serves (LoadCacheFile and AppendFile in Skyrim/src/DecompCache.cpp). */
module CacheSession {
  import opened Basics
  import opened ByteCodec
  import opened CacheFormat
  import opened CacheDisk
  import opened CacheAppend
  import opened CacheCalm
  import opened CacheWriter
  import opened CacheFlush
  import opened CacheStore

  datatype Call =
    | Load(opens: bool, writable: bool, maps: bool)
    | Append(work: Work, around: Circumstances)

  // ------------------------------------------------------- what payloads are

  /** The payload of every entry of the archive, by its offset. */
  type Payloads = map<U32, seq<Byte>>

  ghost predicate Truthful(recs: seq<Rec>, truth: Payloads) {
    forall i :: 0 <= i < |recs| ==> recs[i].off in truth && recs[i].data == truth[recs[i].off]
  }

  /** If the validator accepts the file, it holds payloads of the archive. */
  ghost predicate TruthfulFile(b: seq<Byte>, id: ArchiveIdentity, truth: Payloads) {
    Accepts(b, Some(id), true) && WellFormed(b, None) ==> Truthful(RecordsOf(b), truth)
  }

  ghost predicate TruthfulPending(pending: seq<Pending>, truth: Payloads) {
    forall i :: 0 <= i < |pending| ==> pending[i].off in truth && pending[i].data == truth[pending[i].off]
  }

  /** Every entry of the index leads to its payload. */
  ghost predicate Delivers(b: seq<Byte>, index: map<U32, CachedEntry>, truth: Payloads) {
    forall k :: k in index ==>
      && k in truth && index[k].at + index[k].size <= |b|
      && b[index[k].at..index[k].at + index[k].size] == truth[k]
  }

  lemma {:induction false} TableIsTruthful(recs: seq<Rec>, truth: Payloads)
    requires Truthful(recs, truth)
    ensures forall k :: k in Table(recs) ==> k in truth && Table(recs)[k] == truth[k]
  {
    if recs != [] {
      TableIsTruthful(recs[..|recs| - 1], truth);
    }
  }

  lemma ServedIsTruthful(b: seq<Byte>, index: map<U32, CachedEntry>, recs: seq<Rec>, truth: Payloads)
    requires Serves(b, index, recs) && Truthful(recs, truth)
    ensures Delivers(b, index, truth)
  {
    TableIsTruthful(recs, truth);
  }

  lemma MissingIsTruthful(prepared: seq<Rec>, prior: seq<Rec>, truth: Payloads)
    requires Truthful(prepared, truth) && Truthful(prior, truth)
    ensures Truthful(prior + Missing(prepared, Keys(prior)), truth)
  {
    var added := Missing(prepared, Keys(prior));
    forall i | 0 <= i < |added| ensures added[i].off in truth && added[i].data == truth[added[i].off] {
      MissingFrom(prepared, Keys(prior), added[i]);
      assert added[i] in added;
    }
  }

  lemma PreparedIsTruthful(pending: seq<Pending>, hash: Hash, truth: Payloads)
    requires TruthfulPending(pending, truth)
    ensures Truthful(Prepared(pending, hash), truth)
  {
  }

  // ------------------------------------------------------------- one append

  /** What was pending is in the table that is served afterwards. */
  lemma AppendedIsServed(pending: seq<Pending>, hash: Hash, prior: seq<Rec>, after: seq<Rec>, b: seq<Byte>,
                         index: map<U32, CachedEntry>)
    requires GoodPending(pending) && Serves(b, index, after)
    requires after == Prepared(pending, hash) || after == prior + Missing(Prepared(pending, hash), Keys(prior))
    ensures forall p <- pending :: p.off in index
  {
    var prepared := Prepared(pending, hash);
    var added := Missing(prepared, Keys(prior));
    TableConcat(prior, added);
    MissingAdds(prepared, Keys(prior));
    forall k | 0 <= k < |pending| ensures pending[k].off in Keys(prepared) {
      assert prepared[k].off == pending[k].off;
      TableKeys(prepared, pending[k].off);
    }
  }

  /** An append of payloads of the archive: the file keeps holding nothing else, and a
      mapped result leads to them. */
  method AppendPayloads(file: CacheFile, work: Work, hash: Hash, around: Circumstances, ghost truth: Payloads)
    returns (result: MapResult)
    requires file.Valid() && GoodPending(work.pending) && TruthfulPending(work.pending, truth)
    requires TruthfulFile(file.bytes, work.id, truth)
    modifies file
    ensures file.Valid() && old(file.trail) <= file.trail
    ensures Plain(old(file.disk), work.id) ==>
              && Plain(file.disk, work.id)
              && forall j :: |old(file.trail)| <= j < |file.trail| ==> Plain(file.trail[j], work.id)
    ensures TruthfulFile(file.bytes, work.id, truth)
    ensures result.ok ==> Delivers(file.bytes, result.index, truth)
    ensures result.ok ==> forall p <- work.pending :: p.off in result.index
    ensures file.reliable && |work.pending| <= around.cancelAfter
            && (work.resetFile || !around.opens || !around.locked) && around.mayReplace && around.maps
            && 0 < |work.pending| <= work.id.entryCount <= 1_000_000 ==>
              result.ok
  {
    hide DecodeHeader, EntryAt, SlotHolds, Total, PayloadStart, GoodEntry, Plain, RecordsOf, GoodEntry, IndexFits,
      Missing, Prepared, Truthful, Serves, Delivers, CrashContract, Settled, AllDecode, DistinctOffsets;
    ghost var before, prepared := file.bytes, Prepared(work.pending, hash);
    PreparedIsTruthful(work.pending, hash, truth);
    ghost var outcome, turn, switched, flushed;
    result, outcome, turn, switched, flushed := AppendFile(file, work, hash, around);
    if outcome.Appended? || outcome.RolledBack? {
      if Accepts(before, Some(work.id), true) && WellFormed(before, None) {
        MissingIsTruthful(prepared, RecordsOf(before), truth);
      }
    }
    if result.ok {
      if outcome.Appended? {
        AppendedIsServed(work.pending, hash, RecordsOf(before), RecordsOf(file.bytes), file.bytes, result.index);
      } else {
        AppendedIsServed(work.pending, hash, [], prepared, file.bytes, result.index);
      }
      ServedIsTruthful(file.bytes, result.index, if outcome.Appended? then RecordsOf(file.bytes) else prepared, truth);
    }
  }

  // ----------------------------------------------------- any sequence of calls

  /** From any file whose durability is plain, in particular one just flushed or found after
      a crash, over any loads and appends, whatever fails on the way: at every moment the
      crash images agree only if the disk is calm; at the end they all decode to the visible
      records if and only if it is calm; and the file never holds, nor the last call serves,
      anything but payloads of the archive. */
  method Session(file: CacheFile, id: ArchiveIdentity, calls: seq<Call>, hash: Hash, ghost truth: Payloads)
    returns (index: map<U32, CachedEntry>)
    requires file.Valid() && Plain(file.disk, id) && TruthfulFile(file.bytes, id, truth)
    requires forall k :: 0 <= k < |calls| && calls[k].Append? ==>
               && calls[k].work.id == id && GoodPending(calls[k].work.pending)
               && TruthfulPending(calls[k].work.pending, truth)
    modifies file
    ensures file.Valid() && old(file.trail) <= file.trail
    ensures forall j :: |old(file.trail)| <= j < |file.trail| ==> Plain(file.trail[j], id)
    ensures Settled(file.disk, file.bytes, id) <==> Calm(file.disk, id)
    ensures TruthfulFile(file.bytes, id, truth) && Delivers(file.bytes, index, truth)
  {
    hide Plain, Settled, Calm, TruthfulFile, Delivers, TruthfulPending, GoodPending, Truthful;
    index := Nothing(file.bytes, truth);
    for k := 0 to |calls|
      invariant file.Valid() && old(file.trail) <= file.trail && Plain(file.disk, id)
      invariant forall j :: |old(file.trail)| <= j < |file.trail| ==> Plain(file.trail[j], id)
      invariant TruthfulFile(file.bytes, id, truth) && Delivers(file.bytes, index, truth)
    {
      ghost var trail := file.trail;
      match calls[k] {
        case Load(opens, writable, maps) =>
          index := LoadPayloads(file, id, hash, opens, writable, maps, truth);
        case Append(work, around) =>
          var result := AppendPayloads(file, work, hash, around, truth);
          index := Nothing(file.bytes, truth);
          if result.ok {
            index := result.index;
          }
      }
      assert forall j :: 0 <= j < |trail| ==> file.trail[j] == trail[j];
    }
    SettledIffCalm(file.disk, id);
  }

  /** A crash on a calm disk leaves a file from which the next session can start, with the
      same payloads. */
  lemma CrashOnCalm(disk: Storage, b: seq<Byte>, id: ArchiveIdentity, truth: Payloads, c: seq<Byte>)
    requires b == Replay(disk.durable, disk.ops) && Plain(disk, id) && Calm(disk, id)
    requires TruthfulFile(b, id, truth) && MayRemain(disk, c)
    ensures Accepts(c, Some(id), true) && TruthfulFile(c, id, truth) && Plain(Storage(c, []), id)
  {
    hide Calm, RecordsOf, Plain, Truthful, MayRemain, Replay;
    SettledIffCalm(disk, id);
    FlushedIsPlain(c, id);
    DecodedIsAccepted(c, id, RecordsOf(b));
  }

  method Nothing(b: seq<Byte>, ghost truth: Payloads) returns (index: map<U32, CachedEntry>)
    ensures Delivers(b, index, truth)
  {
    index := map[];
  }

  method LoadPayloads(
    file: CacheFile, id: ArchiveIdentity, hash: Hash, opens: bool, writable: bool, maps: bool, ghost truth: Payloads)
    returns (index: map<U32, CachedEntry>)
    requires file.Valid() && TruthfulFile(file.bytes, id, truth)
    modifies file
    ensures file.Valid() && old(file.trail) <= file.trail
    ensures Plain(old(file.disk), id) ==>
              && Plain(file.disk, id)
              && forall j :: |old(file.trail)| <= j < |file.trail| ==> Plain(file.trail[j], id)
    ensures TruthfulFile(file.bytes, id, truth) && Delivers(file.bytes, index, truth)
  {
    hide Plain, Settled, WellFormed, RecordsOf, Truthful, Serves, Delivers;
    var ok, found, _ := LoadCacheFile(file, id, hash, opens, writable, maps);
    index := Nothing(file.bytes, truth);
    if ok {
      ServedIsTruthful(file.bytes, found, RecordsOf(file.bytes), truth);
      index := found;
    }
  }
}
