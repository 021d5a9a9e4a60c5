/** Flushing pending entries to a cache file: append in place, fresh replacement,
    mapping the result, and tail recovery at startup
    (Skyrim/src/DecompCache.cpp). */
module CacheWriter {
  import opened ByteCodec
  import opened CacheFormat

  datatype Pending = Pending(off: U32, data: seq<Byte>)

  datatype Work = Work(
    id: ArchiveIdentity, resetFile: bool, verifiedOffsets: set<U32>, pending: seq<Pending>)

  datatype CachedEntry = CachedEntry(at: nat, size: nat, checksum: U32, verified: bool)

  datatype MapResult = MapResult(ok: bool, index: map<U32, CachedEntry>, fileSize: nat)

  /** What surrounds the flush of one file: how many payloads are prepared before a load
      cancels it, whether the file there can be opened, another process holds its lock, and
      it can be mapped, whether it may be replaced, and whether the result can be mapped. */
  datatype Circumstances = Circumstances(
    cancelAfter: nat, opens: bool, locked: bool, readable: bool, mayReplace: bool, maps: bool)

  const FAILURE: MapResult := MapResult(false, map[], 0)

  /** What the recording side guarantees: bounded, non-empty payloads, and no
      offset queued twice. */
  ghost predicate GoodPending(pending: seq<Pending>) {
    && pending != []
    && (forall i :: 0 <= i < |pending| ==> 0 < |pending[i].data| <= MAX_PAYLOAD)
    && (forall i, j :: 0 <= i < j < |pending| ==> pending[i].off != pending[j].off)
  }

  function Prepared(pending: seq<Pending>, hash: Hash): seq<Rec> {
    seq(|pending|, i requires 0 <= i < |pending| =>
      Rec(pending[i].off, hash(pending[i].data), pending[i].data))
  }

  /** The records of `recs` whose offset is not among `keys`, in order. */
  function Missing(recs: seq<Rec>, keys: set<U32>): seq<Rec> {
    if recs == [] then []
    else
      var m := |recs| - 1;
      Missing(recs[..m], keys) + if recs[m].off in keys then [] else [recs[m]]
  }

  ghost function Keys(recs: seq<Rec>): set<U32> { Table(recs).Keys }

  lemma {:induction false} MissingFrom(recs: seq<Rec>, keys: set<U32>, r: Rec)
    ensures r in Missing(recs, keys) <==> r in recs && r.off !in keys
  {
    if recs != [] {
      var m := |recs| - 1;
      assert recs == recs[..m] + [recs[m]];
      MissingFrom(recs[..m], keys, r);
    }
  }

  lemma {:induction false} MissingDistinct(recs: seq<Rec>, keys: set<U32>)
    requires GoodRecs(recs)
    ensures GoodRecs(Missing(recs, keys))
  {
    if recs != [] {
      var m := |recs| - 1;
      var head := Missing(recs[..m], keys);
      MissingDistinct(recs[..m], keys);
      forall i | 0 <= i < |head| ensures head[i].off != recs[m].off {
        MissingFrom(recs[..m], keys, head[i]);
        assert head[i] in recs[..m];
      }
      assert GoodRec(recs[m]);
    }
  }

  /** Old records and the missing ones together are good again. */
  lemma AddedIsGood(prior: seq<Rec>, prepared: seq<Rec>)
    requires GoodRecs(prior) && GoodRecs(prepared)
    ensures GoodRecs(prior + Missing(prepared, Keys(prior)))
  {
    var added := Missing(prepared, Keys(prior));
    MissingDistinct(prepared, Keys(prior));
    var all := prior + added;
    forall i, j | 0 <= i < j < |all| ensures all[i].off != all[j].off {
      if i < |prior| <= j {
        MissingFrom(prepared, Keys(prior), added[j - |prior|]);
        TableKeys(prior, all[j].off);
        assert added[j - |prior|] in added;
      }
    }
    forall i | 0 <= i < |all| ensures GoodRec(all[i]) {
      if |prior| <= i { assert GoodRec(added[i - |prior|]); }
    }
  }

  lemma {:induction false} MissingAdds(prepared: seq<Rec>, keys: set<U32>)
    ensures forall k :: k in Keys(Missing(prepared, keys)) <==> k in Keys(prepared) && k !in keys
  {
    forall k ensures k in Keys(Missing(prepared, keys)) <==> k in Keys(prepared) && k !in keys {
      var added := Missing(prepared, keys);
      TableKeys(added, k);
      TableKeys(prepared, k);
      if i :| 0 <= i < |added| && added[i].off == k {
        MissingFrom(prepared, keys, added[i]);
        assert added[i] in added;
      }
      if k !in keys && k in Keys(prepared) {
        var i :| 0 <= i < |prepared| && prepared[i].off == k;
        MissingFrom(prepared, keys, prepared[i]);
        var j :| 0 <= j < |added| && added[j] == prepared[i];
      }
    }
  }

  lemma {:induction false} NothingMissing(recs: seq<Rec>, keys: set<U32>)
    requires forall i :: 0 <= i < |recs| ==> recs[i].off in keys
    ensures Missing(recs, keys) == []
  {
    if recs != [] {
      NothingMissing(recs[..|recs| - 1], keys);
    }
  }

  // --------------------------------------------- what may be appended in place

  /** A pending record that is already on disk: same size and checksum in the
      index, and the persisted bytes still have that checksum. */
  ghost predicate AlreadyThere(r: Rec, recs: seq<Rec>, hash: Hash) {
    exists i :: 0 <= i < |recs| && Same(r, recs[i], hash)
  }

  predicate Same(r: Rec, q: Rec, hash: Hash) {
    && q.off == r.off
    && |q.data| == |r.data|
    && q.checksum == r.checksum
    && hash(q.data) == q.checksum
  }

  /** No pending record contradicts the file. */
  ghost predicate Compatible(prepared: seq<Rec>, recs: seq<Rec>, hash: Hash) {
    forall i :: 0 <= i < |prepared| && prepared[i].off in Keys(recs) ==>
                  AlreadyThere(prepared[i], recs, hash)
  }

  /** Matching metadata is not enough: every pending payload whose offset is on disk has a
      record there of its size and checksum, whose bytes still have that checksum. So the
      bytes looked up under its offset hash to what the pending ones hash to. */
  lemma CompatibleIff(prepared: seq<Rec>, recs: seq<Rec>, hash: Hash)
    requires GoodRecs(recs)
    ensures Compatible(prepared, recs, hash) <==>
              forall k, i :: 0 <= k < |prepared| && 0 <= i < |recs| && recs[i].off == prepared[k].off ==>
                && |recs[i].data| == |prepared[k].data|
                && recs[i].checksum == prepared[k].checksum && hash(recs[i].data) == recs[i].checksum
    ensures Compatible(prepared, recs, hash) ==>
              forall k :: 0 <= k < |prepared| && prepared[k].off in Table(recs) ==>
                && |Table(recs)[prepared[k].off]| == |prepared[k].data|
                && hash(Table(recs)[prepared[k].off]) == prepared[k].checksum
  {
    forall k, i | 0 <= k < |prepared| && 0 <= i < |recs| && recs[i].off == prepared[k].off
      ensures prepared[k].off in Keys(recs) && Table(recs)[prepared[k].off] == recs[i].data
      ensures AlreadyThere(prepared[k], recs, hash) <==> Same(prepared[k], recs[i], hash)
    {
      TableLookup(recs, i);
    }
    forall k | 0 <= k < |prepared| && prepared[k].off in Table(recs)
      ensures exists i :: 0 <= i < |recs| && recs[i].off == prepared[k].off
    {
      TableKeys(recs, prepared[k].off);
    }
  }

  /** A record whose bytes rotted under an intact index entry is not taken for the payload. */
  lemma RottenIsIncompatible(hash: Hash)
    requires hash([1]) == 1 && hash([2]) == 0
    ensures !Compatible([Rec(5, 1, [1])], [Rec(5, 1, [2])], hash)
    ensures Compatible([Rec(5, 1, [1])], [Rec(5, 1, [1])], hash)
  {
    var pending, rotten := [Rec(5, 1, [1])], [Rec(5, 1, [2])];
    CompatibleIff(pending, rotten, hash);
    CompatibleIff(pending, pending, hash);
    assert rotten[0].off == pending[0].off && hash(rotten[0].data) != rotten[0].checksum;
  }

  /** A commit that reached the disk but could not be mapped is retried with the
      same entries: nothing conflicts, and nothing is appended a second time. */
  lemma RetryAddsNothing(prior: seq<Rec>, pending: seq<Pending>, hash: Hash)
    requires GoodPending(pending) && GoodRecs(prior)
    requires Compatible(Prepared(pending, hash), prior, hash)
    ensures var prepared := Prepared(pending, hash);
            var after := prior + Missing(prepared, Keys(prior));
            && Compatible(prepared, after, hash) && Missing(prepared, Keys(after)) == []
            && forall k, i :: 0 <= k < |prepared| && 0 <= i < |after| && after[i].off == prepared[k].off ==>
                 |after[i].data| == |prepared[k].data| && hash(after[i].data) == prepared[k].checksum
  {
    var prepared := Prepared(pending, hash);
    var added := Missing(prepared, Keys(prior));
    var after := prior + added;
    TableConcat(prior, added);
    MissingAdds(prepared, Keys(prior));
    forall i | 0 <= i < |prepared|
      ensures prepared[i].off in Keys(after) && AlreadyThere(prepared[i], after, hash)
    {
      TableKeys(prepared, prepared[i].off);
      if prepared[i].off in Keys(prior) {
        var j :| 0 <= j < |prior| && Same(prepared[i], prior[j], hash);
        assert Same(prepared[i], after[j], hash);
      } else {
        MissingFrom(prepared, Keys(prior), prepared[i]);
        assert prepared[i] in prepared;
        var j :| 0 <= j < |added| && added[j] == prepared[i];
        assert Same(prepared[i], after[|prior| + j], hash);
      }
    }
    NothingMissing(prepared, Keys(after));
    GoodPrepared(pending, hash);
    AddedIsGood(prior, prepared);
    CompatibleIff(prepared, after, hash);
  }

  lemma GoodPrepared(pending: seq<Pending>, hash: Hash)
    requires GoodPending(pending)
    ensures GoodRecs(Prepared(pending, hash))
  {
    var prepared := Prepared(pending, hash);
    forall i | 0 <= i < |prepared| ensures GoodRec(prepared[i]) {
      assert 0 < |pending[i].data| <= MAX_PAYLOAD;
    }
  }

  /** The decoded map after an append: exactly the old entries and the pending
      ones, provided an entry that was already there holds the pending bytes. */
  lemma AppendedTable(prior: seq<Rec>, prepared: seq<Rec>)
    requires GoodRecs(prior) && GoodRecs(prepared)
    ensures Table(prior + Missing(prepared, Keys(prior))) == Table(prior) + Table(prepared)
            <==> forall i :: 0 <= i < |prepared| && prepared[i].off in Table(prior) ==>
                               Table(prior)[prepared[i].off] == prepared[i].data
  {
    var added := Missing(prepared, Keys(prior));
    var l, r := Table(prior + added), Table(prior) + Table(prepared);
    TableConcat(prior, added);
    MissingAdds(prepared, Keys(prior));
    MissingDistinct(prepared, Keys(prior));
    assert l.Keys == r.Keys;
    if forall i :: 0 <= i < |prepared| && prepared[i].off in Table(prior) ==>
                     Table(prior)[prepared[i].off] == prepared[i].data {
      forall k | k in r ensures l[k] == r[k] {
        if k in Table(prepared) {
          TableKeys(prepared, k);
          var i :| 0 <= i < |prepared| && prepared[i].off == k;
          TableLookup(prepared, i);
          if k !in Table(prior) {
            MissingFrom(prepared, Keys(prior), prepared[i]);
            assert prepared[i] in prepared;
            var j :| 0 <= j < |added| && added[j] == prepared[i];
            TableLookup(added, j);
          }
        }
      }
    }
    if l == r {
      forall i | 0 <= i < |prepared| && prepared[i].off in Table(prior)
        ensures Table(prior)[prepared[i].off] == prepared[i].data
      {
        TableLookup(prepared, i);
        assert prepared[i].off !in Table(added);
        assert l[prepared[i].off] == r[prepared[i].off];
      }
    }
  }
}
