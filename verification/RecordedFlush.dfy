/** The two halves meet: what recording keeps of its queues is what the file writer needs
    (Skyrim/src/DecompCache.cpp). */
module RecordedFlush {
  import A = Admission
  import opened Basics
  import opened ByteCodec
  import opened CacheFormat
  import opened CacheDisk
  import opened CacheWriter
  import opened CacheSession
  import H = CompressedStream
  import St = StreamState

  /** The entries a flush took from an archive, with their payloads. */
  predicate Carries(pending: seq<Pending>, flight: seq<A.Entry>) {
    && |pending| == |flight|
    && forall k :: 0 <= k < |flight| ==> pending[k].off == flight[k].off && |pending[k].data| == flight[k].size
  }

  /** In every state any run reaches, the payloads in flight have distinct offsets and legal
      sizes, which is what the append and the fresh write rely on. */
  lemma RecordedFlightsAreGood(s: A.State, run: seq<A.Action>, i: nat, pending: seq<Pending>)
    requires A.Idle(s) && i < |A.After(s, run).archives| && A.After(s, run).archives[i].flight != []
    requires Carries(pending, A.After(s, run).archives[i].flight)
    ensures GoodPending(pending)
  {
    A.IdleIsSound(s);
    A.EveryRunKeepsSound(s, run);
    var a := A.After(s, run).archives[i];
    assert A.GoodArchive(a);
    forall j, k | 0 <= j < k < |pending| ensures pending[j].off != pending[k].off {
      assert a.flight[j].off != a.flight[k].off;
    }
  }

  /** A payload captured from a stream, written to the cache file and looked up there is the
      payload: what the hooks trust when they attach it. */
  method CaptureAndFind(
    stream: H.HookedStream, toRead: U64, identity: St.StreamIdentity, around: H.Surroundings,
    file: CacheFile, id: ArchiveIdentity, hash: Hash, flush: Circumstances, ghost truth: Payloads)
    returns (outcome: St.Outcome, handed: Option<H.Handover>, found: Option<seq<Byte>>)
    requires stream.Valid() && stream.Trusted(around.found, identity.totalSize)
    requires file.Valid() && TruthfulFile(file.bytes, id, truth)
    requires identity.startOffset in truth && truth[identity.startOffset] == stream.native.payload
    requires |stream.native.payload| == identity.totalSize
    modifies stream`log, stream`state, stream.state, stream.native`pos, stream.budget, file
    ensures stream.Valid() && file.Valid() && TruthfulFile(file.bytes, id, truth)
    ensures stream.native.payload == old(stream.native.payload)
    ensures found.Some? ==> found.value == stream.native.payload
    ensures file.reliable && 1 <= flush.cancelAfter && !(flush.opens && flush.locked)
            && flush.mayReplace && flush.maps && 0 < id.entryCount <= 1_000_000 ==>
              (found.Some? <==> handed.Some?)
    ensures found.Some? ==> handed.Some?
    ensures forall size: U32 :: stream.Trusted(found, size)
  {
    hide H.HookedStream.Sound, H.HookedStream.Tracked, H.HonestLog, TruthfulFile, CacheFile.Valid, Delivers;
    found := None;
    outcome, handed := stream.DoRead(toRead, true, identity, around);
    if handed.Some? && |handed.value.data| <= MAX_PAYLOAD {
      var pending := [Pending(identity.startOffset, handed.value.data)];
      var result := AppendPayloads(file, Work(id, false, {}, pending), hash, flush, truth);
      if result.ok && identity.startOffset in result.index {
        found := Some(Slice(file.bytes, result.index, identity.startOffset, truth));
      }
    }
  }

  function Slice(b: seq<Byte>, index: map<U32, CachedEntry>, k: U32, ghost truth: Payloads): (data: seq<Byte>)
    requires Delivers(b, index, truth) && k in index
    ensures k in truth && data == truth[k]
  {
    b[index[k].at..index[k].at + index[k].size]
  }
}
