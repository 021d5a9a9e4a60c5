/** `WriteFreshFile` (Skyrim/src/DecompCache.cpp): a complete new generation is
    written to a temporary file and renamed over the old one. */
module CacheFresh {
  import opened Basics
  import opened ByteCodec
  import opened CacheFormat
  import opened CacheDisk
  import opened CacheAppend
  import opened CacheCommit
  import opened CacheWriter
  import opened CacheFlush

  function FreshHeader(id: ArchiveIdentity, count: nat): Header
    requires count < TWO32
  {
    Header(MAGIC, VERSION, id.fileSize, id.lastWrite, id.fingerprint,
           id.entryCount, id.entryCount, count)
  }

  function SlotFor(capacity: nat, recs: seq<Rec>, i: nat): Entry
    requires i < |recs| && GoodRec(recs[i]) && DataStart(capacity) + Total(recs) < TWO64
  {
    TotalStep(recs, i);
    Entry(recs[i].off, |recs[i].data|, PayloadAt(capacity, recs, i), recs[i].checksum)
  }

  /** Index slots are written, and the first `n` payloads. */
  ghost predicate Filled(b: seq<Byte>, head: seq<Byte>, capacity: nat, recs: seq<Rec>, n: nat)
    requires n <= |recs|
  {
    && |head| == SlotOffset(|recs|) <= |b|
    && Agree(head, b, 0, |head|)
    && (if n == 0 then |b| == |head| else |b| == PayloadAt(capacity, recs, n))
    && forall i :: 0 <= i < n ==> PayloadHolds(b, capacity, recs, i)
  }

  ghost predicate PayloadHolds(b: seq<Byte>, capacity: nat, recs: seq<Rec>, i: nat)
    requires i < |recs|
  {
    var s := PayloadAt(capacity, recs, i);
    s + |recs[i].data| <= |b| && b[s..s + |recs[i].data|] == recs[i].data
  }

  lemma {:induction false} FillStep(b: seq<Byte>, head: seq<Byte>, capacity: nat, recs: seq<Rec>, n: nat)
    requires n < |recs| <= capacity && Filled(b, head, capacity, recs, n)
    ensures Filled(Apply(b, Write(PayloadAt(capacity, recs, n), recs[n].data)),
                   head, capacity, recs, n + 1)
  {
    var at, data := PayloadAt(capacity, recs, n), recs[n].data;
    var c := Apply(b, Write(at, data));
    TotalStep(recs, n);
    assert |b| <= at;
    assert Agree(b, c, 0, |b|);
    forall i | 0 <= i < n + 1 ensures PayloadHolds(c, capacity, recs, i) {
      if i < n {
        assert PayloadHolds(b, capacity, recs, i);
        var s := PayloadAt(capacity, recs, i);
        AgreeSlice(b, c, 0, |b|, s, s + |recs[i].data|);
      }
    }
  }

  /** The finished file represents exactly the pending records. */
  lemma {:induction false} FilledRepresents(
    b: seq<Byte>, head: seq<Byte>, id: ArchiveIdentity, recs: seq<Rec>, entries: seq<Entry>)
    requires recs != [] && |recs| <= id.entryCount && DataStart(id.entryCount) + Total(recs) < TWO64
    requires forall i :: 0 <= i < |recs| ==> GoodRec(recs[i])
    requires |entries| == |recs|
    requires forall i :: 0 <= i < |recs| ==> entries[i] == SlotFor(id.entryCount, recs, i)
    requires Filled(b, head, id.entryCount, recs, |recs|)
    requires head == EncodeHeader(FreshHeader(id, |recs|)) + EncodeIndex(entries)
    ensures Represents(b, FreshHeader(id, |recs|), recs)
    ensures |b| == DataStart(id.entryCount) + Total(recs)
  {
    hide EncodeHeader, DecodeHeader, EntryAt, EncodeEntry, EncodeIndex, Total;
    var h, index := FreshHeader(id, |recs|), EncodeIndex(entries);
    assert recs[..|recs|] == recs;
    AgreeSlice(head, b, 0, |head|, 0, HEADER_SIZE);
    assert b[..HEADER_SIZE] == head[0..HEADER_SIZE] == EncodeHeader(h);
    HeaderRoundTrip(b, h);
    forall i | 0 <= i < |recs| ensures SlotHolds(b, id.entryCount, recs, i) {
      IndexSlice(entries, i);
      AgreeSlice(head, b, 0, |head|, SlotOffset(i), SlotOffset(i + 1));
      assert head[SlotOffset(i)..SlotOffset(i + 1)]
          == index[ENTRY_SIZE * i..ENTRY_SIZE * (i + 1)];
      EntryRoundTrip(b, i, entries[i]);
      assert PayloadHolds(b, id.entryCount, recs, i);
    }
  }

  method FindDuplicate(prepared: seq<Rec>) returns (duplicate: bool)
    ensures duplicate <==>
            exists i, j :: 0 <= i < j < |prepared| && prepared[i].off == prepared[j].off
  {
    var offsets: set<U32> := {};
    duplicate := false;
    for i := 0 to |prepared|
      invariant forall k :: k in offsets <==> exists j :: 0 <= j < i && prepared[j].off == k
      invariant forall j, k :: 0 <= j < k < i ==> prepared[j].off != prepared[k].off
    {
      if prepared[i].off in offsets {
        return true;
      }
      offsets := offsets + {prepared[i].off};
    }
  }

  method FreshIndex(capacity: nat, recs: seq<Rec>) returns (ok: bool, entries: seq<Entry>)
    requires forall i :: 0 <= i < |recs| ==> GoodRec(recs[i])
    ensures ok <==> DataStart(capacity) + Total(recs) < TWO64
    ensures ok ==> |entries| == |recs|
                   && forall i :: 0 <= i < |recs| ==> entries[i] == SlotFor(capacity, recs, i)
  {
    entries := [];
    var cursor := DataStart(capacity);
    if cursor >= TWO64 {
      return false, [];
    }
    assert recs[..0] == [];
    for i := 0 to |recs|
      invariant cursor == PayloadAt(capacity, recs, i) < TWO64 && |entries| == i
      invariant forall k :: 0 <= k < i ==>
                  entries[k].startOffset == recs[k].off && entries[k].decompSize == |recs[k].data|
                  && entries[k].cacheOffset == PayloadAt(capacity, recs, k)
                  && entries[k].checksum == recs[k].checksum
    {
      TotalStep(recs, i);
      assert GoodRec(recs[i]);
      entries := entries + [Entry(recs[i].off, |recs[i].data|, cursor, recs[i].checksum)];
      if cursor + |recs[i].data| >= TWO64 {
        return false, [];
      }
      cursor := cursor + |recs[i].data|;
    }
    assert recs[..|recs|] == recs;
    ok := true;
  }

  /** The checked 64-bit cursor cannot overflow. */
  lemma FreshFits(capacity: U32, recs: seq<Rec>)
    requires |recs| <= capacity && forall i :: 0 <= i < |recs| ==> GoodRec(recs[i])
    ensures DataStart(capacity) + Total(recs) < TWO64
  {
    TotalBound(recs);
  }

  /** Writes the temporary file; on success it holds the whole new generation. */
  method WriteTemp(id: ArchiveIdentity, prepared: seq<Rec>, entries: seq<Entry>, reliable: bool)
    returns (ok: bool, temp: CacheFile, ghost flushed: bool)
    requires prepared != [] && |prepared| <= id.entryCount
    requires DataStart(id.entryCount) + Total(prepared) < TWO64
    requires forall i :: 0 <= i < |prepared| ==> GoodRec(prepared[i])
    requires |entries| == |prepared|
    requires forall i :: 0 <= i < |prepared| ==> entries[i] == SlotFor(id.entryCount, prepared, i)
    ensures fresh(temp) && temp.Valid()
    ensures ok ==> Represents(temp.bytes, FreshHeader(id, |prepared|), prepared)
                   && |temp.bytes| == DataStart(id.entryCount) + Total(prepared)
    ensures if flushed then temp.disk == Storage(temp.bytes, []) else temp.disk.durable == []
    ensures reliable ==> ok && flushed
  {
    hide EncodeHeader, EncodeIndex, Apply, Replay, Total, SlotFor, Filled, Represents;
    flushed := false;
    temp := new CacheFile([], reliable);
    var head := EncodeHeader(FreshHeader(id, |prepared|));
    var index := EncodeIndex(entries);
    ok := WriteAt(temp, 0, head);
    if ok {
      ok := WriteAt(temp, HEADER_SIZE, index);
    }
    if ok {
      HeadFilled(head, index, id.entryCount, prepared);
      var payloadOffset := DataStart(id.entryCount);
      assert prepared[..0] == [] && Total([]) == 0 by { TotalEmpty(); }
      for i := 0 to |prepared|
        invariant ok && temp.Valid() && temp.disk.durable == []
        invariant payloadOffset == PayloadAt(id.entryCount, prepared, i)
        invariant Filled(temp.bytes, head + index, id.entryCount, prepared, i)
      {
        assert GoodRec(prepared[i]);
        FillStep(temp.bytes, head + index, id.entryCount, prepared, i);
        ok := WriteAt(temp, payloadOffset, prepared[i].data);
        if !ok {
          return;
        }
        TotalStep(prepared, i);
        payloadOffset := payloadOffset + |prepared[i].data|;
      }
      FilledRepresents(temp.bytes, head + index, id, prepared, entries);
    }
    if ok {
      var cancelled: bool := *;
      if cancelled && !reliable {
        // the flush is skipped, the file is renamed all the same
      } else {
        ok := temp.Flush();
        flushed := ok;
      }
    }
  }

  lemma TotalEmpty()
    ensures Total([]) == 0
  {}

  lemma {:induction false} HeadFilled(head: seq<Byte>, index: seq<Byte>, capacity: nat, recs: seq<Rec>)
    requires |head| == HEADER_SIZE && |index| == ENTRY_SIZE * |recs|
    ensures Filled(Apply(Apply([], Write(0, head)), Write(HEADER_SIZE, index)),
                   head + index, capacity, recs, 0)
  {
    var a := Apply([], Write(0, head));
    assert a == a[0..0 + |head|] == head;
    var b := Apply(a, Write(HEADER_SIZE, index));
    assert b == head + b[HEADER_SIZE..HEADER_SIZE + |index|] == head + index;
  }

  /** Replaces the whole file by the pending entries. A generation that cannot be
      validated again is one whose archive has more entries than the format
      admits; nothing else can be wrong with a renamed file. */
  method WriteFreshFile(file: CacheFile, work: Work, prepared: seq<Rec>, hash: Hash, around: Circumstances)
    returns (result: MapResult, ghost replaced: bool, ghost flushed: bool)
    requires file.Valid()
    requires forall i :: 0 <= i < |prepared| ==> GoodRec(prepared[i])
    modifies file
    ensures file.Valid()
    ensures !replaced ==> !result.ok && file.bytes == old(file.bytes)
                          && file.disk == old(file.disk) && file.trail == old(file.trail)
    ensures replaced ==>
              && file.trail == old(file.trail) + [file.disk]
              && 0 < |prepared| < TWO32 && GoodRecs(prepared)
              && Represents(file.bytes, FreshHeader(work.id, |prepared|), prepared)
              && (if flushed then file.disk == Storage(file.bytes, []) else file.disk.durable == [])
    ensures replaced ==> (DecodesTo(file.bytes, work.id, prepared)
                          && Accepts(file.bytes, Some(work.id), false)
                          <==> work.id.entryCount <= MAX_CAPACITY)
    ensures result.ok ==> replaced && Serves(file.bytes, result.index, prepared)
                          && forall k :: k in result.index ==> result.index[k].verified
    ensures result.ok <==> replaced && around.maps && work.id.entryCount <= MAX_CAPACITY
    ensures replaced ==>
              && around.mayReplace && 0 < |prepared| <= work.id.entryCount
              && forall i, j :: 0 <= i < j < |prepared| ==> prepared[i].off != prepared[j].off
    ensures file.reliable ==>
              && (replaced <==>
                    && around.mayReplace && 0 < |prepared| <= work.id.entryCount
                    && forall i, j :: 0 <= i < j < |prepared| ==> prepared[i].off != prepared[j].off)
              && (replaced ==> flushed)
  {
    result, replaced, flushed := FAILURE, false, false;
    if prepared == [] || |prepared| > work.id.entryCount {
      return;
    }
    if !around.mayReplace {
      return;  // cancelled, or another process holds the lock
    }
    var duplicate := FindDuplicate(prepared);
    if duplicate {
      return;
    }
    FreshFits(work.id.entryCount, prepared);
    var fits, entries := FreshIndex(work.id.entryCount, prepared);
    if !fits {
      return;
    }
    var ok, temp;
    ok, temp, flushed := WriteTemp(work.id, prepared, entries, file.reliable);
    if ok {
      ok := file.ReplaceBy(temp);
    }
    if !ok {
      return;
    }
    replaced := true;
    FreshAccepted(file.bytes, work.id, prepared);
    result := MapFresh(file, work.id, prepared, hash, around.maps);
  }

  lemma FreshAccepted(b: seq<Byte>, id: ArchiveIdentity, recs: seq<Rec>)
    requires 0 < |recs| <= id.entryCount && GoodRecs(recs)
    requires Represents(b, FreshHeader(id, |recs|), recs)
    requires |b| == DataStart(id.entryCount) + Total(recs)
    ensures DecodesTo(b, id, recs) && Accepts(b, Some(id), false) <==> id.entryCount <= MAX_CAPACITY
  {
    hide DecodeHeader, EntryAt, SlotHolds, Total;
    if id.entryCount <= MAX_CAPACITY {
      RepresentsWellFormed(b, FreshHeader(id, |recs|), recs, Some(id));
    }
  }

  method MapFresh(file: CacheFile, id: ArchiveIdentity, prepared: seq<Rec>, hash: Hash, maps: bool)
    returns (result: MapResult)
    requires 0 < |prepared| <= id.entryCount && GoodRecs(prepared)
    requires Represents(file.bytes, FreshHeader(id, |prepared|), prepared)
    requires |file.bytes| == DataStart(id.entryCount) + Total(prepared)
    ensures result.ok ==> Serves(file.bytes, result.index, prepared)
                          && forall k :: k in result.index ==> result.index[k].verified
    ensures result.ok <==> maps && id.entryCount <= MAX_CAPACITY
  {
    if id.entryCount <= MAX_CAPACITY {
      TotalBound(prepared);
      assert |prepared| * MAX_PAYLOAD <= MAX_CAPACITY * MAX_PAYLOAD;
    }
    hide DecodeHeader, EntryAt, SlotHolds, Total, Represents;
    FreshAccepted(file.bytes, id, prepared);
    var offsets := set r | r in prepared :: r.off;
    result := MapCommittedFile(file, id, offsets, hash, maps);
    forall k | result.ok && k in result.index ensures k in offsets {
      TableKeys(prepared, k);
      var i :| 0 <= i < |prepared| && prepared[i].off == k;
      assert prepared[i] in prepared;
    }
  }
}
