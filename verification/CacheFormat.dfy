/** The on-disk cache format and its validator (Skyrim/src/CacheFormat.h). */
module CacheFormat {
  import opened Basics
  import opened ByteCodec

  const HEADER_SIZE: nat := 44
  const ENTRY_SIZE: nat := 20
  const VERSION: nat := 7
  const MAX_PAYLOAD: nat := 256 * 1024 * 1024
  const MAX_CAPACITY: nat := 1_000_000
  /** "BSDC" */
  const MAGIC: seq<Byte> := [0x42, 0x53, 0x44, 0x43]

  datatype Header = Header(
    magic: seq<Byte>,
    version: U32,
    bsaFileSize: U64,
    bsaLastWrite: U64,
    bsaFingerprint: U64,
    bsaEntryCount: U32,
    indexCapacity: U32,
    entryCount: U32)

  datatype Entry = Entry(startOffset: U32, decompSize: U32, cacheOffset: U64, checksum: U32)

  datatype ArchiveIdentity = ArchiveIdentity(
    fileSize: U64, lastWrite: U64, fingerprint: U64, entryCount: U32)

  datatype Mode = StructuralOnly | FullPayload

  datatype ValidationError =
    | NoError | NullData | FileTooSmall | BadMagic | UnsupportedVersion | ArchiveMismatch
    | InvalidEntryCount | IndexOutOfBounds | EmptyPayload | PayloadTooLarge
    | NonContiguousPayload | PayloadOutOfBounds | PayloadChecksumMismatch
    | TrailingData | DuplicateStartOffset

  /** XXH32 stands behind this type; nothing below depends on which hash it is. */
  type Hash = seq<Byte> -> U32

  // ---------------------------------------------------------------- layout

  function DecodeHeader(b: seq<Byte>): Header
    requires HEADER_SIZE <= |b|
  {
    Header(b[0..4], U32At(b, 4), U64At(b, 8), U64At(b, 16), U64At(b, 24),
           U32At(b, 32), U32At(b, 36), U32At(b, 40))
  }

  function EncodeHeader(h: Header): (b: seq<Byte>)
    requires |h.magic| == 4
    ensures |b| == HEADER_SIZE
  {
    h.magic + EncodeU32(h.version) + EncodeU64(h.bsaFileSize) + EncodeU64(h.bsaLastWrite)
    + EncodeU64(h.bsaFingerprint) + EncodeU32(h.bsaEntryCount)
    + EncodeU32(h.indexCapacity) + EncodeU32(h.entryCount)
  }

  function SlotOffset(i: nat): nat { HEADER_SIZE + i * ENTRY_SIZE }

  function DataStart(capacity: nat): nat { SlotOffset(capacity) }

  function EntryAt(b: seq<Byte>, i: nat): Entry
    requires SlotOffset(i + 1) <= |b|
  {
    var o := SlotOffset(i);
    Entry(U32At(b, o), U32At(b, o + 4), U64At(b, o + 8), U32At(b, o + 16))
  }

  function EncodeEntry(e: Entry): (b: seq<Byte>)
    ensures |b| == ENTRY_SIZE
  {
    EncodeU32(e.startOffset) + EncodeU32(e.decompSize) + EncodeU64(e.cacheOffset)
    + EncodeU32(e.checksum)
  }

  lemma U32Shift(b: seq<Byte>, off: nat, n: U32)
    requires off + 4 <= |b| && b[off..off + 4] == EncodeU32(n)
    ensures U32At(b, off) == n
  {
    var s := b[off..off + 4];
    assert s[0] == b[off] && s[1] == b[off + 1] && s[2] == b[off + 2] && s[3] == b[off + 3];
    assert U32At(s, 0) == n;
  }

  lemma U64Shift(b: seq<Byte>, off: nat, n: U64)
    requires off + 8 <= |b| && b[off..off + 8] == EncodeU64(n)
    ensures U64At(b, off) == n
  {
    var s := b[off..off + 8];
    assert s[0] == b[off] && s[1] == b[off + 1] && s[2] == b[off + 2] && s[3] == b[off + 3]
        && s[4] == b[off + 4] && s[5] == b[off + 5] && s[6] == b[off + 6] && s[7] == b[off + 7];
    assert U64At(s, 0) == n;
  }

  lemma LowByte(high: nat, low: Byte)
    ensures (low + 0x100 * high) / 0x100 == high && (low + 0x100 * high) % 0x100 == low
  {}

  lemma U32Exact(b: seq<Byte>, off: nat)
    requires off + 4 <= |b|
    ensures EncodeU32(U32At(b, off)) == b[off..off + 4]
  {
    var b0, b1, b2, b3 := b[off] as int, b[off + 1] as int, b[off + 2] as int, b[off + 3] as int;
    LowByte(b2 + 0x100 * b3, b1);
    LowByte(b1 + 0x100 * b2 + 0x1_0000 * b3, b0);
    LowByte(b3, b2);
    assert b[off..off + 4] == [b[off], b[off + 1], b[off + 2], b[off + 3]];
  }

  lemma U64Exact(b: seq<Byte>, off: nat)
    requires off + 8 <= |b|
    ensures EncodeU64(U64At(b, off)) == b[off..off + 8]
  {
    hide EncodeU32, U32At;
    U32Exact(b, off);
    U32Exact(b, off + 4);
    var n: int := U64At(b, off);
    assert n % TWO32 == U32At(b, off) && n / TWO32 == U32At(b, off + 4);
    assert b[off..off + 8] == b[off..off + 4] + b[off + 4..off + 8];
  }

  /** The header of the format: its fields, little-endian, at these bytes of the file. */
  lemma HeaderLayout(b: seq<Byte>)
    requires 44 <= |b|
    ensures var h := DecodeHeader(b);
            && h.magic == b[0..4] && h.version == LittleEndian(b[4..8])
            && h.bsaFileSize == LittleEndian(b[8..16]) && h.bsaLastWrite == LittleEndian(b[16..24])
            && h.bsaFingerprint == LittleEndian(b[24..32]) && h.bsaEntryCount == LittleEndian(b[32..36])
            && h.indexCapacity == LittleEndian(b[36..40]) && h.entryCount == LittleEndian(b[40..44])
  {
    hide LittleEndian, U32At, U64At;
    U32IsLittleEndian(b, 4); U64IsLittleEndian(b, 8); U64IsLittleEndian(b, 16); U64IsLittleEndian(b, 24);
    U32IsLittleEndian(b, 32); U32IsLittleEndian(b, 36); U32IsLittleEndian(b, 40);
  }

  /** Index slot `i`, little-endian, at these bytes of the file. */
  lemma EntryLayout(b: seq<Byte>, i: nat)
    requires 44 + 20 * (i + 1) <= |b|
    ensures var o := 44 + 20 * i;
            var e := EntryAt(b, i);
            && e.startOffset == LittleEndian(b[o..o + 4]) && e.decompSize == LittleEndian(b[o + 4..o + 8])
            && e.cacheOffset == LittleEndian(b[o + 8..o + 16]) && e.checksum == LittleEndian(b[o + 16..o + 20])
  {
    hide LittleEndian, U32At, U64At;
    var o := SlotOffset(i);
    U32IsLittleEndian(b, o); U32IsLittleEndian(b, o + 4);
    U64IsLittleEndian(b, o + 8); U32IsLittleEndian(b, o + 16);
  }

  /** Writing a header back byte for byte. */
  lemma HeaderExact(b: seq<Byte>)
    requires HEADER_SIZE <= |b|
    ensures EncodeHeader(DecodeHeader(b)) == b[..HEADER_SIZE]
  {
    hide EncodeU32, EncodeU64, U32At, U64At;
    U32Exact(b, 4); U64Exact(b, 8); U64Exact(b, 16); U64Exact(b, 24);
    U32Exact(b, 32); U32Exact(b, 36); U32Exact(b, 40);
    assert b[..HEADER_SIZE] == b[0..4] + b[4..8] + b[8..16] + b[16..24] + b[24..32]
                               + b[32..36] + b[36..40] + b[40..44];
  }

  /** Field `f` lies at [s, e) of the encoding `enc` found at `o` in the file. */
  lemma FieldAt(b: seq<Byte>, o: nat, enc: seq<Byte>, s: nat, e: nat, f: seq<Byte>)
    requires o + |enc| <= |b| && b[o..o + |enc|] == enc
    requires s <= e <= |enc| && enc[s..e] == f
    ensures b[o + s..o + e] == f
  {
    forall k | 0 <= k < e - s ensures b[o + s..o + e][k] == f[k] {
      assert b[o..o + |enc|][s + k] == enc[s..e][k];
    }
  }

  /** Reading back a header that was written at the front of a file. */
  lemma HeaderRoundTrip(b: seq<Byte>, h: Header)
    requires HEADER_SIZE <= |b| && |h.magic| == 4 && b[..HEADER_SIZE] == EncodeHeader(h)
    ensures DecodeHeader(b) == h
  {
    hide U32At, U64At, EncodeU32, EncodeU64;
    var e := EncodeHeader(h);
    assert b[0..0 + |e|] == e;
    FieldAt(b, 0, e, 0, 4, h.magic);
    FieldAt(b, 0, e, 4, 8, EncodeU32(h.version)); U32Shift(b, 4, h.version);
    FieldAt(b, 0, e, 8, 16, EncodeU64(h.bsaFileSize)); U64Shift(b, 8, h.bsaFileSize);
    FieldAt(b, 0, e, 16, 24, EncodeU64(h.bsaLastWrite)); U64Shift(b, 16, h.bsaLastWrite);
    FieldAt(b, 0, e, 24, 32, EncodeU64(h.bsaFingerprint)); U64Shift(b, 24, h.bsaFingerprint);
    FieldAt(b, 0, e, 32, 36, EncodeU32(h.bsaEntryCount)); U32Shift(b, 32, h.bsaEntryCount);
    FieldAt(b, 0, e, 36, 40, EncodeU32(h.indexCapacity)); U32Shift(b, 36, h.indexCapacity);
    FieldAt(b, 0, e, 40, 44, EncodeU32(h.entryCount)); U32Shift(b, 40, h.entryCount);
  }

  /** Reading back an index slot. */
  lemma EntryRoundTrip(b: seq<Byte>, i: nat, e: Entry)
    requires SlotOffset(i + 1) <= |b|
    requires b[SlotOffset(i)..SlotOffset(i + 1)] == EncodeEntry(e)
    ensures EntryAt(b, i) == e
  {
    hide U32At, U64At, EncodeU32, EncodeU64;
    var o, f := SlotOffset(i), EncodeEntry(e);
    assert b[o..o + |f|] == f;
    FieldAt(b, o, f, 0, 4, EncodeU32(e.startOffset)); U32Shift(b, o, e.startOffset);
    FieldAt(b, o, f, 4, 8, EncodeU32(e.decompSize)); U32Shift(b, o + 4, e.decompSize);
    FieldAt(b, o, f, 8, 16, EncodeU64(e.cacheOffset)); U64Shift(b, o + 8, e.cacheOffset);
    FieldAt(b, o, f, 16, 20, EncodeU32(e.checksum)); U32Shift(b, o + 16, e.checksum);
  }

  /** Writing an index slot back byte for byte. */
  lemma EntryExact(b: seq<Byte>, i: nat)
    requires SlotOffset(i + 1) <= |b|
    ensures EncodeEntry(EntryAt(b, i)) == b[SlotOffset(i)..SlotOffset(i + 1)]
  {
    hide EncodeU32, EncodeU64, U32At, U64At;
    var o := SlotOffset(i);
    U32Exact(b, o); U32Exact(b, o + 4); U64Exact(b, o + 8); U32Exact(b, o + 16);
    assert b[o..o + ENTRY_SIZE] == b[o..o + 4] + b[o + 4..o + 8] + b[o + 8..o + 16] + b[o + 16..o + 20];
  }

  // ------------------------------------------------- what a valid file is

  predicate GoodHeader(h: Header, expected: Option<ArchiveIdentity>) {
    && h.magic == MAGIC
    && h.version == VERSION
    && (expected.Some? ==>
          && h.bsaFileSize == expected.value.fileSize
          && h.bsaLastWrite == expected.value.lastWrite
          && h.bsaFingerprint == expected.value.fingerprint
          && h.bsaEntryCount == expected.value.entryCount
          && h.indexCapacity == expected.value.entryCount)
    && 0 < h.entryCount <= h.indexCapacity <= MAX_CAPACITY
  }

  /** All index slots lie inside the file. */
  predicate IndexFits(b: seq<Byte>) {
    HEADER_SIZE <= |b| && DataStart(DecodeHeader(b).indexCapacity) <= |b|
  }

  predicate InIndex(b: seq<Byte>, n: nat) {
    IndexFits(b) && n <= DecodeHeader(b).indexCapacity
  }

  /** Where payload `i` must start: behind the index and all earlier payloads. */
  function PayloadStart(b: seq<Byte>, i: nat): nat
    requires InIndex(b, i)
  {
    if i == 0 then DataStart(DecodeHeader(b).indexCapacity)
    else PayloadStart(b, i - 1) + EntryAt(b, i - 1).decompSize
  }

  /** Entry `i` is a non-empty, bounded payload that follows its predecessor
      without a gap and ends inside the file. */
  predicate GoodEntry(b: seq<Byte>, i: nat)
    requires InIndex(b, i + 1)
  {
    var e := EntryAt(b, i);
    && 0 < e.decompSize <= MAX_PAYLOAD
    && e.cacheOffset == PayloadStart(b, i)
    && PayloadStart(b, i) + e.decompSize <= |b|
  }

  ghost predicate GoodChecksum(b: seq<Byte>, i: nat, hash: Hash)
    requires InIndex(b, i + 1) && GoodEntry(b, i)
  {
    hash(b[PayloadStart(b, i)..PayloadStart(b, i + 1)]) == EntryAt(b, i).checksum
  }

  ghost predicate DistinctOffsets(b: seq<Byte>, n: nat)
    requires InIndex(b, n)
  {
    forall i, j :: 0 <= i < j < n ==> EntryAt(b, i).startOffset != EntryAt(b, j).startOffset
  }

  /** The declarative meaning of "no error" with trailing data allowed. */
  ghost predicate WellFormed(b: seq<Byte>, expected: Option<ArchiveIdentity>) {
    && HEADER_SIZE <= |b|
    && GoodHeader(DecodeHeader(b), expected)
    && IndexFits(b)
    && (forall i :: 0 <= i < DecodeHeader(b).entryCount ==> GoodEntry(b, i))
    && DistinctOffsets(b, DecodeHeader(b).entryCount)
  }

  function ValidSize(b: seq<Byte>): nat
    requires HEADER_SIZE <= |b| && InIndex(b, DecodeHeader(b).entryCount)
  {
    PayloadStart(b, DecodeHeader(b).entryCount)
  }

  /** Accepted by the validator. */
  ghost predicate Accepts(b: seq<Byte>, expected: Option<ArchiveIdentity>, allowTrailing: bool) {
    WellFormed(b, expected) && (allowTrailing || ValidSize(b) == |b|)
  }

  lemma {:induction false} PayloadStartMonotone(b: seq<Byte>, i: nat, j: nat)
    requires InIndex(b, j) && i <= j
    ensures DataStart(DecodeHeader(b).indexCapacity) <= PayloadStart(b, i) <= PayloadStart(b, j)
  {
    hide U32At, U64At;
    if i < j {
      PayloadStartMonotone(b, i, j - 1);
    } else if i > 0 {
      PayloadStartMonotone(b, i - 1, j - 1);
    }
  }

  // ---------------------------------------------------- records in a file

  /** One committed cache entry: which BSA entry it caches, and its bytes. */
  datatype Rec = Rec(off: U32, checksum: U32, data: seq<Byte>)

  function Total(recs: seq<Rec>): nat {
    if recs == [] then 0 else Total(recs[..|recs| - 1]) + |recs[|recs| - 1].data|
  }

  function PayloadAt(capacity: nat, recs: seq<Rec>, i: nat): nat
    requires i <= |recs|
  {
    DataStart(capacity) + Total(recs[..i])
  }

  predicate GoodRec(r: Rec) { 0 < |r.data| <= MAX_PAYLOAD }

  ghost predicate GoodRecs(recs: seq<Rec>) {
    && (forall i :: 0 <= i < |recs| ==> GoodRec(recs[i]))
    && (forall i, j :: 0 <= i < j < |recs| ==> recs[i].off != recs[j].off)
  }

  lemma {:induction false} TotalSplit(a: seq<Rec>, b: seq<Rec>)
    ensures Total(a + b) == Total(a) + Total(b)
    decreases |b|
  {
    if b == [] {
      assert a + b == a;
    } else {
      var m := |b| - 1;
      assert (a + b)[..|a + b| - 1] == a + b[..m];
      TotalSplit(a, b[..m]);
    }
  }

  lemma TotalStep(recs: seq<Rec>, i: nat)
    requires i < |recs|
    ensures Total(recs[..i + 1]) == Total(recs[..i]) + |recs[i].data|
    ensures Total(recs[..i + 1]) <= Total(recs)
  {
    assert recs[..i + 1][..i] == recs[..i];
    assert recs == recs[..i + 1] + recs[i + 1..];
    TotalSplit(recs[..i + 1], recs[i + 1..]);
  }

  lemma {:induction false} TotalBound(recs: seq<Rec>)
    requires forall k :: 0 <= k < |recs| ==> GoodRec(recs[k])
    ensures Total(recs) <= |recs| * MAX_PAYLOAD
  {
    if recs != [] {
      TotalBound(recs[..|recs| - 1]);
      assert GoodRec(recs[|recs| - 1]);
    }
  }

  /** Slot `i` of `b` describes record `recs[i]`, whose bytes sit where the
      contiguity rule puts them. */
  ghost predicate SlotHolds(b: seq<Byte>, capacity: nat, recs: seq<Rec>, i: nat)
    requires i < |recs|
  {
    var s := PayloadAt(capacity, recs, i);
    && SlotOffset(i + 1) <= |b|
    && s + |recs[i].data| <= |b|
    && EntryAt(b, i).startOffset == recs[i].off
    && EntryAt(b, i).decompSize == |recs[i].data|
    && EntryAt(b, i).cacheOffset == s
    && EntryAt(b, i).checksum == recs[i].checksum
    && b[s..s + |recs[i].data|] == recs[i].data
  }

  /** The committed part of `b` is exactly header `h` over records `recs`. */
  ghost predicate Represents(b: seq<Byte>, h: Header, recs: seq<Rec>) {
    && HEADER_SIZE <= |b|
    && DecodeHeader(b) == h
    && h.entryCount == |recs| <= h.indexCapacity
    && DataStart(h.indexCapacity) + Total(recs) <= |b|
    && forall i :: 0 <= i < |recs| ==> SlotHolds(b, h.indexCapacity, recs, i)
  }

  function RecordAt(b: seq<Byte>, i: nat): (r: Rec)
    requires InIndex(b, i + 1) && GoodEntry(b, i)
    ensures |r.data| == EntryAt(b, i).decompSize
  {
    var e := EntryAt(b, i);
    Rec(e.startOffset, e.checksum, b[PayloadStart(b, i)..PayloadStart(b, i) + e.decompSize])
  }

  /** What a well-formed file decodes to, in index order. */
  ghost function RecordsOf(b: seq<Byte>): (recs: seq<Rec>)
    requires WellFormed(b, None)
    ensures |recs| == DecodeHeader(b).entryCount
  {
    seq(DecodeHeader(b).entryCount, i requires 0 <= i < DecodeHeader(b).entryCount => RecordAt(b, i))
  }

  lemma WellFormedWeaken(b: seq<Byte>, expected: Option<ArchiveIdentity>)
    requires WellFormed(b, expected)
    ensures WellFormed(b, None)
  {}

  lemma {:induction false} StartsAgree(b: seq<Byte>, recs: seq<Rec>, i: nat)
    requires i <= |recs| && InIndex(b, |recs|)
    requires forall k :: 0 <= k < |recs| ==> |recs[k].data| == EntryAt(b, k).decompSize
    ensures PayloadAt(DecodeHeader(b).indexCapacity, recs, i) == PayloadStart(b, i)
  {
    hide U32At, U64At;
    if i == 0 {
      assert recs[..0] == [];
    } else {
      StartsAgree(b, recs, i - 1);
      TotalStep(recs, i - 1);
    }
  }

  lemma SlotOfEntry(b: seq<Byte>, recs: seq<Rec>, i: nat)
    requires i < |recs| && InIndex(b, |recs|)
    requires forall k :: 0 <= k < |recs| ==> |recs[k].data| == EntryAt(b, k).decompSize
    requires GoodEntry(b, i) && recs[i] == RecordAt(b, i)
    ensures SlotHolds(b, DecodeHeader(b).indexCapacity, recs, i) && GoodRec(recs[i])
  {
    hide U32At, U64At;
    StartsAgree(b, recs, i);
  }

  /** `recs` lists the records in the index slots of `b`. */
  ghost predicate Lists(b: seq<Byte>, recs: seq<Rec>) {
    && IndexFits(b)
    && 0 < |recs| == DecodeHeader(b).entryCount <= DecodeHeader(b).indexCapacity
    && forall k :: 0 <= k < |recs| ==> GoodEntry(b, k) && recs[k] == RecordAt(b, k)
  }

  lemma ListedSizes(b: seq<Byte>, recs: seq<Rec>)
    requires Lists(b, recs)
    ensures forall k :: 0 <= k < |recs| ==> |recs[k].data| == EntryAt(b, k).decompSize
  {
    hide U32At, U64At;
    forall k | 0 <= k < |recs| ensures |recs[k].data| == EntryAt(b, k).decompSize {
      assert GoodEntry(b, k);
    }
  }

  lemma ListedSlots(b: seq<Byte>, recs: seq<Rec>)
    requires Lists(b, recs)
    ensures forall i :: 0 <= i < |recs| ==>
              SlotHolds(b, DecodeHeader(b).indexCapacity, recs, i) && GoodRec(recs[i])
  {
    hide U32At, U64At;
    ListedSizes(b, recs);
    forall i | 0 <= i < |recs|
      ensures SlotHolds(b, DecodeHeader(b).indexCapacity, recs, i) && GoodRec(recs[i])
    {
      assert GoodEntry(b, i);
      SlotOfEntry(b, recs, i);
    }
  }

  lemma ListedEnd(b: seq<Byte>, recs: seq<Rec>)
    requires Lists(b, recs)
    ensures ValidSize(b) == DataStart(DecodeHeader(b).indexCapacity) + Total(recs) <= |b|
  {
    hide U32At, U64At;
    ListedSizes(b, recs);
    StartsAgree(b, recs, |recs|);
    assert recs[..|recs|] == recs;
    assert GoodEntry(b, |recs| - 1);
  }

  /** A well-formed file represents the records it decodes to, and they are good. */
  lemma WellFormedRepresents(b: seq<Byte>, expected: Option<ArchiveIdentity>)
    requires WellFormed(b, expected)
    ensures WellFormed(b, None) && Represents(b, DecodeHeader(b), RecordsOf(b))
    ensures GoodRecs(RecordsOf(b)) && RecordsOf(b) != []
    ensures ValidSize(b) == DataStart(DecodeHeader(b).indexCapacity) + Total(RecordsOf(b)) <= |b|
  {
    hide U32At, U64At;
    WellFormedWeaken(b, expected);
    var recs := RecordsOf(b);
    assert Lists(b, recs);
    ListedSlots(b, recs);
    ListedEnd(b, recs);
    forall i, j | 0 <= i < j < |recs| ensures recs[i].off != recs[j].off {
      assert EntryAt(b, i).startOffset != EntryAt(b, j).startOffset;
    }
  }

  lemma {:induction false} RepresentedStarts(b: seq<Byte>, h: Header, recs: seq<Rec>, i: nat)
    requires Represents(b, h, recs) && i <= |recs|
    ensures InIndex(b, i) && PayloadStart(b, i) == PayloadAt(h.indexCapacity, recs, i)
  {
    hide U32At, U64At;
    if i == 0 {
      assert recs[..0] == [];
    } else {
      RepresentedStarts(b, h, recs, i - 1);
      TotalStep(recs, i - 1);
      assert SlotHolds(b, h.indexCapacity, recs, i - 1);
    }
  }

  /** The converse: a file that represents good records under a good header is
      accepted, and decodes to exactly those records. */
  lemma RepresentsWellFormed(
    b: seq<Byte>, h: Header, recs: seq<Rec>, expected: Option<ArchiveIdentity>)
    requires Represents(b, h, recs) && GoodHeader(h, expected) && GoodRecs(recs)
    ensures WellFormed(b, expected) && WellFormed(b, None) && RecordsOf(b) == recs
    ensures ValidSize(b) == DataStart(h.indexCapacity) + Total(recs)
  {
    hide U32At, U64At;
    var n := |recs|;
    RepresentedStarts(b, h, recs, n);
    assert recs[..n] == recs;
    forall i | 0 <= i < n ensures GoodEntry(b, i) && RecordAt(b, i) == recs[i] {
      RepresentedStarts(b, h, recs, i);
      assert SlotHolds(b, h.indexCapacity, recs, i);
      assert GoodRec(recs[i]);
    }
    forall i, j | 0 <= i < j < n
      ensures EntryAt(b, i).startOffset != EntryAt(b, j).startOffset
    {
      assert SlotHolds(b, h.indexCapacity, recs, i) && SlotHolds(b, h.indexCapacity, recs, j);
    }
    assert RecordsOf(b) == recs;
  }

  lemma HeaderFrame(b: seq<Byte>, c: seq<Byte>)
    requires Agree(b, c, 0, HEADER_SIZE)
    ensures DecodeHeader(b) == DecodeHeader(c)
  {
    assert b[0..4] == c[0..4];
  }

  lemma EntryFrame(b: seq<Byte>, c: seq<Byte>, i: nat)
    requires Agree(b, c, SlotOffset(i), SlotOffset(i + 1))
    ensures EntryAt(b, i) == EntryAt(c, i)
  {}

  lemma SlotFrame(b: seq<Byte>, c: seq<Byte>, capacity: nat, recs: seq<Rec>, i: nat)
    requires i < |recs| <= capacity && SlotHolds(b, capacity, recs, i)
    requires Agree(b, c, HEADER_SIZE, SlotOffset(|recs|))
    requires Agree(b, c, DataStart(capacity), DataStart(capacity) + Total(recs))
    ensures SlotHolds(c, capacity, recs, i)
  {
    hide EntryAt;
    TotalStep(recs, i);
    EntryFrame(b, c, i);
    var s := PayloadAt(capacity, recs, i);
    AgreeSlice(b, c, DataStart(capacity), DataStart(capacity) + Total(recs),
               s, s + |recs[i].data|);
  }

  /** Only the used header, index slots and payload bytes matter. */
  lemma RepresentsFrame(b: seq<Byte>, c: seq<Byte>, h: Header, recs: seq<Rec>)
    requires Represents(b, h, recs)
    requires Agree(b, c, 0, SlotOffset(|recs|))
    requires Agree(b, c, DataStart(h.indexCapacity), DataStart(h.indexCapacity) + Total(recs))
    ensures Represents(c, h, recs)
  {
    hide DecodeHeader, EntryAt;
    HeaderFrame(b, c);
    forall i | 0 <= i < |recs| ensures SlotHolds(c, h.indexCapacity, recs, i) {
      SlotFrame(b, c, h.indexCapacity, recs, i);
    }
  }

  lemma SameSlice(b: seq<Byte>, c: seq<Byte>, s: nat, e: nat)
    requires s <= e <= |b| && e <= |c| && b[s..e] == c[s..e]
    ensures Agree(b, c, s, e)
  {
    forall q | s <= q < e ensures b[q] == c[q] {
      assert b[s..e][q - s] == c[s..e][q - s];
    }
  }

  lemma {:induction false} SlotsAgree(b: seq<Byte>, c: seq<Byte>, h: Header, recs: seq<Rec>, n: nat)
    requires Represents(b, h, recs) && Represents(c, h, recs) && n <= |recs|
    ensures Agree(b, c, 0, SlotOffset(n))
    ensures Agree(b, c, DataStart(h.indexCapacity), PayloadAt(h.indexCapacity, recs, n))
  {
    hide EntryAt, DecodeHeader, EncodeEntry, EncodeHeader;
    if n == 0 {
      assert recs[..0] == [];
      HeaderExact(b);
      HeaderExact(c);
      SameSlice(b, c, 0, HEADER_SIZE);
    } else {
      var i := n - 1;
      SlotsAgree(b, c, h, recs, i);
      assert SlotHolds(b, h.indexCapacity, recs, i) && SlotHolds(c, h.indexCapacity, recs, i);
      EntryExact(b, i);
      EntryExact(c, i);
      SameSlice(b, c, SlotOffset(i), SlotOffset(n));
      TotalStep(recs, i);
      SameSlice(b, c, PayloadAt(h.indexCapacity, recs, i), PayloadAt(h.indexCapacity, recs, n));
    }
  }

  /** And all of them matter: the format leaves no freedom in the committed part. */
  lemma RepresentsExact(b: seq<Byte>, c: seq<Byte>, h: Header, recs: seq<Rec>)
    requires Represents(b, h, recs)
    requires Represents(c, h, recs)
    ensures Agree(b, c, 0, SlotOffset(|recs|))
    ensures Agree(b, c, DataStart(h.indexCapacity), DataStart(h.indexCapacity) + Total(recs))
  {
    assert recs[..|recs|] == recs;
    SlotsAgree(b, c, h, recs, |recs|);
  }

  /** Tail recovery: dropping everything behind the valid size turns a file
      accepted with trailing data into one accepted strictly, with the same
      header and the same records. */
  lemma PrefixStable(b: seq<Byte>, expected: Option<ArchiveIdentity>)
    requires Accepts(b, expected, true)
    ensures ValidSize(b) <= |b|
    ensures Accepts(b[..ValidSize(b)], expected, false)
    ensures WellFormed(b, None) && WellFormed(b[..ValidSize(b)], None)
    ensures DecodeHeader(b[..ValidSize(b)]) == DecodeHeader(b)
    ensures RecordsOf(b[..ValidSize(b)]) == RecordsOf(b)
  {
    hide SlotHolds, GoodEntry, EntryAt, PayloadStart, GoodRecs;
    WellFormedRepresents(b, expected);
    var h, recs, c := DecodeHeader(b), RecordsOf(b), b[..ValidSize(b)];
    RepresentsFrame(b, c, h, recs);
    RepresentsWellFormed(c, h, recs, expected);
  }

  // -------------------------------------------------- the lookup table

  /** The map a reader gets: BSA start offset to payload. */
  function Table(recs: seq<Rec>): (m: map<U32, seq<Byte>>)
  {
    if recs == [] then map[]
    else Table(recs[..|recs| - 1])[recs[|recs| - 1].off := recs[|recs| - 1].data]
  }

  lemma {:induction false} TableConcat(a: seq<Rec>, b: seq<Rec>)
    ensures Table(a + b) == Table(a) + Table(b)
    decreases |b|
  {
    if b == [] {
      assert a + b == a;
    } else {
      var m := |b| - 1;
      assert (a + b)[..|a + b| - 1] == a + b[..m];
      TableConcat(a, b[..m]);
    }
  }

  lemma {:induction false} TableKeys(recs: seq<Rec>, k: U32)
    ensures k in Table(recs) <==> exists i :: 0 <= i < |recs| && recs[i].off == k
  {
    if recs != [] {
      var m := |recs| - 1;
      TableKeys(recs[..m], k);
      if k in Table(recs) {
        if recs[m].off != k {
          var i :| 0 <= i < m && recs[..m][i].off == k;
          assert recs[i].off == k;
        }
      }
      if i :| 0 <= i < |recs| && recs[i].off == k {
        if i < m { assert recs[..m][i].off == k; }
      }
    }
  }

  /** Looking an offset up yields the payload of its one record. */
  lemma {:induction false} TableLookup(recs: seq<Rec>, i: nat)
    requires i < |recs| && GoodRecs(recs)
    ensures recs[i].off in Table(recs) && Table(recs)[recs[i].off] == recs[i].data
  {
    var m := |recs| - 1;
    if i < m {
      TableLookup(recs[..m], i);
    }
  }
}
