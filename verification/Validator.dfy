/** The validator of cache files (Skyrim/src/CacheFormat.h, `Validate`), run on
    64-bit sizes and proved exact against `CacheFormat.Accepts`. */
module Validator {
  import opened Basics
  import opened ByteCodec
  import opened CacheFormat

  newtype uint64 = x: int | 0 <= x < TWO64

  const NO_ENTRY: int := TWO32 - 1

  datatype ValidationResult = ValidationResult(
    error: ValidationError,
    header: Option<Header>,
    dataStart: uint64,
    validSize: uint64,
    invalidEntry: int)

  // ------------------------------------------------ distinctness by sorting

  predicate Ascending(s: seq<int>) {
    forall i, j :: 0 <= i < j < |s| ==> s[i] <= s[j]
  }

  predicate NoRepeats(s: seq<int>) {
    forall i, j :: 0 <= i < j < |s| ==> s[i] != s[j]
  }

  /** The library sort; two lemmas below state its contract. */
  function Sort(a: seq<int>): seq<int> {
    if a == [] then [] else Insert(Sort(a[1..]), a[0])
  }

  function Insert(s: seq<int>, x: int): seq<int> {
    if s == [] then [x]
    else if x <= s[0] then [x] + s
    else [s[0]] + Insert(s[1..], x)
  }

  lemma {:induction false} InsertRearranges(s: seq<int>, x: int)
    ensures multiset(Insert(s, x)) == multiset(s) + multiset{x}
  {
    if s != [] && x > s[0] {
      assert s == [s[0]] + s[1..];
      InsertRearranges(s[1..], x);
    }
  }

  lemma {:induction false} InsertAscends(s: seq<int>, x: int)
    requires Ascending(s)
    ensures Ascending(Insert(s, x)) && Insert(s, x) != []
    ensures Insert(s, x)[0] == if s == [] || x <= s[0] then x else s[0]
  {
    if s != [] && x > s[0] {
      InsertAscends(s[1..], x);
    }
  }

  lemma {:induction false} SortSorts(a: seq<int>)
    ensures Ascending(Sort(a)) && multiset(Sort(a)) == multiset(a)
  {
    if a != [] {
      assert a == [a[0]] + a[1..];
      SortSorts(a[1..]);
      InsertAscends(Sort(a[1..]), a[0]);
      InsertRearranges(Sort(a[1..]), a[0]);
    }
  }

  lemma {:induction false} NoRepeatsIsCount(a: seq<int>)
    ensures NoRepeats(a) <==> forall x :: x in a ==> multiset(a)[x] == 1
  {
    if a != [] {
      var m := |a| - 1;
      var p, z := a[..m], a[m];
      assert a == p + [z];
      NoRepeatsIsCount(p);
      assert NoRepeats(a) <==> NoRepeats(p) && z !in p;
      assert multiset(a) == multiset(p) + multiset{z};
      if NoRepeats(a) {
        forall x | x in a ensures multiset(a)[x] == 1 { if x != z { assert x in p; } }
      }
      if forall x :: x in a ==> multiset(a)[x] == 1 {
        assert z in a;
        forall x | x in p ensures multiset(p)[x] == 1 { assert x in a; }
      }
    }
  }

  /** Rearranging does not change whether anything repeats. */
  lemma RepeatsSurviveSorting(a: seq<int>, s: seq<int>)
    requires multiset(a) == multiset(s)
    ensures NoRepeats(a) <==> NoRepeats(s)
  {
    NoRepeatsIsCount(a);
    NoRepeatsIsCount(s);
    assert forall x :: x in a <==> x in multiset(a);
    assert forall x :: x in s <==> x in multiset(s);
  }

  /** Sorting and then searching for two equal neighbours. */
  method HasDuplicate(offsets: seq<int>) returns (found: bool)
    ensures found <==> !NoRepeats(offsets)
  {
    var s := Sort(offsets);
    SortSorts(offsets);
    RepeatsSurviveSorting(offsets, s);
    found := false;
    var i := 1;
    while i < |s|
      invariant 1 <= i
      invariant i <= |s| || |s| == 0
      invariant forall j, k :: 0 <= j < k < i && k < |s| ==> s[j] < s[k]
    {
      if s[i - 1] == s[i] {
        return true;
      }
      i := i + 1;
    }
  }

  // ------------------------------------------------ what an error reports

  /** Every entry before `i` is in order. */
  ghost predicate GoodUpTo(b: seq<Byte>, i: nat, mode: Mode, hash: Hash)
    requires InIndex(b, i)
  {
    forall k :: 0 <= k < i ==> GoodEntry(b, k) && (mode.FullPayload? ==> GoodChecksum(b, k, hash))
  }

  /** The reported error is true of the file, and everything checked earlier held. */
  ghost predicate Explains(
    b: seq<Byte>, expected: Option<ArchiveIdentity>, mode: Mode, allowTrailing: bool,
    hash: Hash, r: ValidationResult)
  {
    match r.error
    case NoError => r.invalidEntry == NO_ENTRY
    case NullData => false
    case FileTooSmall => |b| < HEADER_SIZE
    case BadMagic => HEADER_SIZE <= |b| && ExplainsHeader(DecodeHeader(b), expected, r.error)
    case UnsupportedVersion =>
      HEADER_SIZE <= |b| && ExplainsHeader(DecodeHeader(b), expected, r.error)
    case ArchiveMismatch =>
      HEADER_SIZE <= |b| && ExplainsHeader(DecodeHeader(b), expected, r.error)
    case InvalidEntryCount =>
      HEADER_SIZE <= |b| && ExplainsHeader(DecodeHeader(b), expected, r.error)
    case IndexOutOfBounds =>
      HEADER_SIZE <= |b| && GoodHeader(DecodeHeader(b), expected) && !IndexFits(b)
    case TrailingData =>
      !allowTrailing && WellFormed(b, expected) && ValidSize(b) < |b|
    case DuplicateStartOffset =>
      IndexFits(b) && InIndex(b, DecodeHeader(b).entryCount)
      && GoodUpTo(b, DecodeHeader(b).entryCount, mode, hash)
      && !DistinctOffsets(b, DecodeHeader(b).entryCount)
    case _ =>
      && IndexFits(b) && 0 <= r.invalidEntry < DecodeHeader(b).entryCount
      && InIndex(b, r.invalidEntry + 1) && GoodUpTo(b, r.invalidEntry, mode, hash)
      && ExplainsEntry(b, r.invalidEntry, mode, hash, r.error)
  }

  ghost predicate ExplainsEntry(b: seq<Byte>, i: nat, mode: Mode, hash: Hash, error: ValidationError)
    requires InIndex(b, i + 1)
  {
    var e := EntryAt(b, i);
    match error
    case EmptyPayload => e.decompSize == 0
    case PayloadTooLarge => e.decompSize > MAX_PAYLOAD
    case NonContiguousPayload => e.cacheOffset != PayloadStart(b, i)
    case PayloadOutOfBounds => PayloadStart(b, i) + e.decompSize > |b|
    case PayloadChecksumMismatch =>
      mode.FullPayload? && GoodEntry(b, i) && !GoodChecksum(b, i, hash)
    case _ => false
  }

  /** What "no error" promises in the given mode. */
  ghost predicate Valid(
    b: seq<Byte>, expected: Option<ArchiveIdentity>, mode: Mode, allowTrailing: bool, hash: Hash)
  {
    && Accepts(b, expected, allowTrailing)
    && (mode.FullPayload? ==>
          forall i :: 0 <= i < DecodeHeader(b).entryCount ==> GoodChecksum(b, i, hash))
  }

  ghost predicate ExplainsHeader(h: Header, expected: Option<ArchiveIdentity>, error: ValidationError) {
    match error
    case BadMagic => h.magic != MAGIC
    case UnsupportedVersion => h.magic == MAGIC && h.version != VERSION
    case ArchiveMismatch =>
      && h.magic == MAGIC && h.version == VERSION && expected.Some?
      && ArchiveIdentity(h.bsaFileSize, h.bsaLastWrite, h.bsaFingerprint, h.bsaEntryCount)
         != expected.value
    case InvalidEntryCount =>
      && h.magic == MAGIC && h.version == VERSION
      && !(0 < h.entryCount <= h.indexCapacity <= MAX_CAPACITY
           && (expected.Some? ==> h.indexCapacity == expected.value.entryCount))
    case _ => false
  }

  /** The checks on the header alone. */
  method CheckHeader(h: Header, expected: Option<ArchiveIdentity>) returns (error: ValidationError)
    ensures error == NoError <==> GoodHeader(h, expected)
    ensures error != NoError ==> ExplainsHeader(h, expected, error)
  {
    if h.magic != MAGIC {
      return BadMagic;
    }
    if h.version != VERSION {
      return UnsupportedVersion;
    }
    if expected.Some?
       && (h.bsaFileSize != expected.value.fileSize
           || h.bsaLastWrite != expected.value.lastWrite
           || h.bsaFingerprint != expected.value.fingerprint
           || h.bsaEntryCount != expected.value.entryCount) {
      return ArchiveMismatch;
    }
    if h.indexCapacity == 0 || h.indexCapacity > MAX_CAPACITY
       || h.entryCount == 0 || h.entryCount > h.indexCapacity
       || (expected.Some?
           && (h.indexCapacity != expected.value.entryCount
               || h.entryCount > expected.value.entryCount)) {
      return InvalidEntryCount;
    }
    return NoError;
  }

  /** The index scan: walks the slots with a running payload cursor. */
  method CheckEntries(b: seq<Byte>, h: Header, dataStart: uint64, mode: Mode, hash: Hash)
    returns (error: ValidationError, failed: int, cursor: uint64, offsets: seq<int>)
    requires |b| < TWO64 && IndexFits(b) && DecodeHeader(b) == h
    requires 0 < h.entryCount <= h.indexCapacity && dataStart as int == DataStart(h.indexCapacity)
    ensures 0 <= failed < h.entryCount
    ensures error == NoError ==>
              && GoodUpTo(b, h.entryCount, mode, hash)
              && cursor as int == ValidSize(b) <= |b|
              && |offsets| == h.entryCount
              && forall k :: 0 <= k < h.entryCount ==> offsets[k] == EntryAt(b, k).startOffset
    ensures error != NoError ==>
              GoodUpTo(b, failed, mode, hash) && ExplainsEntry(b, failed, mode, hash, error)
  {
    hide EntryAt, U32At, U64At;
    error, failed, cursor, offsets := NoError, 0, dataStart, [];
    var size := |b| as uint64;
    var i: nat := 0;
    while i < h.entryCount
      invariant i <= h.entryCount && InIndex(b, i)
      invariant failed == if i == 0 then 0 else i - 1
      invariant error == NoError
      invariant cursor as int == PayloadStart(b, i) <= |b|
      invariant GoodUpTo(b, i, mode, hash)
      invariant |offsets| == i
      invariant forall k :: 0 <= k < i ==> offsets[k] == EntryAt(b, k).startOffset
    {
      var e := EntryAt(b, i);
      failed := i;
      offsets := offsets + [e.startOffset];
      if e.decompSize == 0 {
        error := EmptyPayload;
        return;
      }
      if e.decompSize > MAX_PAYLOAD {
        error := PayloadTooLarge;
        return;
      }
      if e.cacheOffset != cursor as int {
        error := NonContiguousPayload;
        return;
      }
      if cursor > size || e.decompSize as uint64 > size - cursor {
        error := PayloadOutOfBounds;
        return;
      }
      assert GoodEntry(b, i);
      if mode.FullPayload?
         && hash(b[cursor as int..cursor as int + e.decompSize]) != e.checksum {
        error := PayloadChecksumMismatch;
        return;
      }
      cursor := cursor + e.decompSize as uint64;
      i := i + 1;
    }
  }

  lemma EntryErrorsMatter(
    b: seq<Byte>, i: nat, mode: Mode, hash: Hash, error: ValidationError,
    expected: Option<ArchiveIdentity>, allowTrailing: bool)
    requires IndexFits(b) && i < DecodeHeader(b).entryCount && InIndex(b, i + 1)
    requires ExplainsEntry(b, i, mode, hash, error)
    ensures !Valid(b, expected, mode, allowTrailing, hash)
  {
    if WellFormed(b, expected) {
      assert GoodEntry(b, i);
    }
  }

  /** Accepts a file if and only if it is valid, for any content and any size a
      `size_t` can hold; `uint64` arithmetic never wraps on the way. */
  method Validate(
    data: Option<seq<Byte>>, expected: Option<ArchiveIdentity>, mode: Mode,
    allowTrailing: bool, hash: Hash)
    returns (r: ValidationResult)
    requires data.Some? ==> |data.value| < TWO64
    ensures r.error == NoError <==>
            data.Some? && Valid(data.value, expected, mode, allowTrailing, hash)
    ensures r.error == NoError ==>
              && r.header == Some(DecodeHeader(data.value))
              && r.validSize as int == ValidSize(data.value)
              && r.dataStart as int == DataStart(DecodeHeader(data.value).indexCapacity)
    ensures r.error == NullData <==> data.None?
    ensures data.Some? && r.error != NoError ==>
              Explains(data.value, expected, mode, allowTrailing, hash, r)
  {
    hide EntryAt, DecodeHeader, U32At, U64At;
    r := ValidationResult(NoError, None, 0, 0, NO_ENTRY);
    if data.None? {
      return r.(error := NullData);
    }
    var b := data.value;
    var size := |b| as uint64;
    if size < HEADER_SIZE as uint64 {
      return r.(error := FileTooSmall);
    }
    var h := DecodeHeader(b);
    r := r.(header := Some(h));
    var headerError := CheckHeader(h, expected);
    if headerError != NoError {
      return r.(error := headerError);
    }
    var afterHeader := size - HEADER_SIZE as uint64;
    if h.indexCapacity as uint64 > afterHeader / ENTRY_SIZE as uint64 {
      return r.(error := IndexOutOfBounds);
    }
    var indexBytes := h.indexCapacity as uint64 * ENTRY_SIZE as uint64;
    var dataStart := HEADER_SIZE as uint64 + indexBytes;
    r := r.(dataStart := dataStart);

    var error, failed, cursor, offsets := CheckEntries(b, h, dataStart, mode, hash);
    r := r.(invalidEntry := failed);
    if error != NoError {
      EntryErrorsMatter(b, failed, mode, hash, error, expected, allowTrailing);
      return r.(error := error);
    }
    var duplicate := HasDuplicate(offsets);
    assert NoRepeats(offsets) <==> DistinctOffsets(b, h.entryCount);
    if duplicate {
      return r.(error := DuplicateStartOffset);
    }
    r := r.(validSize := cursor);
    if cursor != size && !allowTrailing {
      return r.(error := TrailingData);
    }
    r := r.(invalidEntry := NO_ENTRY);
  }
}
