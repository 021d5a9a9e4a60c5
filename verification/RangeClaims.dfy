/** Claims of disjoint ranges from a shared 32-bit cursor, and clamped seeks
    (Skyrim/src/StreamCursor.h). */
module RangeClaims {
  import opened Basics
  import opened ByteCodec
  import opened CasLoop

  const INT64_MIN: int := -0x8000_0000_0000_0000
  const INT64_MAX: int := 0x7FFF_FFFF_FFFF_FFFF
  type I64 = x: int | INT64_MIN <= x <= INT64_MAX

  datatype ClaimStatus = Claimed | EndOfStream | Invalid
  datatype RangeClaim = RangeClaim(status: ClaimStatus, absoluteOffset: U32, relativeOffset: U32, size: U32)

  const NO_CLAIM := RangeClaim(Invalid, 0, 0, 0)

  /** The decision of one round of the claim loop, from the observed cursor. */
  function ClaimAt(startOffset: U32, totalSize: U32, requested: U64, observed: nat): Outcome<RangeClaim> {
    if startOffset + totalSize >= TWO32 then Stop(NO_CLAIM)
    else if observed < startOffset || observed > startOffset + totalSize then Stop(NO_CLAIM)
    else
      var size: U32 := Min(requested, startOffset + totalSize - observed);
      if size == 0 then
        Stop(RangeClaim(if observed == startOffset + totalSize then EndOfStream else Claimed,
                        observed, observed - startOffset, 0))
      else Write(observed + size, RangeClaim(Claimed, observed, observed - startOffset, size))
  }

  type Claims = seq<Finished<U64, RangeClaim>>

  /** Some claim of the log took this cursor position. */
  ghost predicate Covered(log: Claims, p: int) {
    exists k :: 0 <= k < |log| && log[k].before <= p < log[k].before + log[k].outcome.result.size
  }

  /** Claims in a history: each starts where the one before it ended, none overlaps an
      earlier one, each is as large as its request allows at that point, none leaves the
      entry, and none is invalid. */
  lemma {:induction false} ClaimsTile(startOffset: U32, totalSize: U32, start: nat, log: Claims, end: nat)
    requires startOffset <= start <= startOffset + totalSize < TWO32
    requires Sequential((q: U64, c: nat) => ClaimAt(startOffset, totalSize, q, c), start, log, end)
    ensures start <= end <= startOffset + totalSize
    ensures forall k :: 0 <= k < |log| ==>
              var r := log[k].outcome.result;
              && start <= log[k].before == r.absoluteOffset
              && r.absoluteOffset + r.size == log[k].After() <= end
              && r.relativeOffset == r.absoluteOffset - startOffset
              && r.size == Min(log[k].request, startOffset + totalSize - r.absoluteOffset)
              && (r.status.EndOfStream? <==> r.absoluteOffset == startOffset + totalSize)
              && !r.status.Invalid?
    ensures forall j, k :: 0 <= j < k < |log| ==> log[j].After() <= log[k].before
  {
    if log != [] {
      var last := log[|log| - 1];
      ClaimsTile(startOffset, totalSize, start, log[..|log| - 1], last.before);
    }
  }

  /** Together the claims cover exactly what the cursor passed over. */
  lemma {:induction false} ClaimsCover(startOffset: U32, totalSize: U32, start: nat, log: Claims, end: nat, p: int)
    requires startOffset <= start <= startOffset + totalSize < TWO32
    requires Sequential((q: U64, c: nat) => ClaimAt(startOffset, totalSize, q, c), start, log, end)
    ensures Covered(log, p) <==> start <= p < end
  {
    ClaimsTile(startOffset, totalSize, start, log, end);
    if log != [] {
      var m := |log| - 1;
      var prior := log[..m];
      ClaimsCover(startOffset, totalSize, start, prior, log[m].before, p);
      assert log[m].before + log[m].outcome.result.size == end;
      if Covered(log, p) {
        var k :| 0 <= k < |log| && log[k].before <= p < log[k].before + log[k].outcome.result.size;
        assert log[k].After() <= end && start <= log[k].before;
      }
      if Covered(prior, p) {
        var k :| 0 <= k < |prior| && prior[k].before <= p < prior[k].before + prior[k].outcome.result.size;
        assert log[k] == prior[k];
      }
    }
  }

  /** A range that cannot be valid never moves the cursor, whoever claims. */
  lemma {:induction false} InvalidClaimsNeverWrite(startOffset: U32, totalSize: U32, start: nat, log: Claims, end: nat)
    requires startOffset + totalSize >= TWO32 || start < startOffset || start > startOffset + totalSize
    requires Sequential((q: U64, c: nat) => ClaimAt(startOffset, totalSize, q, c), start, log, end)
    ensures end == start
    ensures forall k :: 0 <= k < |log| ==> log[k].outcome.result == NO_CLAIM && log[k].before == start
  {
    if log != [] {
      var last := log[|log| - 1];
      InvalidClaimsNeverWrite(startOffset, totalSize, start, log[..|log| - 1], last.before);
    }
  }

  /** Any threads, any requests, any order of loads and swaps, any spurious failures. */
  lemma ConcurrentClaimsTile(startOffset: U32, totalSize: U32, s: System<U64, RangeClaim>, run: seq<Move<U64>>)
    requires var op := (q: U64, c: nat) => ClaimAt(startOffset, totalSize, q, c);
             Runs(op, s, run)
    requires s.log == [] && startOffset <= s.cell <= startOffset + totalSize < TWO32
    ensures var op := (q: U64, c: nat) => ClaimAt(startOffset, totalSize, q, c);
            var t := Replay(op, s, run);
            && s.cell <= t.cell <= startOffset + totalSize
            && (forall p: int :: Covered(t.log, p) <==> s.cell <= p < t.cell)
            && (forall j, k :: 0 <= j < k < |t.log| ==> t.log[j].After() <= t.log[k].before)
            && (forall k :: 0 <= k < |t.log| ==>
                  && t.log[k].before <= startOffset + totalSize
                  && t.log[k].outcome.result.size == Min(t.log[k].request, startOffset + totalSize - t.log[k].before))
  {
    var op := (q: U64, c: nat) => ClaimAt(startOffset, totalSize, q, c);
    Linearises(op, s.cell, s, run);
    var t := Replay(op, s, run);
    ClaimsTile(startOffset, totalSize, s.cell, t.log, t.cell);
    forall p: int ensures Covered(t.log, p) <==> s.cell <= p < t.cell {
      ClaimsCover(startOffset, totalSize, s.cell, t.log, t.cell, p);
    }
  }

  // ------------------------------------------------------------ the claim loop

  class Cursor {
    var value: U32
    constructor (value: U32) ensures this.value == value { this.value := value; }
  }

  /** One caller's loop. `others` is what happens before each of its attempts; after that
      it is alone. `at` is the cursor at the point where the claim takes effect. */
  method ClaimRange(cursor: Cursor, startOffset: U32, totalSize: U32, requested: U64, others: seq<Interference<U32>>)
      returns (claim: RangeClaim, ghost at: U32)
    modifies cursor
    ensures at == old(cursor.value) || exists i :: 0 <= i < |others| && others[i].written == at
    ensures claim == ClaimAt(startOffset, totalSize, requested, at).result
    ensures ClaimAt(startOffset, totalSize, requested, at).Write? ==> cursor.value == at + claim.size
    ensures others == [] ==> at == old(cursor.value) && (claim.size == 0 ==> cursor.value == old(cursor.value))
  {
    if startOffset + totalSize >= TWO32 {
      return NO_CLAIM, cursor.value;
    }
    var endOffset := startOffset + totalSize;
    var observed := cursor.value;
    var i := 0;
    while true
      invariant i <= |others|
      invariant observed == old(cursor.value) || exists k :: 0 <= k < |others| && others[k].written == observed
      invariant i == 0 ==> cursor.value == old(cursor.value) == observed
      invariant i == |others| ==> cursor.value == observed
      decreases |others| - i
    {
      if observed < startOffset || observed > endOffset {
        return NO_CLAIM, observed;
      }
      var remaining := endOffset - observed;
      var size := Min(requested, remaining);
      if size == 0 {
        return RangeClaim(if observed == endOffset then EndOfStream else Claimed, observed,
                          observed - startOffset, 0), observed;
      }
      var spurious := false;
      if i < |others| {
        cursor.value := others[i].written;
        spurious := others[i].spurious;
      }
      if cursor.value == observed && !spurious {
        cursor.value := observed + size;
        return RangeClaim(Claimed, observed, observed - startOffset, size), observed;
      }
      observed := cursor.value;
      i := i + 1;
    }
  }

  // ------------------------------------------------------------- clamped seeks

  datatype SeekOrigin = Begin | Current | End
  datatype SeekResult = SeekResult(valid: bool, absoluteOffset: U32, relativeOffset: U32)

  function Clamp(x: int, size: nat): nat { if x < 0 then 0 else if x > size then size else x }

  /** The position a seek asks for, before clamping. */
  function Wanted(position: nat, size: nat, displacement: int, origin: SeekOrigin): int {
    displacement + match origin case Begin => 0 case Current => position case End => size
  }

  /** The source's arithmetic: magnitudes in 64 unsigned bits, never negating INT64_MIN. */
  function ClampSeek(current: U32, startOffset: U32, totalSize: U32, displacement: I64, origin: SeekOrigin)
    : SeekResult
  {
    if startOffset + totalSize >= TWO32 || current < startOffset || current > startOffset + totalSize then
      SeekResult(false, 0, 0)
    else
      var base: U64 := match origin case Begin => 0 case Current => current - startOffset case End => totalSize;
      var relative: U64 :=
        if displacement >= 0 then
          if displacement > totalSize - Min(base, totalSize) then totalSize else base + displacement
        else
          var magnitude: U64 := -(displacement + 1) + 1;
          if magnitude > base then 0 else base - magnitude;
      var relative: U32 := Min(relative, totalSize);
      SeekResult(true, startOffset + relative, relative)
  }

  /** No intermediate value overflows 64 bits. The seek is valid exactly when the cursor stands
      inside an addressable entry, and it then goes to the wanted position clamped to the
      entry. */
  lemma ClampSeekClamps(current: U32, startOffset: U32, totalSize: U32, displacement: I64, origin: SeekOrigin)
    ensures var r := ClampSeek(current, startOffset, totalSize, displacement, origin);
            && (r.valid <==> startOffset <= current <= startOffset + totalSize < TWO32)
            && (r.valid ==>
                  && r.relativeOffset
                     == Clamp(Wanted(current - startOffset, totalSize, displacement, origin), totalSize)
                  && r.absoluteOffset == startOffset + r.relativeOffset)
  {
  }
}
