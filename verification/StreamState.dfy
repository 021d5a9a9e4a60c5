/** The side state the hooks keep for one compressed stream, and the capture of its
    payload (Skyrim/src/Hooks.cpp). */
module StreamState {
  import opened Basics
  import opened ByteCodec
  import opened ByteBudget
  import R = RangeClaims

  const MAX_CAPTURE_ENTRY: nat := 64 * 1024 * 1024

  /** `totalSize` is the declared decompressed size, zero while it is not known. */
  datatype StreamIdentity = StreamIdentity(source: nat, archive: Option<nat>, startOffset: U32, totalSize: U32)

  datatype CaptureStatus = Empty | Active | Completed | Invalid

  datatype SeekMode = Origin(origin: R.SeekOrigin) | UnknownMode

  datatype Call = Read(toRead: U64, hasBuffer: bool) | Seek(displacement: R.I64, mode: SeekMode)
  datatype Outcome = Bytes(data: seq<Byte>) | At(position: nat) | Failed

  // ------------------------------------------------------------- read policy

  datatype Progress = Progress(valid: bool, cursorAfter: U32)

  predicate SeekMoved(before: U32, after: U64) { after != before }

  function ValidateNativeProgress(cursorKnown: bool, cursorBefore: U32, knownSize: U32, requested: U64,
                                  read: U64, succeeded: bool, bufferAvailable: bool): Progress
  {
    if !cursorKnown || !succeeded || read > requested || (read > 0 && !bufferAvailable)
       || read > TWO32 - 1 - cursorBefore
    then Progress(false, cursorBefore)
    else if knownSize > 0 && (cursorBefore > knownSize || read > knownSize - cursorBefore)
    then Progress(false, cursorBefore)
    else Progress(true, cursorBefore + read)
  }

  /** Progress is accepted exactly when a known cursor advances by what was read, within
      the request, the 32-bit cursor and the declared size; otherwise nothing moves. */
  lemma ProgressIsExact(cursorKnown: bool, cursorBefore: U32, knownSize: U32, requested: U64,
                        read: U64, succeeded: bool, bufferAvailable: bool)
    ensures var p := ValidateNativeProgress(cursorKnown, cursorBefore, knownSize, requested, read, succeeded,
                                            bufferAvailable);
            && (p.valid <==>
                  && cursorKnown && succeeded && read <= requested && (read == 0 || bufferAvailable)
                  && cursorBefore + read < TWO32 && (knownSize == 0 || cursorBefore + read <= knownSize))
            && p.cursorAfter == if p.valid then cursorBefore + read else cursorBefore
  {
  }

  // ------------------------------------------------------------- the original

  /** The stock decompressor. `faulty` says that it did less than it could: a short or
      failed read. A failed read may leave the position anywhere; a failed seek leaves it. */
  class NativeStream {
    var payload: seq<Byte>
    var pos: nat

    ghost predicate Valid()
      reads this
    {
      pos <= |payload| < TWO32
    }

    constructor (payload: seq<Byte>, pos: nat)
      requires pos <= |payload| < TWO32
      ensures Valid() && this.payload == payload && this.pos == pos
    {
      this.payload, this.pos := payload, pos;
    }

    /** A failed open may leave either payload, at any position. */
    method Open(payload: seq<Byte>, succeeds: bool)
      requires Valid() && |payload| < TWO32
      modifies this
      ensures Valid()
      ensures succeeds ==> this.payload == payload && pos == 0
    {
      var replaced: bool, drift: int := *, *;
      if succeeds || replaced {
        this.payload := payload;
      }
      pos := if succeeds then 0 else R.Clamp(drift, |this.payload|);
    }

    method Read(toRead: U64, hasBuffer: bool) returns (ok: bool, data: seq<Byte>, read: U64, ghost faulty: bool)
      requires Valid()
      modifies this`pos
      ensures Valid()
      ensures ok ==> old(pos) <= pos <= old(pos) + toRead && data == payload[old(pos)..pos] && read == |data|
      ensures ok && data != [] ==> hasBuffer
      ensures faulty <==> !ok || |data| < Min(toRead, |payload| - old(pos))
      ensures faulty ==> toRead > 0
      ensures !faulty ==> toRead == 0 || hasBuffer
    {
      var most := Min(toRead, |payload| - pos);
      var fails, partial: bool := *, *;
      if toRead > 0 && (fails || !hasBuffer) {
        var drift: int, garbage: seq<Byte>, count: U64 := *, *, *;
        ok, data, read, faulty := false, garbage, count, true;
        pos := R.Clamp(drift, |payload|);
      } else {
        var short: int := *;
        var n := if partial && 0 <= short < most then short else most;
        var next := pos + n;
        ok, data, read, faulty := true, payload[pos..next], n, n < most;
        pos := next;
      }
    }

    method Seek(displacement: R.I64, mode: SeekMode) returns (ok: bool, position: U64, ghost faulty: bool)
      requires Valid()
      modifies this`pos
      ensures Valid()
      ensures ok ==>
                && mode.Origin?
                && pos == R.Clamp(R.Wanted(old(pos), |payload|, displacement, mode.origin), |payload|) == position
      ensures !ok ==> pos == old(pos)
      ensures faulty <==> !ok && mode.Origin?
    {
      position := *;
      ok := *;
      ok := ok && mode.Origin?;
      faulty := !ok && mode.Origin?;
      if mode.Origin? && ok {
        pos := R.Clamp(R.Wanted(pos, |payload|, displacement, mode.origin), |payload|);
        position := pos;
      }
    }
  }

  // ------------------------------------------------------------ the side state

  class CompressedStreamState {
    const identity: StreamIdentity
    var logicalCursor: U32
    var cursorKnown: bool
    var cacheLookupAttempted: bool
    var cacheData: Option<seq<Byte>>
    var captureStatus: CaptureStatus
    var nextCaptureOffset: U32
    var captureBuffer: seq<Byte>
    var accountedCaptureBytes: U64

    /** Cached bytes are the payload and imply a known cursor inside it; an active capture
        holds exactly the payload's prefix and has paid for the whole entry; no other
        state holds bytes or a charge. */
    ghost predicate Valid(payload: seq<Byte>)
      reads this
    {
      && (cacheData.Some? ==> cacheData.value == payload && payload != [] && cursorKnown
                              && logicalCursor <= |payload| && cacheLookupAttempted)
      && (captureStatus.Active? ==>
            && nextCaptureOffset < identity.totalSize && nextCaptureOffset <= |payload|
            && captureBuffer == payload[..nextCaptureOffset]
            && accountedCaptureBytes == identity.totalSize)
      && (captureStatus.Empty? ==> nextCaptureOffset == 0)
      && (!captureStatus.Active? ==> captureBuffer == [] && accountedCaptureBytes == 0)
    }

    constructor (identity: StreamIdentity, initialCursor: U32)
      ensures this.identity == identity && logicalCursor == initialCursor && cursorKnown
      ensures cacheData.None? && !cacheLookupAttempted && captureStatus.Empty?
      ensures nextCaptureOffset == 0 && captureBuffer == [] && accountedCaptureBytes == 0
    {
      this.identity, logicalCursor, cursorKnown := identity, initialCursor, true;
      cacheLookupAttempted, cacheData, captureStatus := false, None, Empty;
      nextCaptureOffset, captureBuffer, accountedCaptureBytes := 0, [], 0;
    }

    /** Returns the charge; the budget's counter drops by exactly that. */
    method ClearCaptureBuffer(budget: AtomicByteBudget)
      requires accountedCaptureBytes <= budget.used
      modifies this`captureBuffer, this`accountedCaptureBytes, budget
      ensures captureBuffer == [] && accountedCaptureBytes == 0
      ensures budget.used == old(budget.used) - old(accountedCaptureBytes)
    {
      if accountedCaptureBytes > 0 {
        var _, _ := budget.Release(accountedCaptureBytes, []);
        accountedCaptureBytes := 0;
      }
      captureBuffer := [];
    }

    method InvalidateCapture(budget: AtomicByteBudget)
      requires accountedCaptureBytes <= budget.used
      modifies this`captureStatus, this`captureBuffer, this`accountedCaptureBytes, budget
      ensures captureStatus.Invalid? && captureBuffer == [] && accountedCaptureBytes == 0
      ensures budget.used == old(budget.used) - old(accountedCaptureBytes)
    {
      captureStatus := Invalid;
      ClearCaptureBuffer(budget);
    }

    method ResetCaptureAfterSeek(budget: AtomicByteBudget, logicalOffset: U32)
      requires accountedCaptureBytes <= budget.used
      modifies this`captureStatus, this`nextCaptureOffset, this`captureBuffer, this`accountedCaptureBytes, budget
      ensures captureStatus == (if logicalOffset == 0 then Empty else Invalid) && nextCaptureOffset == 0
      ensures captureBuffer == [] && accountedCaptureBytes == 0
      ensures budget.used == old(budget.used) - old(accountedCaptureBytes)
    {
      ClearCaptureBuffer(budget);
      nextCaptureOffset := 0;
      captureStatus := if logicalOffset == 0 then Empty else Invalid;
    }

    /** Charges the whole entry before the first byte is kept. */
    method BeginCapture(budget: AtomicByteBudget, totalSize: U32, memory: bool) returns (ok: bool)
      requires accountedCaptureBytes <= budget.used
      modifies this`captureStatus, this`nextCaptureOffset, this`captureBuffer, this`accountedCaptureBytes, budget
      ensures ok ==> && captureStatus.Active? && nextCaptureOffset == 0 && captureBuffer == []
                     && accountedCaptureBytes == totalSize > 0
      ensures !ok ==> captureStatus.Invalid? && captureBuffer == [] && accountedCaptureBytes == 0
      ensures ok <==> 0 < totalSize && memory && old(budget.used - accountedCaptureBytes) + totalSize <= budget.limit
      ensures budget.used - accountedCaptureBytes == old(budget.used - accountedCaptureBytes)
      ensures old(budget.used) <= budget.limit ==> budget.used <= budget.limit
    {
      ClearCaptureBuffer(budget);
      if totalSize == 0 {
        captureStatus := Invalid;
        return false;
      }
      var reserved, _ := budget.TryReserve(totalSize, []);
      if !reserved {
        captureStatus := Invalid;
        return false;
      }
      accountedCaptureBytes := totalSize;
      if !memory {
        captureStatus := Invalid;
        ClearCaptureBuffer(budget);
        return false;
      }
      nextCaptureOffset := 0;
      captureStatus := Active;
      return true;
    }

    /** Appends bytes just read at the capture offset. A completed capture is handed out
        with its charge; it is the payload's prefix of the declared size. */
    method AppendCapture(budget: AtomicByteBudget, data: seq<Byte>, beginCapture: bool, memory: bool,
                         ghost payload: seq<Byte>)
        returns (completed: Option<seq<Byte>>, charge: U64)
      requires Valid(payload) && accountedCaptureBytes <= budget.used
      requires beginCapture ==> captureStatus.Empty?
      requires captureStatus.Active? || beginCapture ==>
                 && nextCaptureOffset + |data| <= |payload|
                 && data == payload[nextCaptureOffset..nextCaptureOffset + |data|]
      modifies this`captureStatus, this`nextCaptureOffset, this`captureBuffer, this`accountedCaptureBytes, budget
      ensures Valid(payload)
      ensures budget.used - accountedCaptureBytes - charge == old(budget.used - accountedCaptureBytes)
      ensures old(budget.used) <= budget.limit ==> budget.used <= budget.limit
      ensures completed.None? ==> charge == 0
      ensures var fits := data != [] && old(nextCaptureOffset) + |data| <= identity.totalSize && memory;
              var paid := if beginCapture
                          then old(budget.used - accountedCaptureBytes) + identity.totalSize <= budget.limit
                          else old(captureStatus.Active?);
              if fits && paid then
                && nextCaptureOffset == old(nextCaptureOffset) + |data|
                && (completed.Some? <==> nextCaptureOffset == identity.totalSize)
                && captureStatus == (if completed.Some? then Completed else Active)
              else completed.None? && captureStatus.Invalid?
      ensures completed.Some? ==>
                && 0 < |completed.value| == identity.totalSize && completed.value <= payload
                && captureStatus.Completed?
    {
      completed, charge := None, 0;
      var totalSize := identity.totalSize;
      if data == [] || nextCaptureOffset > totalSize || |data| > totalSize - nextCaptureOffset {
        InvalidateCapture(budget);
        return;
      }
      if beginCapture {
        var began := BeginCapture(budget, totalSize, memory);
        if !began {
          return;
        }
      }
      if captureStatus != Active || |data| > totalSize - nextCaptureOffset {
        InvalidateCapture(budget);
        return;
      }
      if !memory {
        InvalidateCapture(budget);
        return;
      }
      ghost var start := nextCaptureOffset;
      captureBuffer := captureBuffer + data;
      nextCaptureOffset := nextCaptureOffset + |data|;
      assert payload[..start] + payload[start..start + |data|] == payload[..start + |data|];
      if nextCaptureOffset == totalSize && |captureBuffer| == totalSize {
        charge := accountedCaptureBytes;
        accountedCaptureBytes := 0;
        completed := Some(captureBuffer);
        captureBuffer := [];
        captureStatus := Completed;
      }
    }

    /** Everything a first attachment needs. */
    predicate WillAttach(suppressed: bool, serve: bool, ready: bool, found: Option<seq<Byte>>)
      reads this
    {
      && !cacheLookupAttempted && cursorKnown && identity.archive.Some? && identity.totalSize != 0
      && !suppressed && serve && ready && found.Some? && |found.value| == identity.totalSize
    }

    /** Attaches a cached entry of the declared size. The entry found for this archive and
        offset is the payload whenever its size is right. */
    method TryAttachCachedEntry(budget: AtomicByteBudget, ghost payload: seq<Byte>, suppressed: bool, serve: bool,
                                ready: bool, found: Option<seq<Byte>>)
      requires Valid(payload) && accountedCaptureBytes <= budget.used
      requires cursorKnown ==> logicalCursor <= |payload|
      requires cacheData.None? && found.Some? && |found.value| == identity.totalSize ==> found.value == payload
      modifies this`cacheLookupAttempted, this`cacheData, this`captureStatus, this`captureBuffer,
               this`accountedCaptureBytes, budget
      ensures Valid(payload)
      ensures budget.used - accountedCaptureBytes == old(budget.used - accountedCaptureBytes)
      ensures budget.used <= old(budget.used)
      ensures old(cacheData.Some?) ==> cacheData == old(cacheData)
      ensures old(cacheData.None?) ==>
                cacheData == if && !old(cacheLookupAttempted) && old(cursorKnown)
                                && identity.archive.Some? && identity.totalSize != 0
                                && !suppressed && serve && ready && found.Some? && |found.value| == identity.totalSize
                             then found else None
      ensures cacheLookupAttempted <==>
                || old(cacheLookupAttempted)
                || (cursorKnown && identity.archive.Some? && identity.totalSize != 0 && !suppressed
                    && (serve ==> ready))
      ensures old(cacheData.None?) && cacheData.Some? ==> captureStatus.Invalid?
      ensures cacheData.None? || old(cacheData.Some?) ==>
                && captureStatus == old(captureStatus) && captureBuffer == old(captureBuffer)
                && accountedCaptureBytes == old(accountedCaptureBytes) && budget.used == old(budget.used)
    {
      if cacheLookupAttempted || !cursorKnown || identity.archive.None? || identity.totalSize == 0 || suppressed {
        return;
      }
      if !serve {
        cacheLookupAttempted := true;
        return;
      }
      if !ready {
        return;
      }
      cacheLookupAttempted := true;
      if found.None? || |found.value| != identity.totalSize {
        return;
      }
      cacheData := found;
      InvalidateCapture(budget);
    }

    /** Serves the next range of the cached payload. `unusable` is a condemned mapping,
        `faults` a failed copy; both leave the cursor where it was. */
    method ServeCachedRead(toRead: U64, hasBuffer: bool, unusable: bool, faults: bool, ghost payload: seq<Byte>)
        returns (outcome: Outcome)
      requires Valid(payload) && cacheData.Some? && |payload| < TWO32
      modifies this`logicalCursor
      ensures Valid(payload)
      ensures outcome.Bytes? ==>
                && (toRead == 0 || hasBuffer)
                && logicalCursor == old(logicalCursor) + Min(toRead, |payload| - old(logicalCursor))
                && outcome.data == payload[old(logicalCursor)..logicalCursor]
      ensures !outcome.Bytes? ==> outcome.Failed? && logicalCursor == old(logicalCursor)
      ensures (toRead == 0 || hasBuffer) && !unusable && !faults ==> outcome.Bytes?
    {
      var data := cacheData.value;
      if |data| == 0 || (toRead > 0 && !hasBuffer) || unusable {
        return Failed;
      }
      var decision := R.ClaimAt(0, |data|, toRead, logicalCursor);
      var claim := decision.result;
      if claim.status.Invalid? {
        return Failed;
      }
      if decision.Write? {
        logicalCursor := decision.next;
      }
      if claim.size > 0 && faults {
        logicalCursor := claim.absoluteOffset;
        return Failed;
      }
      return Bytes(data[claim.relativeOffset..claim.relativeOffset + claim.size]);
    }
  }
}
