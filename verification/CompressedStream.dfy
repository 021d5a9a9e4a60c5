/** The hooked virtual functions of one compressed stream, called in sequence
    (Skyrim/src/Hooks.cpp). The stream may switch once from the stock decompressor to
    cached bytes; callers must not be able to tell. */
module CompressedStream {
  import opened Basics
  import opened ByteCodec
  import opened ByteBudget
  import opened StreamState

  // ------------------------------------------------------- observed behaviour

  /** One call as its caller saw it, with the stream position before and after. `faulty`
      is that the stock decompressor fell short in it, `native` that it did the work,
      `cached` that the stream was served from cache when the call ended, `bypassed` that
      the hooks could not look up their side state and only passed the call on. */
  datatype Event = Event(call: Call, outcome: Outcome, before: nat, after: nat,
                         faulty: bool, native: bool, cached: bool, bypassed: bool)

  /** What a sound unhooked stream answers at a position, and where it is afterwards. */
  function Unhooked(payload: seq<Byte>, position: nat, call: Call): (Outcome, nat)
    requires position <= |payload|
  {
    match call
    case Read(toRead, hasBuffer) =>
      var next := position + Min(toRead, |payload| - position);
      if toRead > 0 && !hasBuffer then (Failed, position) else (Bytes(payload[position..next]), next)
    case Seek(displacement, mode) =>
      if mode.UnknownMode? then (Failed, position)
      else
        var target := R.Clamp(R.Wanted(position, |payload|, displacement, mode.origin), |payload|);
        (At(target), target)
  }

  /** A call answered as by an unhooked stream: in full, or refused with the position
      unmoved; a faulty decompressor may deliver less of the same bytes or fail anywhere. */
  predicate Honest(payload: seq<Byte>, e: Event) {
    && e.before <= |payload| && e.after <= |payload|
    && (!e.faulty ==>
          || (e.outcome, e.after) == Unhooked(payload, e.before, e.call)
          || (e.outcome == Failed && e.after == e.before && !e.native))
    && (e.faulty ==>
          && e.native
          && (e.outcome.Bytes? ==>
                e.call.Read? && e.before <= e.after < e.before + Min(e.call.toRead, |payload| - e.before)
                && e.outcome.data == payload[e.before..e.after])
          && !e.outcome.At?
          && (e.call.Seek? ==> e.after == e.before))
  }

  /** The calls of one generation, each honest, each starting where the one before it
      ended, and once cached bytes were attached none using the decompressor, but for
      calls that bypassed the hooks. */
  ghost predicate HonestLog(payload: seq<Byte>, start: nat, log: seq<Event>, end: nat) {
    && (forall i :: 0 <= i < |log| ==> Honest(payload, log[i]))
    && (forall i :: 0 <= i < |log| - 1 ==> log[i].after == log[i + 1].before)
    && (if log == [] then start == end else log[0].before == start && log[|log| - 1].after == end)
    && (forall i, j :: 0 <= i < j < |log| && log[i].cached ==> Serves(log[j]))
  }

  /** The call was served from cache, or bypassed the hooks while that was so. */
  predicate Serves(e: Event) { e.cached && (e.native ==> e.bypassed) }

  lemma HonestLogGrows(payload: seq<Byte>, start: nat, log: seq<Event>, end: nat, e: Event)
    requires HonestLog(payload, start, log, end) && Honest(payload, e) && e.before == end
    requires log != [] && log[|log| - 1].cached ==> Serves(e)
    ensures HonestLog(payload, start, log + [e], e.after)
  {
    var more := log + [e];
    forall i, j | 0 <= i < j < |more| && more[i].cached ensures Serves(more[j]) {
      if j == |log| && i < |log| - 1 {
        assert Serves(log[|log| - 1]);
      }
    }
  }

  // ------------------------------------------------------- replay theorem

  /** The answered calls: all but those refused with the position unmoved. */
  function Answered(log: seq<Event>): seq<Event> {
    if log == [] then []
    else
      var e := log[|log| - 1];
      Answered(log[..|log| - 1]) + if e.outcome == Failed && e.after == e.before then [] else [e]
  }

  function Calls(log: seq<Event>): seq<Call> { seq(|log|, i requires 0 <= i < |log| => log[i].call) }
  function Outcomes(log: seq<Event>): seq<Outcome> { seq(|log|, i requires 0 <= i < |log| => log[i].outcome) }

  /** The answers an unhooked stream gives to a sequence of calls, and where it ends. */
  function UnhookedRun(payload: seq<Byte>, start: nat, calls: seq<Call>): (r: (seq<Outcome>, nat))
    requires start <= |payload|
    ensures r.1 <= |payload|
  {
    if calls == [] then ([], start)
    else
      var (outcomes, position) := UnhookedRun(payload, start, calls[..|calls| - 1]);
      var (outcome, next) := Unhooked(payload, position, calls[|calls| - 1]);
      (outcomes + [outcome], next)
  }

  lemma HonestPrior(payload: seq<Byte>, start: nat, log: seq<Event>, end: nat)
    requires HonestLog(payload, start, log, end) && log != []
    ensures var e := log[|log| - 1];
            HonestLog(payload, start, log[..|log| - 1], e.before) && Honest(payload, e) && e.after == end
  {
  }

  lemma Append(log: seq<Event>, e: Event)
    ensures Calls(log + [e]) == Calls(log) + [e.call]
    ensures Outcomes(log + [e]) == Outcomes(log) + [e.outcome]
  {
  }

  lemma UnhookedRunMore(payload: seq<Byte>, start: nat, calls: seq<Call>, call: Call)
    requires start <= |payload|
    ensures var (outcomes, position) := UnhookedRun(payload, start, calls);
            var (outcome, next) := Unhooked(payload, position, call);
            UnhookedRun(payload, start, calls + [call]) == (outcomes + [outcome], next)
  {
    assert (calls + [call])[..|calls|] == calls;
  }

  /** Over a sound decompressor, whatever the hooks did and whenever the cache took over,
      the caller got exactly the answers, bytes and positions of an unhooked stream given
      the same calls, leaving out those that were refused without effect. */
  lemma {:induction false} HookedRefinesUnhooked(payload: seq<Byte>, start: nat, log: seq<Event>, end: nat)
    requires start <= |payload|
    requires HonestLog(payload, start, log, end)
    requires forall e <- log :: !e.faulty
    ensures UnhookedRun(payload, start, Calls(Answered(log))) == (Outcomes(Answered(log)), end)
  {
    if log == [] {
      assert Calls(Answered(log)) == [] && Outcomes(Answered(log)) == [];
    } else {
      hide Unhooked, HonestLog, Calls, Outcomes, UnhookedRun;
      var m := |log| - 1;
      var e, prior := log[m], log[..m];
      HonestPrior(payload, start, log, end);
      HookedRefinesUnhooked(payload, start, prior, e.before);
      assert e in log;
      if !(e.outcome == Failed && e.after == e.before) {
        Append(Answered(prior), e);
        UnhookedRunMore(payload, start, Calls(Answered(prior)), e.call);
      } else {
        assert Answered(log) == Answered(prior);
      }
    }
  }

  // ------------------------------------------------------------- the hooks

  /** A payload handed to `RecordDecompressed`. */
  datatype Handover = Handover(identity: StreamIdentity, data: seq<Byte>)

  /** What settings, the load phase, the cache and its mapping are like during a call. */
  datatype Surroundings = Surroundings(
    suppressed: bool, serve: bool, ready: bool, found: Option<seq<Byte>>,
    building: bool, cacheLimit: nat, unusable: bool, faults: bool, memory: bool)

  /** The calls that answer alike at the cursor and at the decompressor's position, and move
      neither the caller nor what he is told: a read of nothing, without a buffer, or with
      both at the end; a seek of unknown mode; an absolute seek to the cursor; a relative one
      by nothing, or against an end of the payload at which the cursor stands and where it
      takes the decompressor too. */
  predicate Idle(size: nat, cursor: nat, pos: nat, call: Call) {
    match call
    case Read(toRead, hasBuffer) => toRead == 0 || !hasBuffer || cursor == size == pos
    case Seek(displacement, UnknownMode) => true
    case Seek(displacement, Origin(Begin)) => cursor == R.Clamp(displacement, size)
    case Seek(displacement, Origin(End)) => cursor == R.Clamp(size + displacement, size)
    case Seek(displacement, Origin(Current)) =>
      || (displacement == 0 && pos == cursor)
      || (displacement <= 0 && cursor == 0 && pos + displacement <= 0)
      || (displacement >= 0 && cursor == size && pos + displacement >= size)
  }

  /** These are exactly the calls with the same answer at both positions whose caller stays. */
  lemma IdleIff(payload: seq<Byte>, cursor: nat, pos: nat, call: Call)
    requires cursor <= |payload| && pos <= |payload|
    ensures Idle(|payload|, cursor, pos, call) <==>
              && Unhooked(payload, pos, call).0 == Unhooked(payload, cursor, call).0
              && Unhooked(payload, cursor, call).1 == cursor
  {
    match call {
      case Read(toRead, hasBuffer) =>
        if toRead > 0 && hasBuffer {
          var next := pos + Min(toRead, |payload| - pos);
          assert |payload[pos..next]| == next - pos;
        }
      case Seek(displacement, mode) =>
    }
  }

  predicate SameGeneration(a: StreamIdentity, b: StreamIdentity) {
    a.source == b.source && a.startOffset == b.startOffset
  }

  class HookedStream {
    const native: NativeStream
    const budget: AtomicByteBudget
    /** Budget bytes charged to other streams. */
    ghost const others: nat
    var state: CompressedStreamState?
    ghost var start: nat
    ghost var log: seq<Event>

    ghost predicate Cached()
      reads this, state
    {
      state != null && state.cacheData.Some?
    }

    /** The side state, if there is one, does not know where the stream is. */
    predicate Unguided()
      reads this, state
    {
      state == null || !state.cursorKnown
    }

    /** Where the hooks take the caller to be. */
    ghost function Position(): nat
      reads this, state, native
    {
      if Unguided() then native.pos else state.logicalCursor
    }

    function Charge(): nat
      reads this, state
    {
      if state == null then 0 else state.accountedCaptureBytes
    }

    /** The side state is sound, nothing served from cache is captured, and the budget holds
        this stream's charge. */
    ghost predicate Sound()
      reads this, state, native, budget
    {
      && native.Valid()
      && (state != null ==> state.Valid(native.payload))
      && (Cached() ==> !state.captureStatus.Active?)
      && budget.used == others + Charge() && budget.used <= budget.limit
    }

    /** A known cursor of an unattached stream is the native one. */
    ghost predicate InStep()
      reads this, state, native
    {
      state != null && state.cursorKnown && state.cacheData.None? ==> state.logicalCursor == native.pos
    }

    ghost predicate Synced()
      reads this, state, native, budget
    {
      Sound() && InStep()
    }

    /** The calls of this generation were answered honestly, up to the position the hooks
        know; the decompressor may be elsewhere. */
    ghost predicate Tracked()
      reads this, state, native, budget
    {
      && Sound()
      && start <= |native.payload| && Position() <= |native.payload|
      && HonestLog(native.payload, start, log, Position())
      && (log != [] && log[|log| - 1].cached ==> Cached())
    }

    /** And whenever the decompressor will be used, it is where the hooks know. */
    ghost predicate Valid()
      reads this, state, native, budget
    {
      Tracked() && InStep()
    }

    /** A stream that exists before the hooks: any position, no side state. */
    constructor (native: NativeStream, budget: AtomicByteBudget)
      requires native.Valid() && budget.used <= budget.limit
      ensures Valid() && this.native == native && this.budget == budget && state == null
      ensures log == [] && start == native.pos && others == budget.used
    {
      this.native, this.budget, others := native, budget, budget.used;
      state, log, start := null, [], native.pos;
    }

    /** A clone: a new generation that starts at the position its side state knows. */
    constructor Cloned(native: NativeStream, budget: AtomicByteBudget, state: CompressedStreamState?)
      requires native.Valid() && budget.used <= budget.limit
      requires state != null ==>
                 && state.Valid(native.payload) && state.accountedCaptureBytes == 0
                 && (state.cacheData.Some? ==> !state.captureStatus.Active?)
                 && (state.cursorKnown && state.cacheData.None? ==> state.logicalCursor == native.pos)
      ensures Valid() && this.native == native && this.budget == budget && this.state == state
      ensures log == [] && start == Position()
    {
      this.native, this.budget, others := native, budget, budget.used;
      this.state, log := state, [];
      start := if state != null && state.cursorKnown then state.logicalCursor else native.pos;
    }

    /** Over a sound decompressor, after any sequence of hooked calls, the caller has seen
        exactly what an unhooked stream shows, and the decompressor has not been used since
        cached bytes were attached, but by calls that bypassed the hooks. */
    lemma CallersCannotTell()
      requires Valid() && forall e <- log :: !e.faulty
      ensures UnhookedRun(native.payload, start, Calls(Answered(log))) == (Outcomes(Answered(log)), Position())
      ensures forall i, j :: 0 <= i < j < |log| && log[i].cached && log[j].native ==> log[j].bypassed
    {
      HookedRefinesUnhooked(native.payload, start, log, Position());
    }

    ghost method Note(e: Event)
      requires native.Valid() && start <= |native.payload|
      requires HonestLog(native.payload, start, log, e.before) && Honest(native.payload, e)
      requires log != [] && log[|log| - 1].cached ==> Serves(e)
      modifies this`log
      ensures log == old(log) + [e] && HonestLog(native.payload, start, log, e.after)
    {
      HonestLogGrows(native.payload, start, log, e.before, e);
      log := log + [e];
    }

    /** Drops the side state; its destructor returns the charge. */
    method Retire()
      requires native.Valid() && budget.used == others + Charge()
      modifies this`state, state, budget
      ensures state == null && budget.used == others && budget.used <= old(budget.used)
      ensures budget.used <= old(budget.used)
    {
      if state != null {
        state.ClearCaptureBuffer(budget);
        state := null;
      }
    }

    /** A successful open is a new generation at position zero; after a failed one the
        decompressor may be anywhere, and there is no side state. */
    method Open(payload: seq<Byte>, succeeds: bool, enabled: bool, identity: StreamIdentity)
      requires Valid() && |payload| < TWO32
      modifies this`state, this`log, this`start, state, native, budget
      ensures Valid() && log == [] && start == native.pos
      ensures succeeds ==> native.payload == payload && native.pos == 0
      ensures (state != null <==> succeeds && enabled) && (state != null ==> fresh(state))
      ensures state != null ==>
                && state.identity == identity && state.cursorKnown && state.logicalCursor == 0
                && !state.cacheLookupAttempted && state.cacheData.None? && state.captureStatus.Empty?
      ensures budget.used == others
    {
      Retire();
      native.Open(payload, succeeds);
      log, start := [], native.pos;
      if succeeds && enabled {
        state := new CompressedStreamState(identity, 0);
      }
    }

    /** Ends the generation. */
    method Close()
      requires Valid()
      modifies this`state, this`log, this`start, state, budget
      ensures Valid() && state == null && log == [] && budget.used == others
    {
      Retire();
      log, start := [], native.pos;
    }

    /** Asks the stock implementation for its position with a zero-distance seek. */
    method QueryCursor(totalSize: U32) returns (cursor: Option<U32>)
      requires native.Valid()
      modifies native`pos
      ensures native.Valid() && native.pos == old(native.pos)
      ensures cursor.Some? ==> cursor.value == native.pos
    {
      var ok, position, _ := native.Seek(0, Origin(R.Current));
      if ok && (totalSize == 0 || position <= totalSize) && position < TWO32 {
        cursor := Some(position);
      } else {
        cursor := None;
      }
    }

    method GetOrCreateState(identity: StreamIdentity)
      requires Tracked()
      modifies this`state, native`pos
      ensures Tracked() && state != null && native.pos == old(native.pos) && Position() == old(Position())
      ensures old(InStep()) ==> InStep()
      ensures old(state) != null ==> state == old(state)
      ensures old(state) == null ==> fresh(state) && state.cacheData.None? && state.identity == identity
    {
      hide HonestLog;
      if state == null {
        var cursor := QueryCursor(identity.totalSize);
        var created := new CompressedStreamState(identity, if cursor.Some? then cursor.value else 0);
        created.cursorKnown := cursor.Some?;
        state := created;
      }
    }

    /** The declared size or archive changed and no cached bytes are attached: a new side
        state takes over, at the known cursor of the same stream or at the queried one. */
    method UpgradeIdentity(identity: StreamIdentity)
      requires Sound() && state != null && state.cacheData.None?
      modifies this`state, state, native`pos, budget
      ensures Sound() && state != null && fresh(state) && state.cacheData.None? && state.identity == identity
      ensures native.pos == old(native.pos) && !state.cacheLookupAttempted
      ensures old(InStep()) ==> InStep() && Position() == old(Position())
      ensures old(state.cursorKnown && state.identity.source == identity.source
                  && state.identity.startOffset == identity.startOffset) ==>
                && state.cursorKnown && Position() == old(Position())
                && state.captureStatus == if old(state.logicalCursor) == 0 then Empty else Invalid
    {
      hide HonestLog;
      var sameGeneration := SameGeneration(state.identity, identity);
      var cursor: Option<U32>;
      if sameGeneration && state.cursorKnown {
        cursor := Some(state.logicalCursor);
      } else {
        cursor := QueryCursor(identity.totalSize);
      }
      var replacement := new CompressedStreamState(identity, if cursor.Some? then cursor.value else 0);
      replacement.cursorKnown := cursor.Some?;
      if cursor.None? || cursor.value != 0 {
        replacement.captureStatus := Invalid;
      }
      Retire();
      state := replacement;
    }

    /** An entry of the declared size found in the cache is this payload. */
    ghost predicate Trusted(found: Option<seq<Byte>>, size: U32)
      reads native
    {
      found.Some? && |found.value| == size ==> found.value == native.payload
    }

    /** The call was answered honestly and the log says so; cached bytes stay attached. */
    twostate predicate Noted(call: Call, outcome: Outcome)
      reads this, state, native, budget
    {
      && Valid()
      && |log| == |old(log)| + 1 && old(log) <= log
      && var e := log[|old(log)|];
      && e.call == call && e.outcome == outcome
      && e.before == old(Position()) && e.after == Position()
      && native.payload == old(native.payload)
      && (old(Cached()) ==> Cached())
    }

    /** Moreover cached bytes kept the decompressor where it was. */
    twostate predicate Replied(call: Call, outcome: Outcome)
      reads this, state, native, budget
    {
      Noted(call, outcome) && (old(Cached()) ==> native.pos == old(native.pos))
    }

    /** Answer and new position are those of an unhooked stream where the caller was. */
    twostate predicate AsUnhooked(call: Call, outcome: Outcome)
      reads this, state, native
    {
      && native.payload == old(native.payload) && old(Position()) <= |native.payload|
      && (outcome, Position()) == Unhooked(native.payload, old(Position()), call)
    }

    /** A read with this identity is served from cache, attaching it if need be. */
    predicate WillServe(identity: StreamIdentity, around: Surroundings)
      reads this, state
    {
      && state != null && state.cursorKnown
      && (|| state.cacheData.Some?
          || (&& (if state.identity == identity then !state.cacheLookupAttempted
                  else SameGeneration(state.identity, identity))
              && identity.archive.Some? && identity.totalSize != 0
              && !around.suppressed && around.serve && around.ready
              && around.found.Some? && |around.found.value| == identity.totalSize))
    }

    /** The stock read, and the event it amounts to. */
    method StockRead(toRead: U64, hasBuffer: bool)
        returns (ok: bool, data: seq<Byte>, read: U64, outcome: Outcome, ghost e: Event)
      requires Sound()
      modifies native`pos
      ensures Sound() && Honest(native.payload, e)
      ensures outcome == (if ok then Bytes(data) else Failed)
      ensures e == Event(Read(toRead, hasBuffer), outcome, old(native.pos), native.pos, e.faulty, true, false, false)
      ensures ok && data != [] ==> hasBuffer
      ensures ok ==> && read == |data| && read <= toRead
                     && native.pos == old(native.pos) + read <= |native.payload|
                     && data == native.payload[old(native.pos)..native.pos]
    {
      ghost var faulty;
      ok, data, read, faulty := native.Read(toRead, hasBuffer);
      outcome := if ok then Bytes(data) else Failed;
      e := Event(Read(toRead, hasBuffer), outcome, old(native.pos), native.pos, faulty, true, false, false);
    }

    /** Without a known cursor the stock read runs; its position is asked for afterwards. */
    method ReadAndAsk(toRead: U64, hasBuffer: bool) returns (outcome: Outcome, ghost e: Event)
      requires Synced() && state != null && !state.cursorKnown
      modifies state, native`pos, budget
      ensures Synced() && state.cacheData.None?
      ensures Honest(native.payload, e)
      ensures e == Event(Read(toRead, hasBuffer), outcome, old(native.pos), native.pos, e.faulty, true, false, false)
    {
      hide Honest, Unhooked;
      var _, _, _, answer, event := StockRead(toRead, hasBuffer);
      outcome, e := answer, event;
      var recovered := QueryCursor(state.identity.totalSize);
      if recovered.Some? {
        state.logicalCursor := recovered.value;
        state.cursorKnown := true;
      }
      state.InvalidateCapture(budget);
    }

    method ReadBlind(toRead: U64, hasBuffer: bool) returns (outcome: Outcome)
      requires Valid() && state != null && !state.cursorKnown
      modifies this`log, state, native`pos, budget
      ensures Replied(Read(toRead, hasBuffer), outcome) && log[|log| - 1].native
      ensures state == old(state) && state.cacheData.None?
    {
      hide HonestLog, Honest, Unhooked;
      assert native.Valid();
      ghost var e;
      outcome, e := ReadAndAsk(toRead, hasBuffer);
      Note(e);
    }

    method ReadCached(toRead: U64, hasBuffer: bool, around: Surroundings) returns (outcome: Outcome)
      requires Valid() && Cached()
      modifies this`log, state`logicalCursor
      ensures Replied(Read(toRead, hasBuffer), outcome)
      ensures state == old(state)
      ensures native.pos == old(native.pos)
      ensures AsUnhooked(Read(toRead, hasBuffer), outcome) || (outcome.Failed? && Position() == old(Position()))
      ensures (toRead == 0 || hasBuffer) && !around.unusable && !around.faults ==> outcome.Bytes?
    {
      hide HonestLog;
      ghost var before := Position();
      outcome := state.ServeCachedRead(toRead, hasBuffer, around.unusable, around.faults, native.payload);
      Note(Event(Read(toRead, hasBuffer), outcome, before, state.logicalCursor, false, false, true, false));
    }

    /** Whether this read may extend or begin the capture; a cursor that does not continue
        it ends it for good. */
    method PlanCapture(enabled: bool) returns (append: bool, begin: bool)
      requires Synced() && state != null && state.cursorKnown && state.cacheData.None?
      modifies state`captureStatus, state`captureBuffer, state`accountedCaptureBytes, budget
      ensures Synced()
      ensures begin <==> enabled && old(state.captureStatus.Empty?) && state.logicalCursor == 0
      ensures append <==>
                begin || (enabled && old(state.captureStatus.Active?) && state.logicalCursor == state.nextCaptureOffset)
      ensures append ==> state.logicalCursor == state.nextCaptureOffset
      ensures state.captureStatus ==
                if enabled && !append && (old(state.captureStatus.Empty?) || old(state.captureStatus.Active?))
                then Invalid
                else old(state.captureStatus)
    {
      hide HonestLog, Honest, Unhooked;
      append, begin := false, false;
      if enabled && state.captureStatus.Empty? {
        append := state.logicalCursor == 0;
        begin := append;
        if !append {
          state.captureStatus := Invalid;
        }
      } else if enabled && state.captureStatus.Active? {
        append := state.logicalCursor == state.nextCaptureOffset;
        if !append {
          state.InvalidateCapture(budget);
        }
      }
    }

    /** The side cursor follows a valid read, or is asked for, or is lost. */
    method FollowRead(toRead: U64, hasBuffer: bool, ok: bool, read: U64)
      requires Sound() && state != null && state.cacheData.None? && state.cursorKnown
      requires ok ==> state.logicalCursor + read == native.pos
      modifies state, native`pos, budget
      ensures Synced() && native.pos == old(native.pos) && state.cacheData.None?
      ensures state.nextCaptureOffset == old(state.nextCaptureOffset)
      ensures ok && read <= toRead && (read == 0 || hasBuffer)
              && (state.identity.totalSize > 0 ==> old(state.logicalCursor) + read <= state.identity.totalSize) ==>
                && state.cursorKnown && state.captureStatus == old(state.captureStatus)
                && state.logicalCursor == old(state.logicalCursor) + read
    {
      var progress := ValidateNativeProgress(state.cursorKnown, state.logicalCursor, state.identity.totalSize,
                                             toRead, read, ok, hasBuffer);
      if progress.valid {
        state.logicalCursor := progress.cursorAfter;
        state.cursorKnown := true;
      } else {
        var queried := QueryCursor(state.identity.totalSize);
        if queried.Some? {
          state.logicalCursor := queried.value;
          state.cursorKnown := true;
        } else {
          state.cursorKnown := false;
          state.InvalidateCapture(budget);
        }
      }
    }

    /** Adds what the stock read delivered to the capture, or gives the capture up. A
        completed payload is handed over and its charge returned. */
    method ExtendCapture(toRead: U64, hasBuffer: bool, ok: bool, data: seq<Byte>, begin: bool,
                         memory: bool, ghost from: nat)
        returns (handed: Option<Handover>)
      requires Synced() && state != null && state.cacheData.None?
      requires ok ==> from + |data| <= |native.payload| && data == native.payload[from..from + |data|]
      requires from == state.nextCaptureOffset
      requires ok && |data| <= toRead && (data == [] || hasBuffer)
               && (state.identity.totalSize > 0 ==> from + |data| <= state.identity.totalSize) ==>
                 state.captureStatus == if begin then Empty else Active
      modifies state`captureStatus, state`nextCaptureOffset, state`captureBuffer, state`accountedCaptureBytes, budget
      ensures Synced()
      ensures ok && 0 < |data| <= toRead && hasBuffer && memory && from + |data| <= state.identity.totalSize
              && (begin ==> others + state.identity.totalSize <= budget.limit) ==>
                && state.nextCaptureOffset == from + |data|
                && (handed.Some? <==> state.nextCaptureOffset == state.identity.totalSize)
                && state.captureStatus == (if handed.Some? then Completed else Active)
      ensures handed.Some? ==>
                && ok && 0 < |data| <= toRead && hasBuffer && memory
                && from + |data| == state.identity.totalSize && state.captureStatus.Completed?
                && (begin ==> others + state.identity.totalSize <= budget.limit)
      ensures handed.Some? ==>
                && handed.value.identity == state.identity
                && 0 < |handed.value.data| == state.identity.totalSize
                && handed.value.data <= native.payload
    {
      handed := None;
      var totalSize := state.identity.totalSize;
      if ok && |data| > 0 && hasBuffer && |data| <= toRead && |data| <= totalSize - state.nextCaptureOffset {
        var completed, charge := state.AppendCapture(budget, data, begin, memory, native.payload);
        if completed.Some? {
          handed := Some(Handover(state.identity, completed.value));
        }
        if charge > 0 {
          var _, _ := budget.Release(charge, []);
        }
      } else if !(ok && |data| == 0 && toRead == 0) {
        state.InvalidateCapture(budget);
      }
    }

    /** The stock read with its capture: a payload is handed over exactly by the read that
        delivers its last byte, if it was captured from its first byte on, outside loads,
        while the cache builds, and within both size limits. */
    method ReadAndLearn(toRead: U64, hasBuffer: bool, around: Surroundings)
        returns (outcome: Outcome, handed: Option<Handover>, ghost e: Event)
      requires Synced() && state != null && state.cursorKnown && state.cacheData.None?
      modifies state, native`pos, budget
      ensures Synced() && state.cacheData.None?
      ensures Honest(native.payload, e)
      ensures e == Event(Read(toRead, hasBuffer), outcome, old(native.pos), native.pos, e.faulty, true, false, false)
      ensures var id, c := state.identity, old(state.logicalCursor);
              var learning :=
                && !around.suppressed && around.building && around.memory && id.archive.Some?
                && 0 < id.totalSize <= 0x400_0000 && id.totalSize <= around.cacheLimit
                && (|| (old(state.captureStatus.Active?) && c == old(state.nextCaptureOffset))
                    || (old(state.captureStatus.Empty?) && c == 0 && others + id.totalSize <= budget.limit));
              && (handed.Some? <==>
                    learning && outcome.Bytes? && outcome.data != [] && c + |outcome.data| == id.totalSize)
              && (handed.Some? ==>
                    && |native.payload| >= id.totalSize
                    && handed == Some(Handover(id, native.payload[..id.totalSize])) && state.captureStatus.Completed?)
              && (learning && outcome.Bytes? && outcome.data != [] && c + |outcome.data| < id.totalSize ==>
                    && state.captureStatus.Active? && state.cursorKnown
                    && state.nextCaptureOffset == state.logicalCursor == c + |outcome.data|)
    {
      hide Honest, Unhooked, Sound;
      handed := None;
      var id := state.identity;
      var learning := !around.suppressed && id.archive.Some? && id.totalSize > 0 && around.building
                      && id.totalSize <= MAX_CAPTURE_ENTRY
                      && around.cacheLimit > 0 && id.totalSize <= around.cacheLimit;
      var append, begin := PlanCapture(learning);
      var ok, data, read;
      ok, data, read, outcome, e := StockRead(toRead, hasBuffer);
      FollowRead(toRead, hasBuffer, ok, read);
      if append {
        handed := ExtendCapture(toRead, hasBuffer, ok, data, begin, around.memory, old(native.pos));
        assert handed.Some? ==> handed.value.data == native.payload[..|handed.value.data|];
      }
    }

    method ReadNative(toRead: U64, hasBuffer: bool, around: Surroundings)
        returns (outcome: Outcome, handed: Option<Handover>)
      requires Valid() && state != null && state.cursorKnown && state.cacheData.None?
      modifies this`log, state, native`pos, budget
      ensures Replied(Read(toRead, hasBuffer), outcome) && log[|log| - 1].native
      ensures state == old(state) && state.cacheData.None?
      ensures var id, c := state.identity, old(state.logicalCursor);
              var learning :=
                && !around.suppressed && around.building && around.memory && id.archive.Some?
                && 0 < id.totalSize <= 0x400_0000 && id.totalSize <= around.cacheLimit
                && (|| (old(state.captureStatus.Active?) && c == old(state.nextCaptureOffset))
                    || (old(state.captureStatus.Empty?) && c == 0 && others + id.totalSize <= budget.limit));
              && (handed.Some? <==>
                    learning && outcome.Bytes? && outcome.data != [] && c + |outcome.data| == id.totalSize)
              && (handed.Some? ==>
                    && |native.payload| >= id.totalSize
                    && handed == Some(Handover(id, native.payload[..id.totalSize])) && state.captureStatus.Completed?)
              && (learning && outcome.Bytes? && outcome.data != [] && c + |outcome.data| < id.totalSize ==>
                    && state.captureStatus.Active? && state.cursorKnown
                    && state.nextCaptureOffset == state.logicalCursor == c + |outcome.data|)
    {
      hide HonestLog, Honest, Unhooked;
      assert native.Valid();
      ghost var e;
      outcome, handed, e := ReadAndLearn(toRead, hasBuffer, around);
      Note(e);
    }

    /** `HookedCompDoRead`. */
    method DoRead(toRead: U64, hasBuffer: bool, identity: StreamIdentity, around: Surroundings)
        returns (outcome: Outcome, handed: Option<Handover>)
      requires Tracked() && Trusted(around.found, identity.totalSize)
      requires InStep() || WillServe(identity, around)
      modifies this`log, this`state, state, native`pos, budget
      ensures Replied(Read(toRead, hasBuffer), outcome)
      ensures state != null && (state == old(state) || fresh(state))
      ensures Cached() ==> old(Cached()) || around.found.Some?
      ensures !Cached() ==> log[|log| - 1].native
      ensures Cached() && !old(Cached()) ==>
                && identity.archive.Some? && identity.totalSize != 0
                && !around.suppressed && around.serve && around.ready
                && around.found.Some? && |around.found.value| == identity.totalSize
      ensures old(state != null && state.cursorKnown
                  && (|| state.cacheData.Some?
                      || (&& (if state.identity == identity then !state.cacheLookupAttempted
                              else && state.identity.source == identity.source
                                   && state.identity.startOffset == identity.startOffset)
                          && identity.archive.Some? && identity.totalSize != 0
                          && !around.suppressed && around.serve && around.ready
                          && around.found.Some? && |around.found.value| == identity.totalSize))) ==>
                && Cached() && native.pos == old(native.pos)
                && ((toRead == 0 || hasBuffer) && !around.unusable && !around.faults ==> outcome.Bytes?)
                && (AsUnhooked(Read(toRead, hasBuffer), outcome)
                    || (outcome.Failed? && Position() == old(Position())))
      ensures handed.Some? ==>
                && !Cached() && !around.suppressed && around.building && around.memory
                && identity.archive.Some? && 0 < identity.totalSize <= 0x400_0000
                && identity.totalSize <= around.cacheLimit
                && outcome.Bytes? && outcome.data != [] && old(Position()) + |outcome.data| == identity.totalSize
                && |native.payload| >= identity.totalSize
                && handed == Some(Handover(identity, native.payload[..identity.totalSize]))
      ensures old(state != null && state.identity == identity && state.cursorKnown && state.cacheData.None?
                  && (|| state.cacheLookupAttempted || identity.archive.None? || identity.totalSize == 0
                      || around.suppressed || !around.serve || !around.ready
                      || around.found.None? || |around.found.value| != identity.totalSize)) ==>
                var c := old(state.logicalCursor);
                var learning :=
                  && !around.suppressed && around.building && around.memory && identity.archive.Some?
                  && 0 < identity.totalSize <= 0x400_0000 && identity.totalSize <= around.cacheLimit
                  && (|| (old(state.captureStatus.Active?) && c == old(state.nextCaptureOffset))
                      || (old(state.captureStatus.Empty?) && c == 0 && others + identity.totalSize <= budget.limit));
                && state == old(state) && state.cacheData.None?
                && (handed.Some? <==>
                      learning && outcome.Bytes? && outcome.data != [] && c + |outcome.data| == identity.totalSize)
                && (learning && outcome.Bytes? && outcome.data != [] && c + |outcome.data| < identity.totalSize ==>
                      && state.captureStatus.Active? && state.cursorKnown
                      && state.nextCaptureOffset == state.logicalCursor == c + |outcome.data|)
    {
      hide HonestLog, Honest, Unhooked, Sound, CompressedStreamState.Valid, InStep;
      Prepare(identity, around);
      outcome, handed := ReadPrepared(toRead, hasBuffer, identity, around);
    }

    /** A read with the side state found. */
    method ReadPrepared(toRead: U64, hasBuffer: bool, identity: StreamIdentity, around: Surroundings)
        returns (outcome: Outcome, handed: Option<Handover>)
      requires Tracked() && state != null && Trusted(around.found, identity.totalSize)
      requires state.cacheData.Some? || state.identity == identity
      requires InStep() || (state.cursorKnown
                 && (Cached() || state.WillAttach(around.suppressed, around.serve, around.ready, around.found)))
      modifies this`log, state, native`pos, budget
      ensures Replied(Read(toRead, hasBuffer), outcome)
      ensures state == old(state)
      ensures Cached() <==>
                old(Cached()) || (old(state.cursorKnown)
                  && old(state.WillAttach(around.suppressed, around.serve, around.ready, around.found)))
      ensures !Cached() ==> log[|log| - 1].native
      ensures Cached() ==>
                && native.pos == old(native.pos) && handed.None?
                && ((toRead == 0 || hasBuffer) && !around.unusable && !around.faults ==> outcome.Bytes?)
                && (AsUnhooked(Read(toRead, hasBuffer), outcome)
                    || (outcome.Failed? && Position() == old(Position())))
      ensures !old(state.cursorKnown) ==> handed.None?
      ensures !Cached() && old(state.cursorKnown) ==>
                var c := old(state.logicalCursor);
                var learning :=
                  && !around.suppressed && around.building && around.memory && identity.archive.Some?
                  && 0 < identity.totalSize <= 0x400_0000 && identity.totalSize <= around.cacheLimit
                  && (|| (old(state.captureStatus.Active?) && c == old(state.nextCaptureOffset))
                      || (old(state.captureStatus.Empty?) && c == 0 && others + identity.totalSize <= budget.limit));
                && (handed.Some? <==>
                      learning && outcome.Bytes? && outcome.data != [] && c + |outcome.data| == identity.totalSize)
                && (handed.Some? ==>
                      && |native.payload| >= identity.totalSize
                      && handed == Some(Handover(identity, native.payload[..identity.totalSize])))
                && (learning && outcome.Bytes? && outcome.data != [] && c + |outcome.data| < identity.totalSize ==>
                      && state.captureStatus.Active? && state.cursorKnown
                      && state.nextCaptureOffset == state.logicalCursor == c + |outcome.data|)
    {
      hide HonestLog, Honest, Unhooked, Sound, CompressedStreamState.Valid, SameGeneration;
      handed := None;
      if !state.cursorKnown {
        outcome := ReadBlind(toRead, hasBuffer);
        return;
      }
      Attach(around, identity.totalSize);
      if state.cacheData.Some? {
        outcome := ReadCached(toRead, hasBuffer, around);
      } else {
        outcome, handed := ReadNative(toRead, hasBuffer, around);
      }
    }

    /** Finds or creates the side state of this identity. */
    method Prepare(identity: StreamIdentity, ghost around: Surroundings)
      requires Tracked() && (InStep() || WillServe(identity, around))
      modifies this`state, state, native`pos, budget
      ensures Tracked() && Position() == old(Position()) && native.pos == old(native.pos)
      ensures old(InStep()) ==> InStep()
      ensures state != null && (state == old(state) || fresh(state))
      ensures old(WillServe(identity, around)) ==>
                && state.cursorKnown
                && (Cached() || state.WillAttach(around.suppressed, around.serve, around.ready, around.found))
      ensures old(Cached()) ==> state == old(state)
      ensures Cached() <==> old(Cached())
      ensures state.cacheData.Some? || state.identity == identity
      ensures old(state) != null && old(state.identity) == identity ==> state == old(state) && unchanged(state)
    {
      hide HonestLog, Honest, Unhooked, Sound;
      GetOrCreateState(identity);
      if state.identity != identity && state.cacheData.None? {
        UpgradeIdentity(identity);
      }
    }

    /** Tries the cache; attaching keeps the position the caller knows. */
    method Attach(around: Surroundings, size: U32)
      requires Tracked() && state != null && Trusted(around.found, size)
      requires state.cacheData.Some? || state.identity.totalSize == size
      modifies state, budget
      ensures Tracked() && Position() == old(Position())
      ensures old(InStep()) || Cached() ==> InStep()
      ensures Cached() <==>
                old(Cached()) || old(state.WillAttach(around.suppressed, around.serve, around.ready, around.found))
      ensures state.cursorKnown == old(state.cursorKnown) && state.logicalCursor == old(state.logicalCursor)
      ensures !Cached() ==> state.captureStatus == old(state.captureStatus)
                            && state.nextCaptureOffset == old(state.nextCaptureOffset)
    {
      hide HonestLog, Honest, Unhooked;
      state.TryAttachCachedEntry(budget, native.payload, around.suppressed, around.serve, around.ready, around.found);
    }

    method SeekCached(displacement: R.I64, mode: SeekMode) returns (outcome: Outcome)
      requires Valid() && Cached()
      modifies this`log, state, budget
      ensures Replied(Seek(displacement, mode), outcome) && AsUnhooked(Seek(displacement, mode), outcome)
      ensures state == old(state)
    {
      hide HonestLog;
      ghost var before := Position();
      if mode.UnknownMode? {
        outcome := Failed;
      } else {
        var size := |state.cacheData.value|;
        var sought := R.ClampSeek(state.logicalCursor, 0, size, displacement, mode.origin);
        R.ClampSeekClamps(state.logicalCursor, 0, size, displacement, mode.origin);
        if !sought.valid {
          outcome := Failed;
        } else {
          state.logicalCursor := sought.relativeOffset;
          state.cursorKnown := true;
          outcome := At(sought.relativeOffset);
          state.ResetCaptureAfterSeek(budget, sought.relativeOffset);
        }
      }
      Note(Event(Seek(displacement, mode), outcome, before, state.logicalCursor, false, false, true, false));
    }

    /** The stock seek, and the event it amounts to. */
    method StockSeek(displacement: R.I64, mode: SeekMode)
        returns (ok: bool, position: U64, outcome: Outcome, ghost e: Event)
      requires Sound()
      modifies native`pos
      ensures Sound() && Honest(native.payload, e)
      ensures outcome == if ok then At(position) else Failed
      ensures e == Event(Seek(displacement, mode), outcome, old(native.pos), native.pos, e.faulty, true, false, false)
      ensures if ok then position == native.pos else native.pos == old(native.pos)
    {
      ghost var faulty;
      ok, position, faulty := native.Seek(displacement, mode);
      outcome := if ok then At(position) else Failed;
      e := Event(Seek(displacement, mode), outcome, old(native.pos), native.pos, faulty, true, false, false);
    }

    /** The side cursor follows the stock seek; only movement disturbs the capture, and a
        position that cannot be right loses the cursor. */
    method SeekAndFollow(displacement: R.I64, mode: SeekMode) returns (outcome: Outcome, ghost e: Event)
      requires Synced() && state != null && state.cacheData.None?
      modifies state, native`pos, budget
      ensures Synced() && state.cacheData.None?
      ensures Honest(native.payload, e)
      ensures e == Event(Seek(displacement, mode), outcome, old(native.pos), native.pos, e.faulty, true, false, false)
      ensures outcome == At(old(state.logicalCursor)) && old(state.cursorKnown)
              && (state.identity.totalSize == 0 || native.pos <= state.identity.totalSize) ==>
                && state.captureStatus == old(state.captureStatus)
                && state.captureBuffer == old(state.captureBuffer)
      ensures outcome.At? && native.pos != old(state.logicalCursor) ==>
                state.captureStatus == (if native.pos == 0 && state.cursorKnown then Empty else Invalid)
      ensures outcome.At? ==>
                (state.cursorKnown <==> state.identity.totalSize == 0 || native.pos <= state.identity.totalSize)
      ensures !outcome.At? ==> !state.cursorKnown && state.captureStatus.Invalid?
    {
      hide Honest, Unhooked;
      var previous := state.logicalCursor;
      var ok, position;
      ok, position, outcome, e := StockSeek(displacement, mode);
      if ok && position < TWO32 && (state.identity.totalSize == 0 || position <= state.identity.totalSize) {
        state.logicalCursor := position;
        state.cursorKnown := true;
        if SeekMoved(previous, position) {
          state.ResetCaptureAfterSeek(budget, position);
        }
      } else {
        state.cursorKnown := false;
        state.InvalidateCapture(budget);
      }
    }

    method SeekNative(displacement: R.I64, mode: SeekMode) returns (outcome: Outcome)
      requires Valid() && state != null && state.cacheData.None?
      modifies this`log, state, native`pos, budget
      ensures Replied(Seek(displacement, mode), outcome)
      ensures state == old(state)
    {
      hide HonestLog, Honest, Unhooked;
      assert native.Valid();
      ghost var e;
      outcome, e := SeekAndFollow(displacement, mode);
      Note(e);
    }

    /** `HookedCompDoSeek`. */
    method DoSeek(displacement: R.I64, mode: SeekMode, identity: StreamIdentity, around: Surroundings)
        returns (outcome: Outcome)
      requires Valid()
      requires Trusted(around.found, if state == null then identity.totalSize else state.identity.totalSize)
      modifies this`log, this`state, state, native`pos, budget
      ensures Replied(Seek(displacement, mode), outcome)
      ensures old(Cached()) ==> AsUnhooked(Seek(displacement, mode), outcome)
      ensures state != null && (state == old(state) || fresh(state))
    {
      hide HonestLog, Honest, Unhooked;
      GetOrCreateState(identity);
      Attach(around, state.identity.totalSize);
      if state.cacheData.Some? {
        outcome := SeekCached(displacement, mode);
      } else {
        outcome := SeekNative(displacement, mode);
      }
    }

    // ----------------------------------------- when bookkeeping itself fails

    /** Passing this call on does no harm: no cursor is known that it could contradict, or it
        is one of the calls that `Idle` lists. */
    predicate Harmless(call: Call)
      reads this, state, native
    {
      Unguided() || Idle(|native.payload|, state.logicalCursor, native.pos, call)
    }

    /** What passing a call on to a decompressor that does its work comes to: answer and
        positions are right, and the decompressor is where the hooks know, exactly if the
        call was harmless; then every result about valid streams holds of what follows. */
    twostate predicate Passed(call: Call, outcome: Outcome)
      reads this, state, native, budget
      requires old(Valid())
    {
      && native.payload == old(native.payload)
      && (old(Unguided()) ==> Noted(call, outcome))
      && ((outcome, native.pos) == Unhooked(native.payload, old(native.pos), call) ==>
            && (old(Harmless(call)) <==> AsUnhooked(call, outcome) && InStep())
            && (old(Harmless(call)) ==> Noted(call, outcome)))
      && (!old(Harmless(call)) ==> log == old(log))
    }

    /** `HookedCompDoRead` when its side state cannot be looked up, made or replaced: the
        stock read runs, and the side state is left as it is. */
    method ReadBypassed(toRead: U64, hasBuffer: bool) returns (outcome: Outcome)
      requires Valid()
      modifies this`log, native`pos
      ensures Tracked() && Passed(Read(toRead, hasBuffer), outcome)
      ensures outcome.Failed? || outcome.Bytes?
      ensures outcome.Bytes? ==>
                && old(native.pos) <= native.pos <= |native.payload|
                && |outcome.data| <= toRead && outcome.data == native.payload[old(native.pos)..native.pos]
    {
      hide HonestLog, CompressedStreamState.Valid, R.Clamp, R.Wanted;
      ghost var call := Read(toRead, hasBuffer);
      ghost var at, from, harmless := Position(), native.pos, Harmless(call);
      IdleIff(native.payload, at, from, call);
      var _, _, _, answer, event := StockRead(toRead, hasBuffer);
      outcome := answer;
      if Unguided() {
        Note(event.(cached := Cached(), bypassed := true));
      } else if harmless && (outcome, native.pos) == Unhooked(native.payload, from, call) {
        Note(Event(call, outcome, at, at, false, true, Cached(), true));
      }
    }

    /** `HookedCompDoSeek` in the same case. */
    method SeekBypassed(displacement: R.I64, mode: SeekMode) returns (outcome: Outcome)
      requires Valid()
      modifies this`log, native`pos
      ensures Tracked() && Passed(Seek(displacement, mode), outcome)
      ensures outcome.Failed? || outcome == At(native.pos)
    {
      hide HonestLog;
      ghost var call := Seek(displacement, mode);
      ghost var at, from, harmless := Position(), native.pos, Harmless(call);
      IdleIff(native.payload, at, from, call);
      var _, _, answer, event := StockSeek(displacement, mode);
      outcome := answer;
      if Unguided() {
        Note(event.(cached := Cached(), bypassed := true));
      } else if harmless && (outcome, native.pos) == Unhooked(native.payload, from, call) {
        Note(Event(call, outcome, at, at, false, true, Cached(), true));
      }
    }

    /** From a known cursor the stream can always go on, through an empty read that attaches
        cached bytes, to report that cursor, wherever the decompressor is. */
    method ReportCursor() returns (last: Outcome)
      requires Tracked() && !Unguided() && native.payload != []
      modifies this`log, this`state, state, native`pos, budget
      ensures last == At(old(Position()))
      ensures native.payload == old(native.payload)
    {
      assert |native.payload| < TWO32;
      hide HonestLog, Honest, Sound, CompressedStreamState.Valid;
      var payload := native.payload;
      var nowhere := Surroundings(false, true, true, None, false, 0, false, false, false);
      if state.cacheData.None? {
        var other := if state.identity.archive == Some(0) then Some(1) else Some(0);
        var identity := state.identity.(archive := other, totalSize := |payload|);
        var _, _ := DoRead(0, true, identity, nowhere.(found := Some(payload)));
      }
      last := DoSeek(0, Origin(R.Current), state.identity, nowhere);
    }

    /** So any call that is not harmless shows, if the decompressor does its work: the answer
        is wrong, or the stream can go on to report a wrong position. */
    method Expose(call: Call) returns (first: Outcome, last: Outcome)
      requires Valid() && !Harmless(call)
      modifies this`log, this`state, state, native`pos, budget
      ensures native.payload == old(native.payload)
      ensures first == Unhooked(native.payload, old(native.pos), call).0 ==>
                var (expected, position) := Unhooked(native.payload, old(Position()), call);
                first != expected || last != Unhooked(native.payload, position, Seek(0, Origin(R.Current))).0
    {
      assert Position() <= |native.payload| && native.pos <= |native.payload|;
      hide HonestLog, Honest, Sound;
      assert native.payload != [] by { OnlyMovesInPayload(native.payload, call); }
      IdleIff(native.payload, Position(), native.pos, call);
      match call {
        case Read(toRead, hasBuffer) => first := ReadBypassed(toRead, hasBuffer);
        case Seek(displacement, mode) => first := SeekBypassed(displacement, mode);
      }
      last := ReportCursor();
    }
  }

  lemma OnlyMovesInPayload(payload: seq<Byte>, call: Call)
    ensures payload == [] ==> Idle(0, 0, 0, call)
  {}

  /** One read of a stream that is being learned from its first byte on, with `got` bytes
      behind it. */
  method LearnNext(stream: HookedStream, identity: StreamIdentity, around: Surroundings, toRead: U64, got: nat)
      returns (data: seq<Byte>, handed: Option<Handover>)
    requires stream.Valid() && stream.state != null && stream.state.identity == identity
    requires identity.totalSize == |stream.native.payload| && identity.archive.Some? && around.found.None?
    requires !around.suppressed && around.building && around.memory
    requires got < identity.totalSize <= 0x400_0000 && identity.totalSize <= around.cacheLimit
    requires stream.others + identity.totalSize <= stream.budget.limit
    requires stream.state.cursorKnown && stream.state.cacheData.None? && stream.state.logicalCursor == got
    requires if got == 0 then stream.state.captureStatus.Empty?
             else stream.state.captureStatus.Active? && stream.state.nextCaptureOffset == got
    modifies stream`log, stream`state, stream.state, stream.native`pos, stream.budget
    ensures stream.Valid() && stream.state == old(stream.state) && stream.native.payload == old(stream.native.payload)
    ensures got + |data| <= identity.totalSize && data == stream.native.payload[got..got + |data|]
    ensures handed == if data != [] && got + |data| == identity.totalSize
                      then Some(Handover(identity, stream.native.payload)) else None
    ensures data != [] && handed.None? ==>
              && stream.state.cursorKnown && stream.state.cacheData.None? && stream.state.captureStatus.Active?
              && stream.state.logicalCursor == stream.state.nextCaptureOffset == got + |data|
  {
    hide HonestLog, CompressedStreamState.Valid, HookedStream.Sound;
    var outcome;
    outcome, handed := stream.DoRead(toRead, true, identity, around);
    HonestPrior(stream.native.payload, stream.start, stream.log, stream.Position());
    data := [];
    if outcome.Bytes? {
      data := outcome.data;
    }
    assert stream.native.payload[..|stream.native.payload|] == stream.native.payload;
  }

  /** A caller that opens a stream and reads it in pieces of any size: outside loads, while
      the cache builds, and within the limits, the whole payload is handed over if and only
      if he has received the whole payload; nothing else ever is. */
  method LearnThrough(stream: HookedStream, payload: seq<Byte>, identity: StreamIdentity, around: Surroundings,
                      sizes: seq<U64>)
      returns (received: seq<Byte>, handed: Option<Handover>)
    requires stream.Valid() && 0 < |payload| == identity.totalSize <= 0x400_0000
    requires !around.suppressed && around.building && around.memory && around.found.None?
    requires identity.archive.Some? && identity.totalSize <= around.cacheLimit
    requires stream.others + identity.totalSize <= stream.budget.limit
    modifies stream`log, stream`state, stream`start, stream.state, stream.native, stream.budget
    ensures received <= payload
    ensures handed == if received == payload then Some(Handover(identity, payload)) else None
  {
    hide HonestLog, CompressedStreamState.Valid, HookedStream.Sound;
    stream.Open(payload, true, true, identity);
    received, handed := [], None;
    var i, going := 0, true;
    while i < |sizes| && going && handed.None?
      invariant stream.Valid() && stream.native.payload == payload && received <= payload
      invariant stream.state != null && fresh(stream.state) && stream.state.identity == identity
      invariant handed == if received == payload then Some(Handover(identity, payload)) else None
      invariant going && handed.None? ==>
                  && stream.state.cursorKnown && stream.state.cacheData.None?
                  && stream.state.logicalCursor == |received| < identity.totalSize
                  && (if received == [] then stream.state.captureStatus.Empty?
                      else stream.state.captureStatus.Active? && stream.state.nextCaptureOffset == |received|)
      decreases |sizes| - i
    {
      var data;
      data, handed := LearnNext(stream, identity, around, sizes[i], |received|);
      received := received + data;
      going := data != [];
      i := i + 1;
    }
  }

  /** A read of one byte that a decompressor with this byte next can answer. */
  predicate Delivers(outcome: Outcome, byte: Byte) {
    outcome == Bytes([byte]) || outcome == Bytes([]) || outcome == Failed
  }

  /** Before any cached byte: a read passed on returns the first byte, if the decompressor
      does its work, and moves only that; the next one attaches the cache and returns the
      first byte again. */
  method BypassRepeats() returns (passedOn: Outcome, next: Outcome)
    ensures Delivers(passedOn, 7) && next == Bytes([7])
    ensures UnhookedRun([7, 8], 0, [Read(1, true), Read(1, true)]).0 == [Bytes([7]), Bytes([8])]
  {
    TwoBytesUnhooked();
    var stream, identity, around := TwoBytes();
    passedOn := stream.ReadBypassed(1, true);
    OneByte(stream.native.payload, 0, passedOn);
    var answer, _ := stream.DoRead(1, true, identity, around);
    next := answer;
  }

  /** The same after a cached byte: the decompressor has not moved, and repeats it. */
  method BypassAfterCacheRepeats() returns (first: Outcome, passedOn: Outcome)
    ensures first == Bytes([7]) && Delivers(passedOn, 7)
  {
    TwoBytesUnhooked();
    var stream, identity, around := TwoBytes();
    var answer, _ := stream.DoRead(1, true, identity, around);
    first := answer;
    passedOn := stream.ReadBypassed(1, true);
    OneByte(stream.native.payload, 0, passedOn);
  }

  lemma OneByte(payload: seq<Byte>, from: nat, outcome: Outcome)
    requires from < |payload|
    requires outcome.Failed? || (outcome.Bytes? && |outcome.data| <= 1
               && from + |outcome.data| <= |payload| && outcome.data == payload[from..from + |outcome.data|])
    ensures Delivers(outcome, payload[from])
  {}

  lemma HonestByte(payload: seq<Byte>, e: Event)
    requires Honest(payload, e) && e.call == Read(1, true) && e.before < |payload|
    ensures Delivers(e.outcome, payload[e.before])
  {
  }

  /** A newly opened stream of two bytes, which the cache has. */
  method TwoBytes() returns (stream: HookedStream, identity: StreamIdentity, around: Surroundings)
    ensures fresh(stream) && fresh(stream.native) && fresh(stream.budget) && stream.Valid()
    ensures stream.state != null && fresh(stream.state) && !stream.Cached()
    ensures stream.native.payload == [7, 8] && stream.native.pos == 0 && stream.Position() == 0
    ensures stream.Trusted(around.found, identity.totalSize) && stream.WillServe(identity, around)
    ensures !around.unusable && !around.faults
  {
    var native := new NativeStream([], 0);
    var budget := new AtomicByteBudget(64);
    stream := new HookedStream(native, budget);
    identity := StreamIdentity(0, Some(0), 0, 2);
    around := Surroundings(false, true, true, Some([7, 8]), false, 0, false, false, false);
    stream.Open([7, 8], true, true, identity);
  }

  lemma TwoBytesUnhooked()
    ensures Unhooked([7, 8], 0, Read(1, true)) == (Bytes([7]), 1)
    ensures Unhooked([7, 8], 1, Read(1, true)) == (Bytes([8]), 2)
    ensures UnhookedRun([7, 8], 0, [Read(1, true), Read(1, true)]).0 == [Bytes([7]), Bytes([8])]
  {
    var payload: seq<Byte> := [7, 8];
    assert payload[0..1] == [7] && payload[1..2] == [8];
    UnhookedRunMore(payload, 0, [], Read(1, true));
    UnhookedRunMore(payload, 0, [Read(1, true)], Read(1, true));
    assert [] + [Read(1, true)] == [Read(1, true)];
    assert [Read(1, true)] + [Read(1, true)] == [Read(1, true), Read(1, true)];
  }
}
