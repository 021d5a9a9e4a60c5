/** The handshake between the background worker, the threads that request flushes and
    warm-ups, and the loading screens that suspend both (RequestFlush, RequestWarmup,
    SetLoadActive and the worker loop in Skyrim/src/DecompCache.cpp). A step is one
    critical section of the worker mutex or one access outside it. */
module Worker {

  datatype Phase =
    /** Holds the mutex, about to test its condition. */
    | Deciding
    /** In the condition-variable wait. */
    | Blocked
    /** Took both request flags. */
    | Took(flush: bool, warm: bool)
    /** Flushed, or not; about to look at the warm flag again. */
    | Flushed(warm: bool)
    | Choosing(warm: bool)
    | Warming

  datatype System = System(
    phase: Phase,
    loadActive: bool, flushRequested: bool, warmRequested: bool, warmComplete: bool,
    /** Threads that must still call notify_all. */
    notifications: nat,
    /** Threads that ended a load and must still request a flush, or a warm-up. */
    endsToFlush: nat, endsToWarm: nat,
    /** A request was made and no pass has started since. */
    flushOwed: bool, warmOwed: bool)

  /** How a warm pass ends. A refused or failed one leaves the cache cold and makes no
      request; the next turn of the worker tries again. */
  datatype PassEnd = Complete | Interrupted | Failed

  datatype Move =
    | RequestFlush
    | RequestWarm
    | BeginLoad
    | EndLoad
    /** A thread that ended a load makes its two requests. */
    | EndFlushes
    | EndWarms
    | Notify
    /** The wait's interval expires. */
    | Timeout
    | Decide
    /** `anyway`: something other than the signal calls for a flush. */
    | Flush(anyway: bool)
    | Poll
    | Choose
    /** A warm pass ends; an interrupted one asks for another. */
    | EndWarm(how: PassEnd)

  predicate Wanted(s: System) { !s.loadActive && (s.flushRequested || s.warmRequested) }

  predicate Possible(s: System, m: Move) {
    match m
    case RequestFlush => true
    case RequestWarm => true
    case BeginLoad => true
    case EndLoad => true
    case EndFlushes => s.endsToFlush > 0
    case EndWarms => s.endsToWarm > 0
    case Notify => s.notifications > 0
    case Timeout => s.phase.Blocked?
    case Decide => s.phase.Deciding?
    case Flush(_) => s.phase.Took?
    case Poll => s.phase.Flushed?
    case Choose => s.phase.Choosing?
    case EndWarm(_) => s.phase.Warming?
  }

  /** Repeated requests are coalesced: only the one that sets the flag notifies. */
  function WantFlush(s: System): System {
    s.(flushRequested := true, flushOwed := true,
       notifications := s.notifications + if s.flushRequested then 0 else 1)
  }

  function WantWarm(s: System): System {
    s.(warmRequested := true, warmOwed := true, warmComplete := false,
       notifications := s.notifications + if s.warmRequested then 0 else 1)
  }

  function Take(s: System): System {
    s.(phase := Took(s.flushRequested, s.warmRequested), flushRequested := false, warmRequested := false)
  }

  function Next(s: System, m: Move): System
    requires Possible(s, m)
  {
    match m
    case RequestFlush => WantFlush(s)
    case RequestWarm => WantWarm(s)
    case BeginLoad => s.(loadActive := true, notifications := s.notifications + if s.loadActive then 0 else 1)
    case EndLoad =>
      if s.loadActive then
        s.(loadActive := false, notifications := s.notifications + 1,
           endsToFlush := s.endsToFlush + 1, endsToWarm := s.endsToWarm + 1)
      else s
    case EndFlushes => WantFlush(s.(endsToFlush := s.endsToFlush - 1))
    case EndWarms => WantWarm(s.(endsToWarm := s.endsToWarm - 1))
    case Notify =>
      s.(notifications := s.notifications - 1, phase := if s.phase.Blocked? then Deciding else s.phase)
    case Timeout => if s.loadActive then s.(phase := Deciding) else Take(s)
    case Decide => if Wanted(s) then Take(s) else s.(phase := Blocked)
    case Flush(anyway) =>
      var t := s.(phase := Flushed(s.phase.warm));
      if (s.phase.flush || anyway) && !s.loadActive then t.(flushOwed := false) else t
    case Poll => s.(phase := Choosing(s.phase.warm || s.warmRequested), warmRequested := false)
    case Choose =>
      if !s.loadActive && (s.phase.warm || !s.warmComplete) then s.(phase := Warming, warmOwed := false)
      else s.(phase := Deciding)
    case EndWarm(how) =>
      var t := s.(phase := Deciding);
      var stale := s.warmRequested || s.flushRequested || s.loadActive;
      match how
      case Failed => if stale then t else t.(warmComplete := false)
      case Complete => if stale then WantWarm(t) else t.(warmComplete := true)
      case Interrupted => WantWarm(t)
  }

  // -------------------------------------------------------------- invariants

  /** Never blocked with its condition true and no notification on the way. */
  predicate NoLostWakeUp(s: System) {
    s.phase.Blocked? && Wanted(s) ==> s.notifications > 0
  }

  /** An owed flush is requested, taken, or will be requested by the end of the load that
      stands in its way. */
  predicate NoLostFlush(s: System) {
    s.flushOwed ==> s.flushRequested || (s.phase.Took? && s.phase.flush) || s.loadActive || s.endsToFlush > 0
  }

  predicate NoLostWarm(s: System) {
    s.warmOwed ==>
      || s.warmRequested
      || ((s.phase.Took? || s.phase.Flushed? || s.phase.Choosing?) && s.phase.warm)
      || s.loadActive || s.endsToWarm > 0
  }

  /** A requested pass, taken or not, is not taken for done. */
  predicate ColdWhileAsked(s: System) {
    || !s.warmComplete
    || (!s.warmRequested && !((s.phase.Took? || s.phase.Flushed? || s.phase.Choosing?) && s.phase.warm))
  }

  predicate Inv(s: System) { NoLostWakeUp(s) && NoLostFlush(s) && NoLostWarm(s) && ColdWhileAsked(s) }

  lemma NextKeepsInv(s: System, m: Move)
    requires Inv(s) && Possible(s, m)
    ensures Inv(Next(s, m))
  {
  }

  predicate Runs(s: System, run: seq<Move>)
    decreases |run|
  {
    run == [] || (Possible(s, run[0]) && Runs(Next(s, run[0]), run[1..]))
  }

  function Replay(s: System, run: seq<Move>): System
    requires Runs(s, run)
    decreases |run|
  {
    if run == [] then s else Replay(Next(s, run[0]), run[1..])
  }

  predicate Started(s: System) {
    s.phase.Deciding? && s.notifications == 0 && !s.flushOwed && !s.warmOwed && !s.warmRequested
  }

  /** In every reachable state, under any interleaving of requests, loads, timeouts and
      passes, no wake-up and no owed work is lost. */
  lemma {:induction false} NothingIsLost(s: System, run: seq<Move>)
    requires Inv(s) && Runs(s, run)
    ensures Inv(Replay(s, run))
    decreases |run|
  {
    if run != [] {
      NextKeepsInv(s, run[0]);
      NothingIsLost(Next(s, run[0]), run[1..]);
    }
  }

  lemma NothingIsLostFromStart(s: System, run: seq<Move>)
    requires Started(s) && Runs(s, run)
    ensures var t := Replay(s, run);
            NoLostWakeUp(t) && NoLostFlush(t) && NoLostWarm(t) && ColdWhileAsked(t)
  {
    NothingIsLost(s, run);
  }

  // ------------------------------------------- owed work is done once in the clear

  /** No load, and every end of a load has been followed up. */
  predicate Clear(s: System) { !s.loadActive && s.endsToFlush == 0 && s.endsToWarm == 0 }

  /** The worker itself moves on, or is woken. */
  predicate Works(s: System, m: Move) {
    || m.Decide? || m.Flush? || m.Poll? || m.Choose? || m.EndWarm?
    || (s.phase.Blocked? && (m.Notify? || m.Timeout?))
  }

  /** How many of the moves are the worker's. */
  function Worked(s: System, run: seq<Move>): nat
    requires Runs(s, run)
    decreases |run|
  {
    if run == [] then 0
    else Worked(Next(s, run[0]), run[1..]) + if Works(s, run[0]) then 1 else 0
  }

  /** A flush pass starts in the run. */
  predicate FlushStarts(s: System, run: seq<Move>)
    requires Runs(s, run)
    decreases |run|
  {
    run != [] &&
      ((run[0].Flush? && (s.phase.flush || run[0].anyway) && !s.loadActive)
       || FlushStarts(Next(s, run[0]), run[1..]))
  }

  /** A warm pass starts in the run. */
  predicate WarmStarts(s: System, run: seq<Move>)
    requires Runs(s, run)
    decreases |run|
  {
    run != [] &&
      ((run[0].Choose? && Next(s, run[0]).phase.Warming?) || WarmStarts(Next(s, run[0]), run[1..]))
  }

  /** How many moves the worker may still need to start a flush that is owed. */
  function FlushDistance(s: System): nat {
    match s.phase
    case Took(flush, _) => if flush then 1 else 6
    case Flushed(_) => 5
    case Choosing(_) => 4
    case Warming => 3
    case Blocked => 3
    case Deciding => 2
  }

  function WarmDistance(s: System): nat {
    match s.phase
    case Choosing(_) => 1
    case Flushed(_) => 2
    case Took(_, _) => 3
    case Deciding => 4
    case Blocked => 5
    case Warming => 5
  }

  /** Outside loads the worker can always move while work is owed. */
  lemma WorkerCanMove(s: System) returns (m: Move)
    requires Inv(s) && Clear(s) && (s.flushOwed || s.warmOwed)
    ensures Possible(s, m) && Works(s, m)
  {
    match s.phase {
      case Deciding => m := Decide;
      case Blocked => m := Notify;
      case Took(_, _) => m := Flush(false);
      case Flushed(_) => m := Poll;
      case Choosing(_) => m := Choose;
      case Warming => m := EndWarm(Complete);
    }
  }

  lemma StepTowardsFlush(s: System, m: Move)
    requires Inv(s) && Clear(s) && Possible(s, m) && !m.BeginLoad? && s.flushOwed
    requires !(m.Flush? && (s.phase.flush || m.anyway))
    ensures var t := Next(s, m);
            && Inv(t) && Clear(t) && t.flushOwed
            && FlushDistance(t) + (if Works(s, m) then 1 else 0) <= FlushDistance(s)
  {
    NextKeepsInv(s, m);
  }

  lemma StepTowardsWarm(s: System, m: Move)
    requires Inv(s) && Clear(s) && Possible(s, m) && !m.BeginLoad? && s.warmOwed
    requires !(m.Choose? && Next(s, m).phase.Warming?)
    ensures var t := Next(s, m);
            && Inv(t) && Clear(t) && t.warmOwed
            && WarmDistance(t) + (if Works(s, m) then 1 else 0) <= WarmDistance(s)
  {
    NextKeepsInv(s, m);
  }

  lemma {:induction false} OwedFlushStarts(s: System, run: seq<Move>)
    requires Inv(s) && Clear(s) && s.flushOwed && Runs(s, run) && BeginLoad !in run
    requires FlushDistance(s) <= Worked(s, run)
    ensures FlushStarts(s, run)
    decreases |run|
  {
    var m := run[0];
    if !(m.Flush? && (s.phase.flush || m.anyway)) {
      StepTowardsFlush(s, m);
      OwedFlushStarts(Next(s, m), run[1..]);
    }
  }

  lemma {:induction false} OwedWarmStarts(s: System, run: seq<Move>)
    requires Inv(s) && Clear(s) && s.warmOwed && Runs(s, run) && BeginLoad !in run
    requires WarmDistance(s) <= Worked(s, run)
    ensures WarmStarts(s, run)
    decreases |run|
  {
    var m := run[0];
    if !(m.Choose? && Next(s, m).phase.Warming?) {
      StepTowardsWarm(s, m);
      OwedWarmStarts(Next(s, m), run[1..]);
    }
  }

  /** Outside loads, whatever requests, notifications, timeouts and failing passes come in
      between, six moves of the worker are enough for every pass that is owed to start, and
      the worker is never stuck before. */
  lemma OwedWorkStarts(s: System, run: seq<Move>)
    requires Inv(s) && Clear(s) && Runs(s, run) && BeginLoad !in run && 6 <= Worked(s, run)
    ensures s.flushOwed ==> FlushStarts(s, run)
    ensures s.warmOwed ==> WarmStarts(s, run)
    ensures s.flushOwed || s.warmOwed ==> exists m :: Possible(s, m) && Works(s, m)
  {
    if s.flushOwed {
      OwedFlushStarts(s, run);
    }
    if s.warmOwed {
      OwedWarmStarts(s, run);
    }
    if s.flushOwed || s.warmOwed {
      var m := WorkerCanMove(s);
    }
  }

  // ------------------------------------- what requests, loads and passes amount to

  lemma StaysOwed(s: System, m: Move)
    requires Possible(s, m)
    ensures s.flushOwed ==>
              Next(s, m).flushOwed || (m.Flush? && (s.phase.flush || m.anyway) && !s.loadActive)
    ensures s.warmOwed ==> Next(s, m).warmOwed || (m.Choose? && Next(s, m).phase.Warming?)
  {
  }

  /** What is owed stays owed until a pass starts. */
  lemma {:induction false} OwedUntilStarted(s: System, run: seq<Move>)
    requires Runs(s, run)
    ensures s.flushOwed && !FlushStarts(s, run) ==> Replay(s, run).flushOwed
    ensures s.warmOwed && !WarmStarts(s, run) ==> Replay(s, run).warmOwed
    decreases |run|
  {
    hide Next;
    if run != [] {
      StaysOwed(s, run[0]);
      OwedUntilStarted(Next(s, run[0]), run[1..]);
    }
  }

  /** A request, by a caller or by the end of a load, is followed by a pass within six moves
      of the worker. */
  lemma RequestsAreServed(s: System, m: Move, run: seq<Move>)
    requires Inv(s) && Possible(s, m) && Clear(Next(s, m))
    requires Runs(Next(s, m), run) && BeginLoad !in run && 6 <= Worked(Next(s, m), run)
    ensures m.RequestFlush? || m.EndFlushes? ==> FlushStarts(Next(s, m), run)
    ensures m.RequestWarm? || m.EndWarms? || m == EndWarm(Interrupted) ==> WarmStarts(Next(s, m), run)
    ensures m == EndWarm(Complete) && !Next(s, m).warmComplete ==> WarmStarts(Next(s, m), run)
  {
    NextKeepsInv(s, m);
    OwedWorkStarts(Next(s, m), run);
  }

  lemma LoadStep(s: System, m: Move)
    requires Possible(s, m) && s.loadActive && !m.EndLoad?
    ensures var t := Next(s, m);
            && t.loadActive && (s.flushOwed ==> t.flushOwed) && (s.warmOwed ==> t.warmOwed)
            && (t.phase.Warming? ==> s.phase.Warming? && !m.Choose?) && (t.warmComplete ==> s.warmComplete)
  {
  }

  /** A loading screen suspends the worker: until it ends no pass starts, nothing that is
      owed is taken for done, and no running pass makes the cache complete. */
  lemma {:induction false} LoadsSuspend(s: System, run: seq<Move>)
    requires Runs(s, run) && s.loadActive && EndLoad !in run
    ensures !FlushStarts(s, run) && !WarmStarts(s, run)
    ensures var t := Replay(s, run);
            && t.loadActive && (s.flushOwed ==> t.flushOwed) && (s.warmOwed ==> t.warmOwed)
            && (t.phase.Warming? ==> s.phase.Warming?) && (t.warmComplete ==> s.warmComplete)
    decreases |run|
  {
    hide Next;
    if run != [] {
      LoadStep(s, run[0]);
      LoadsSuspend(Next(s, run[0]), run[1..]);
    }
  }

  /** The cache counts as complete from a pass that ran to its end with nothing requested and
      no load, until the next request or the next failure. */
  lemma CompleteIff(s: System, m: Move)
    requires Possible(s, m)
    ensures Next(s, m).warmComplete <==>
              || (m == EndWarm(Complete) && !s.loadActive && !s.flushRequested && !s.warmRequested)
              || (s.warmComplete && !m.RequestWarm? && !m.EndWarms? && m != EndWarm(Interrupted)
                  && m != EndWarm(Complete)
                  && (m == EndWarm(Failed) ==> s.loadActive || s.flushRequested || s.warmRequested))
  {
  }

  /** Outside loads a cold cache is warmed on every turn of the worker, requested or not. */
  lemma ColdIsWarmed(s: System)
    requires s.phase.Choosing? && !s.loadActive
    ensures Next(s, Choose).phase.Warming? <==> s.phase.warm || !s.warmComplete
  {
  }
}
