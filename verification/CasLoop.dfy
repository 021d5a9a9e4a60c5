/** Threads that share one atomic cell and change it only by compare-and-swap loops:
    load, decide, try to swap, and start over from the value the failed swap loaded.
    Swaps may also fail spuriously (compare_exchange_weak). */
module CasLoop {

  /** What an operation decides from the value it loaded: swap in `next`, or return
      without writing. */
  datatype Outcome<R> = Write(next: nat, result: R) | Stop(result: R)

  /** What other threads do to the cell before one caller's next swap attempt, and whether
      that attempt fails for no reason. */
  datatype Interference<T> = Interference(written: T, spurious: bool)

  datatype Thread<Q> = Idle | Looping(request: Q, observed: nat)

  /** A finished operation, at the point where it took effect. */
  datatype Finished<Q, R> = Finished(request: Q, before: nat, outcome: Outcome<R>)
  {
    function After(): nat { if outcome.Write? then outcome.next else before }
  }

  datatype System<Q, R> = System(cell: nat, threads: seq<Thread<Q>>, log: seq<Finished<Q, R>>)

  datatype Move<Q> = Call(t: nat, request: Q) | Attempt(t: nat, spurious: bool)

  predicate Possible<Q, R>(s: System<Q, R>, m: Move<Q>) {
    m.t < |s.threads| && (m.Call? <==> s.threads[m.t].Idle?)
  }

  /** A load, and the decision that depends on nothing else. */
  function Load<Q, R>(op: (Q, nat) -> Outcome<R>, s: System<Q, R>, t: nat, request: Q): System<Q, R>
    requires t < |s.threads|
  {
    var outcome := op(request, s.cell);
    if outcome.Write? then s.(threads := s.threads[t := Looping(request, s.cell)])
    else s.(threads := s.threads[t := Idle], log := s.log + [Finished(request, s.cell, outcome)])
  }

  function Next<Q, R>(op: (Q, nat) -> Outcome<R>, s: System<Q, R>, m: Move<Q>): System<Q, R>
    requires Possible(s, m)
  {
    if m.Call? then Load(op, s, m.t, m.request)
    else
      var thread := s.threads[m.t];
      var outcome := op(thread.request, thread.observed);
      if s.cell == thread.observed && !m.spurious && outcome.Write? then
        System(outcome.next, s.threads[m.t := Idle],
               s.log + [Finished(thread.request, thread.observed, outcome)])
      else Load(op, s, m.t, thread.request)
  }

  predicate Runs<Q, R>(op: (Q, nat) -> Outcome<R>, s: System<Q, R>, run: seq<Move<Q>>)
    decreases |run|
  {
    run == [] || (Possible(s, run[0]) && Runs(op, Next(op, s, run[0]), run[1..]))
  }

  function Replay<Q, R>(op: (Q, nat) -> Outcome<R>, s: System<Q, R>, run: seq<Move<Q>>): System<Q, R>
    requires Runs(op, s, run)
    decreases |run|
  {
    if run == [] then s else Replay(op, Next(op, s, run[0]), run[1..])
  }

  /** The log is a history of whole operations, one after the other, from `start` to `end`. */
  predicate Sequential<Q, R(==)>(op: (Q, nat) -> Outcome<R>, start: nat, log: seq<Finished<Q, R>>, end: nat) {
    if log == [] then start == end
    else
      var last := log[|log| - 1];
      && last.outcome == op(last.request, last.before)
      && end == last.After()
      && Sequential(op, start, log[..|log| - 1], last.before)
  }

  lemma {:induction false} NextIsSequential<Q, R>(op: (Q, nat) -> Outcome<R>, start: nat, s: System<Q, R>, m: Move<Q>)
    requires Possible(s, m) && Sequential(op, start, s.log, s.cell)
    ensures Sequential(op, start, Next(op, s, m).log, Next(op, s, m).cell)
  {
    var t := Next(op, s, m);
    if t.log != s.log {
      assert t.log[..|t.log| - 1] == s.log;
    }
  }

  /** Whatever the interleaving, and however often swaps fail, the operations took effect
      one at a time: the log replays sequentially from the first value to the last. */
  lemma {:induction false} Linearises<Q, R>(op: (Q, nat) -> Outcome<R>, start: nat, s: System<Q, R>, run: seq<Move<Q>>)
    requires Runs(op, s, run) && Sequential(op, start, s.log, s.cell)
    ensures Sequential(op, start, Replay(op, s, run).log, Replay(op, s, run).cell)
    ensures s.log <= Replay(op, s, run).log
    decreases |run|
  {
    if run != [] {
      NextIsSequential(op, start, s, run[0]);
      Linearises(op, start, Next(op, s, run[0]), run[1..]);
    }
  }
}
