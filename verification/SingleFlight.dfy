/** Lazy checksum verification of one cached entry, shared by any number of threads
    (VerifyEntry in Skyrim/src/DecompCache.cpp). Each step is one atomic access. */
module SingleFlight {

  datatype Verdict = Unknown | Busy | Valid | Invalid

  datatype Caller =
    | Outside
    /** About to load the state. */
    | Looping
    /** Loaded `Unknown`, about to swap in `Busy`. */
    | Trying
    | Computing
    | Waiting
    | Returned(valid: bool)

  /** `matches` is that the payload's checksum equals the index entry's; `preMarked` that
      the commit which mapped the file had verified it; `computed` counts computations. */
  datatype Entry = Entry(verdict: Verdict, callers: seq<Caller>, matches: bool, preMarked: bool, computed: nat)

  datatype Move =
    | Enter(t: nat)
    | Load(t: nat)
    | Swap(t: nat)
    /** The computation ends; `readable` is that no page of the mapping faulted. */
    | Finish(t: nat, readable: bool)
    /** A waiter returns from the wait, because it was notified or for no reason. */
    | Wake(t: nat)

  predicate Possible(e: Entry, m: Move) {
    m.t < |e.callers| &&
    match m
    case Enter(t) => e.callers[t].Outside? || e.callers[t].Returned?
    case Load(t) => e.callers[t].Looping?
    case Swap(t) => e.callers[t].Trying?
    case Finish(t, _) => e.callers[t].Computing?
    case Wake(t) => e.callers[t].Waiting?
  }

  function Next(e: Entry, m: Move): Entry
    requires Possible(e, m)
  {
    match m
    case Enter(t) => e.(callers := e.callers[t := Looping])
    case Load(t) =>
      var next := match e.verdict
        case Valid => Returned(true)
        case Invalid => Returned(false)
        case Unknown => Trying
        case Busy => Waiting;
      e.(callers := e.callers[t := next])
    case Swap(t) =>
      if e.verdict.Unknown? then
        e.(verdict := Busy, callers := e.callers[t := Computing], computed := e.computed + 1)
      else e.(callers := e.callers[t := Looping])
    case Finish(t, readable) =>
      var valid := readable && e.matches;
      e.(verdict := if valid then Valid else Invalid, callers := e.callers[t := Returned(valid)])
    case Wake(t) => e.(callers := e.callers[t := Looping])
  }

  /** Just mapped: pre-marked entries are valid, others unknown. */
  predicate Mapped(e: Entry) {
    && e.verdict == (if e.preMarked then Valid else Unknown) && e.computed == 0
    && forall t :: 0 <= t < |e.callers| ==> e.callers[t].Outside?
  }

  /** This caller computes, and no other does. */
  ghost predicate OnlyComputing(callers: seq<Caller>, t: nat) {
    && t < |callers| && callers[t].Computing?
    && forall u :: 0 <= u < |callers| && u != t ==> !callers[u].Computing?
  }

  ghost predicate Inv(e: Entry) {
    && (e.verdict.Unknown? ==> e.computed == 0 && !e.preMarked)
    && e.computed <= (if e.preMarked then 0 else 1)
    && (e.verdict.Valid? ==> e.preMarked || e.matches)
    && (e.verdict.Invalid? || e.verdict.Busy? ==> e.computed == 1)
    && (e.verdict.Busy? ==> exists t :: OnlyComputing(e.callers, t))
    && (!e.verdict.Busy? ==> forall t :: 0 <= t < |e.callers| ==> !e.callers[t].Computing?)
    && (forall t :: 0 <= t < |e.callers| && e.callers[t].Returned? ==>
          e.verdict == if e.callers[t].valid then Valid else Invalid)
  }

  predicate Settled(v: Verdict) { v.Valid? || v.Invalid? }

  lemma NextKeepsInv(e: Entry, m: Move)
    requires Inv(e) && Possible(e, m)
    ensures Inv(Next(e, m))
    ensures Settled(e.verdict) ==> Next(e, m).verdict == e.verdict
    ensures Next(e, m).matches == e.matches && Next(e, m).preMarked == e.preMarked
  {
    var n := Next(e, m);
    assert !e.verdict.Busy? ==> !e.callers[m.t].Computing?;
    if e.verdict.Busy? {
      var t :| OnlyComputing(e.callers, t);
      assert m.Finish? || OnlyComputing(n.callers, t);
    } else if m.Swap? && e.verdict.Unknown? {
      assert OnlyComputing(n.callers, m.t);
    }
  }

  predicate Runs(e: Entry, run: seq<Move>)
    decreases |run|
  {
    run == [] || (Possible(e, run[0]) && Runs(Next(e, run[0]), run[1..]))
  }

  function Replay(e: Entry, run: seq<Move>): Entry
    requires Runs(e, run)
    decreases |run|
  {
    if run == [] then e else Replay(Next(e, run[0]), run[1..])
  }

  lemma {:induction false} EveryRunKeepsInv(e: Entry, run: seq<Move>)
    requires Inv(e) && Runs(e, run)
    ensures Inv(Replay(e, run))
    ensures Settled(e.verdict) ==> Replay(e, run).verdict == e.verdict
    ensures Replay(e, run).matches == e.matches && Replay(e, run).preMarked == e.preMarked
    decreases |run|
  {
    if run != [] {
      NextKeepsInv(e, run[0]);
      EveryRunKeepsInv(Next(e, run[0]), run[1..]);
    }
  }

  /** From a mapped entry, however callers interleave: at most one computes the checksum,
      all that return agree, and they return valid only if the checksum matched or the
      commit had verified the entry. */
  lemma AtMostOneComputesAndAllAgree(e: Entry, run: seq<Move>)
    requires Mapped(e) && Runs(e, run)
    ensures var n := Replay(e, run);
            && n.computed <= 1 && (e.preMarked ==> n.computed == 0)
            && (forall t, u :: 0 <= t < |n.callers| && 0 <= u < |n.callers|
                               && n.callers[t].Returned? && n.callers[u].Returned? ==>
                                 n.callers[t].valid == n.callers[u].valid)
            && (forall t :: 0 <= t < |n.callers| && n.callers[t].Returned? && n.callers[t].valid ==>
                              e.preMarked || e.matches)
            && (forall t :: 0 <= t < |n.callers| && n.callers[t].Returned? && !n.callers[t].valid ==>
                              !e.preMarked)
  {
    EveryRunKeepsInv(e, run);
  }

  /** A settled entry is not computed again. */
  lemma {:induction false} SettledNeverFinishes(e: Entry, run: seq<Move>)
    requires Inv(e) && Runs(e, run) && Settled(e.verdict)
    ensures forall i :: 0 <= i < |run| ==> !run[i].Finish?
    decreases |run|
  {
    if run != [] {
      NextKeepsInv(e, run[0]);
      SettledNeverFinishes(Next(e, run[0]), run[1..]);
      assert forall i :: 0 < i < |run| ==> run[i] == run[1..][i - 1];
    }
  }

  /** Some computation of the run read the whole payload. */
  predicate WasRead(run: seq<Move>) { exists i :: 0 <= i < |run| && run[i].Finish? && run[i].readable }

  lemma {:induction false} OpenVerdictIff(e: Entry, run: seq<Move>)
    requires Inv(e) && Runs(e, run) && !Settled(e.verdict) && Settled(Replay(e, run).verdict)
    ensures Replay(e, run).verdict.Valid? <==> e.matches && WasRead(run)
    decreases |run|
  {
    hide Inv;
    var n := Next(e, run[0]);
    NextKeepsInv(e, run[0]);
    if Settled(n.verdict) {
      EveryRunKeepsInv(n, run[1..]);
      SettledNeverFinishes(n, run[1..]);
      assert forall i :: 0 < i < |run| ==> run[i] == run[1..][i - 1];
      assert run[0].Finish?;
    } else {
      OpenVerdictIff(n, run[1..]);
      assert forall i :: 0 <= i < |run| - 1 ==> run[1..][i] == run[i + 1];
      assert WasRead(run) <==> WasRead(run[1..]);
    }
  }

  /** The verdict an entry ends with: valid exactly when the commit had verified it, or the
      checksum matches and the one computation could read every page. So a caller that
      returns finds a sound, readable entry valid, and every other one invalid. */
  lemma VerdictIff(e: Entry, run: seq<Move>)
    requires Mapped(e) && Runs(e, run)
    ensures var n := Replay(e, run);
            && (Settled(n.verdict) ==> (n.verdict.Valid? <==> e.preMarked || (e.matches && WasRead(run))))
            && (forall t :: 0 <= t < |n.callers| && n.callers[t].Returned? ==>
                  (n.callers[t].valid <==> e.preMarked || (e.matches && WasRead(run))))
  {
    EveryRunKeepsInv(e, run);
    if !e.preMarked && Settled(Replay(e, run).verdict) {
      OpenVerdictIff(e, run);
    }
  }

  /** A verdict, once reached, is what every later caller gets, whatever happens after. */
  lemma VerdictsAreFinal(e: Entry, before: seq<Move>, after: seq<Move>)
    requires Mapped(e) && Runs(e, before) && Runs(Replay(e, before), after)
    requires Settled(Replay(e, before).verdict)
    ensures Replay(Replay(e, before), after).verdict == Replay(e, before).verdict
  {
    EveryRunKeepsInv(e, before);
    EveryRunKeepsInv(Replay(e, before), after);
  }
}
