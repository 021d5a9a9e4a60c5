/** The shared byte budget (Skyrim/src/AtomicByteBudget.h) and the capture charges it
    accounts for (Skyrim/src/Hooks.cpp). */
module ByteBudget {
  import opened ByteCodec
  import opened CasLoop
  import opened Sums

  datatype Request = TryReserve(bytes: U64) | Release(bytes: U64)

  /** The decision of one round of either loop. */
  function Decide(limit: U64, request: Request, current: nat): Outcome<bool> {
    match request
    case TryReserve(bytes) =>
      if current > limit || bytes > limit - current then Stop(false) else Write(current + bytes, true)
    case Release(bytes) =>
      if bytes > current then Stop(false) else Write(current - bytes, true)
  }

  type History = seq<Finished<Request, bool>>

  /** Bytes reserved and not released by the successful operations. */
  function Outstanding(log: History): int {
    if log == [] then 0
    else
      var last := log[|log| - 1];
      Outstanding(log[..|log| - 1])
      + if !last.outcome.result then 0
        else match last.request case TryReserve(bytes) => bytes as int case Release(bytes) => -(bytes as int)
  }

  /** In every history the counter is what was reserved and not yet released, never passes
      the limit, and a reservation is refused exactly when it would pass it. */
  lemma {:induction false} CounterIsExact(limit: U64, log: History, used: nat)
    requires Sequential((q: Request, c: nat) => Decide(limit, q, c), 0, log, used)
    ensures used == Outstanding(log) && used <= limit
    ensures forall k :: 0 <= k < |log| ==>
              (log[k].outcome.result <==>
                 if log[k].request.TryReserve? then log[k].before + log[k].request.bytes <= limit
                 else log[k].request.bytes <= log[k].before)
  {
    if log != [] {
      var last := log[|log| - 1];
      CounterIsExact(limit, log[..|log| - 1], last.before);
    }
  }

  lemma ConcurrentBudget(limit: U64, s: System<Request, bool>, run: seq<Move<Request>>)
    requires var op := (q: Request, c: nat) => Decide(limit, q, c); Runs(op, s, run)
    requires s.log == [] && s.cell == 0
    ensures var op := (q: Request, c: nat) => Decide(limit, q, c);
            var t := Replay(op, s, run);
            t.cell <= limit && t.cell == Outstanding(t.log)
  {
    var op := (q: Request, c: nat) => Decide(limit, q, c);
    Linearises(op, 0, s, run);
    var t := Replay(op, s, run);
    CounterIsExact(limit, t.log, t.cell);
  }

  // -------------------------------------------------------- the shared counter

  class AtomicByteBudget {
    const limit: U64
    var used: U64

    constructor (limit: U64)
      ensures this.limit == limit && used == 0
    {
      this.limit, used := limit, 0;
    }

    /** `at` is the counter at the point where the reservation takes effect or is refused. */
    method TryReserve(bytes: U64, others: seq<Interference<U64>>) returns (ok: bool, ghost at: U64)
      modifies this
      ensures at == old(used) || exists i :: 0 <= i < |others| && others[i].written == at
      ensures ok <==> at + bytes <= limit
      ensures ok ==> used == at + bytes
      ensures others == [] ==> at == old(used) && (!ok ==> used == old(used))
    {
      var current := used;
      var i := 0;
      while true
        invariant i <= |others|
        invariant current == old(used) || exists k :: 0 <= k < |others| && others[k].written == current
        invariant i == 0 ==> used == old(used) == current
        invariant i == |others| ==> used == current
        decreases |others| - i
      {
        if current > limit || bytes > limit - current {
          return false, current;
        }
        var spurious := false;
        if i < |others| {
          used := others[i].written;
          spurious := others[i].spurious;
        }
        if used == current && !spurious {
          used := current + bytes;
          return true, current;
        }
        current := used;
        i := i + 1;
      }
    }

    method Release(bytes: U64, others: seq<Interference<U64>>) returns (ok: bool, ghost at: U64)
      modifies this
      ensures at == old(used) || exists i :: 0 <= i < |others| && others[i].written == at
      ensures ok <==> bytes <= at
      ensures ok ==> used == at - bytes
      ensures others == [] ==> at == old(used) && (!ok ==> used == old(used))
    {
      var current := used;
      var i := 0;
      while true
        invariant i <= |others|
        invariant current == old(used) || exists k :: 0 <= k < |others| && others[k].written == current
        invariant i == 0 ==> used == old(used) == current
        invariant i == |others| ==> used == current
        decreases |others| - i
      {
        if bytes > current {
          return false, current;
        }
        var spurious := false;
        if i < |others| {
          used := others[i].written;
          spurious := others[i].spurious;
        }
        if used == current && !spurious {
          used := current - bytes;
          return true, current;
        }
        current := used;
        i := i + 1;
      }
    }
  }

  // ----------------------------------------------------------- capture charges

  /** What one stream owes: the charge of its running capture, and the charge of a
      completed one until its payload was recorded. */
  datatype Stream = Stream(charge: nat, completed: nat)

  function Owed(s: Stream): nat { s.charge + s.completed }

  /** The counter and the charges, between atomic operations. */
  datatype Captures = Captures(limit: U64, used: nat, streams: seq<Stream>)

  datatype Event =
    /** `BeginCapture`: reserve the whole entry. A refusal or a failed allocation leaves no charge. */
    | Begin(i: nat, bytes: U64, allocates: bool)
    /** The last byte arrived: the charge moves with the payload. */
    | Complete(i: nat)
    /** The payload was handed over, or recording it failed. */
    | Recorded(i: nat)
    /** Cleared by a seek, an error, an attached entry, or destruction. */
    | Clear(i: nat)

  predicate Can(c: Captures, e: Event) {
    e.i < |c.streams| && (e.Begin? ==> c.streams[e.i].charge == 0)
    && (e.Complete? ==> c.streams[e.i].completed == 0)
  }

  predicate Admits(c: Captures, bytes: nat) { c.used <= c.limit && bytes <= c.limit - c.used }

  /** A release that would underflow is refused and leaves the counter alone. */
  function Released(used: nat, bytes: nat): nat { if bytes > used then used else used - bytes }

  function After(c: Captures, e: Event): Captures
    requires Can(c, e)
  {
    var s := c.streams[e.i];
    match e
    case Begin(i, bytes, allocates) =>
      if Admits(c, bytes) && allocates then
        c.(used := c.used + bytes, streams := c.streams[i := s.(charge := bytes)])
      else if Admits(c, bytes) then c.(used := Released(c.used + bytes, bytes))
      else c
    case Complete(i) => c.(streams := c.streams[i := Stream(0, s.charge)])
    case Recorded(i) =>
      c.(used := Released(c.used, s.completed), streams := c.streams[i := s.(completed := 0)])
    case Clear(i) =>
      c.(used := Released(c.used, s.charge), streams := c.streams[i := s.(charge := 0)])
  }

  predicate Exact(c: Captures) { c.used == SumOver(c.streams, Owed) && c.used <= c.limit }

  lemma NextIsExact(c: Captures, e: Event)
    requires Exact(c) && Can(c, e)
    ensures Exact(After(c, e)) && After(c, e).limit == c.limit
    ensures var s, t := c.streams[e.i], After(c, e).streams[e.i];
            && (e.Begin? ==> t.completed == s.completed
                             && t.charge == if c.used + e.bytes <= c.limit && e.allocates then e.bytes else 0)
            && (e.Complete? ==> t.charge == 0 && t.completed == s.charge)
            && (e.Recorded? ==> t.charge == s.charge && t.completed == 0)
            && (e.Clear? ==> t.charge == 0 && t.completed == s.completed)
    ensures After(c, e).streams == c.streams[e.i := After(c, e).streams[e.i]]
  {
    hide SumOver;
    var d := After(c, e);
    SumPart(c.streams, e.i, Owed);
    SumUpdate(c.streams, e.i, d.streams[e.i], Owed);
    assert d.streams == c.streams[e.i := d.streams[e.i]];
  }

  predicate Plays(c: Captures, run: seq<Event>)
    decreases |run|
  {
    run == [] || (Can(c, run[0]) && Plays(After(c, run[0]), run[1..]))
  }

  function Play(c: Captures, run: seq<Event>): Captures
    requires Plays(c, run)
    decreases |run|
  {
    if run == [] then c else Play(After(c, run[0]), run[1..])
  }

  /** In every interleaving of captures, the counter is exactly what live streams and
      completed payloads owe, and no release is ever refused or forgotten. */
  lemma {:induction false} ChargesAreConserved(c: Captures, run: seq<Event>)
    requires Exact(c) && Plays(c, run)
    ensures Exact(Play(c, run)) && Play(c, run).limit == c.limit
    decreases |run|
  {
    if run != [] {
      NextIsExact(c, run[0]);
      ChargesAreConserved(After(c, run[0]), run[1..]);
    }
  }
}
