/** The shard map from streams to side states, and the per-thread shortcut past its mutex
    (FindCompressedState, PublishCompressedStateIfAbsent, TryReplaceCompressedState,
    ReplaceCompressedState and RetireCompressedState in Skyrim/src/Hooks.cpp). Operations
    hold the shard mutex and are one step each, except that retirement erases the map
    entry before it marks the state: the shortcut, which takes no mutex, can run between. */
module StreamRegistry {
  import opened Basics

  type Stream = nat
  /** Identifies a side state object. */
  type Id = nat

  /** What a thread remembers of its last access. */
  datatype Shortcut = Nothing | Last(stream: Stream, id: Id)

  datatype Registry = Registry(
    states: map<Stream, Id>,
    retired: set<Id>,
    /** Every state that was ever in the map, with its stream. */
    owner: map<Id, Stream>,
    /** Retirements between the erasure and the mark; the shard mutex is held. */
    closing: map<Stream, Id>,
    threads: seq<Shortcut>)

  datatype Move =
    /** Publishes a new state unless a live one is there. */
    | Publish(t: nat, stream: Stream, id: Id)
    /** Replaces an expected live state. */
    | TryReplace(t: nat, stream: Stream, expected: Id, id: Id)
    /** Replaces whatever is there. */
    | Replace(t: nat, stream: Stream, id: Id)
    | Erase(stream: Stream)
    | Mark(stream: Stream)
    /** The retiring thread forgets the stream. */
    | Forget(t: nat, stream: Stream)
    /** A lookup under the mutex, after the shortcut missed. */
    | FindSlow(t: nat, stream: Stream)

  predicate Possible(g: Registry, m: Move) {
    match m
    case Publish(t, stream, id) => t < |g.threads| && stream !in g.closing && id !in g.owner
    case TryReplace(t, stream, _, id) => t < |g.threads| && stream !in g.closing && id !in g.owner
    case Replace(t, stream, id) => t < |g.threads| && stream !in g.closing && id !in g.owner
    case Erase(stream) => stream in g.states && stream !in g.closing
    case Mark(stream) => stream in g.closing
    case Forget(t, stream) => t < |g.threads|
    case FindSlow(t, stream) => t < |g.threads| && stream !in g.closing
  }

  /** The state a lookup or publication leaves the thread with. */
  function Remember(g: Registry, t: nat, stream: Stream, id: Id): Registry
    requires t < |g.threads|
  {
    g.(threads := g.threads[t := Last(stream, id)])
  }

  /** Puts a new state in the map, retiring the one it displaces. */
  function Install(g: Registry, t: nat, stream: Stream, id: Id): Registry
    requires t < |g.threads|
  {
    Remember(g.(states := g.states[stream := id], owner := g.owner[id := stream],
                retired := if stream in g.states then g.retired + {g.states[stream]} else g.retired),
             t, stream, id)
  }

  predicate Live(g: Registry, stream: Stream) { stream in g.states && g.states[stream] !in g.retired }

  function Next(g: Registry, m: Move): Registry
    requires Possible(g, m)
  {
    match m
    case Publish(t, stream, id) =>
      if Live(g, stream) then Remember(g, t, stream, g.states[stream]) else Install(g, t, stream, id)
    case TryReplace(t, stream, expected, id) =>
      if Live(g, stream) && g.states[stream] == expected then Install(g, t, stream, id) else g
    case Replace(t, stream, id) => Install(g, t, stream, id)
    case Erase(stream) =>
      g.(states := g.states - {stream}, closing := g.closing[stream := g.states[stream]])
    case Mark(stream) =>
      g.(retired := g.retired + {g.closing[stream]}, closing := g.closing - {stream})
    case Forget(t, stream) =>
      if g.threads[t].Last? && g.threads[t].stream == stream then g.(threads := g.threads[t := Nothing]) else g
    case FindSlow(t, stream) =>
      if Live(g, stream) then Remember(g, t, stream, g.states[stream]) else g
  }

  /** What the shortcut answers: the remembered state unless it is marked. */
  function Fast(g: Registry, t: nat, stream: Stream): Option<Id>
    requires t < |g.threads|
  {
    var s := g.threads[t];
    if s.Last? && s.stream == stream && s.id !in g.retired then Some(s.id) else None
  }

  // --------------------------------------------------------------- invariant

  /** The state is in the map, or is being retired, for this stream. */
  predicate Held(g: Registry, stream: Stream, id: Id) {
    (stream in g.states && g.states[stream] == id) || (stream in g.closing && g.closing[stream] == id)
  }

  ghost predicate Inv(g: Registry) {
    && (forall id :: id in g.owner ==> id in g.retired || Held(g, g.owner[id], id))
    && (forall stream :: stream in g.states ==>
          && g.states[stream] in g.owner && g.owner[g.states[stream]] == stream
          && g.states[stream] !in g.retired && stream !in g.closing)
    && (forall stream :: stream in g.closing ==>
          && g.closing[stream] in g.owner && g.owner[g.closing[stream]] == stream
          && g.closing[stream] !in g.retired)
    && (forall id :: id in g.retired ==> id in g.owner)
    && (forall t :: 0 <= t < |g.threads| && g.threads[t].Last? ==>
          g.threads[t].id in g.owner && g.owner[g.threads[t].id] == g.threads[t].stream)
  }

  lemma InstallKeepsInv(g: Registry, t: nat, stream: Stream, id: Id)
    requires Inv(g) && t < |g.threads| && stream !in g.closing && id !in g.owner
    ensures Inv(Install(g, t, stream, id)) && g.retired <= Install(g, t, stream, id).retired
    ensures var n := Install(g, t, stream, id);
            forall i :: i in g.owner ==> i in n.owner && n.owner[i] == g.owner[i]
  {
    var n := Install(g, t, stream, id);
    forall i | i in n.owner ensures i in n.retired || Held(n, n.owner[i], i) {
      assert i != id ==> i in g.owner;
    }
  }

  lemma NextKeepsInv(g: Registry, m: Move)
    requires Inv(g) && Possible(g, m)
    ensures Inv(Next(g, m))
    ensures g.retired <= Next(g, m).retired
    ensures forall id :: id in g.owner ==> id in Next(g, m).owner && Next(g, m).owner[id] == g.owner[id]
  {
    hide Install;
    match m {
      case Publish(t, stream, id) =>
        if !Live(g, stream) { InstallKeepsInv(g, t, stream, id); }
      case TryReplace(t, stream, _, id) => InstallKeepsInv(g, t, stream, id);
      case Replace(t, stream, id) => InstallKeepsInv(g, t, stream, id);
      case _ =>
    }
  }

  // ------------------------------------------------- what the operations do

  /** Nothing about other streams changes, but that this thread has forgotten its last one. */
  ghost predicate OthersStand(g: Registry, n: Registry, t: nat, stream: Stream) {
    && |n.threads| == |g.threads|
    && (forall s :: s != stream ==> (s in n.states <==> s in g.states))
    && (forall s :: s != stream && s in n.states ==> n.states[s] == g.states[s])
    && (forall u, s :: 0 <= u < |g.threads| && u != t && s != stream ==> Fast(n, u, s) == Fast(g, u, s))
  }

  /** A publication hands out the state that is there, and puts the new one in only if
      there is none. */
  lemma PublishAnswers(g: Registry, t: nat, stream: Stream, id: Id)
    requires Inv(g) && Possible(g, Publish(t, stream, id))
    ensures var n := Next(g, Publish(t, stream, id));
            && n.retired == g.retired && OthersStand(g, n, t, stream)
            && n.states == (if stream in g.states then g.states else g.states[stream := id])
            && Fast(n, t, stream) == Some(if stream in g.states then g.states[stream] else id)
  {
  }

  /** A replacement takes place exactly when the expected state is the one in the map; then
      no thread is answered with that any more. */
  lemma TryReplaceIff(g: Registry, t: nat, stream: Stream, expected: Id, id: Id)
    requires Inv(g) && Possible(g, TryReplace(t, stream, expected, id))
    ensures var n := Next(g, TryReplace(t, stream, expected, id));
            && OthersStand(g, n, t, stream)
            && (stream in g.states && g.states[stream] == expected ==>
                  && n.states == g.states[stream := id] && n.retired == g.retired + {expected}
                  && Fast(n, t, stream) == Some(id)
                  && forall u :: 0 <= u < |n.threads| ==> Fast(n, u, stream) != Some(expected))
            && (!(stream in g.states && g.states[stream] == expected) ==> n == g)
  {
  }

  /** An open replaces whatever state the stream has, and retires it. */
  lemma ReplaceAnswers(g: Registry, t: nat, stream: Stream, id: Id)
    requires Inv(g) && Possible(g, Replace(t, stream, id))
    ensures var n := Next(g, Replace(t, stream, id));
            && OthersStand(g, n, t, stream) && n.states == g.states[stream := id]
            && n.retired == (if stream in g.states then g.retired + {g.states[stream]} else g.retired)
            && Fast(n, t, stream) == Some(id)
            && forall u :: 0 <= u < |n.threads| && u != t ==> Fast(n, u, stream).None?
  {
  }

  /** A lookup that missed the shortcut leaves the thread with what the map has. */
  lemma FindAnswers(g: Registry, t: nat, stream: Stream)
    requires Inv(g) && Possible(g, FindSlow(t, stream))
    ensures var n := Next(g, FindSlow(t, stream));
            && n.states == g.states && n.retired == g.retired && OthersStand(g, n, t, stream)
            && Fast(n, t, stream) == if stream in g.states then Some(g.states[stream]) else None
  {
  }

  predicate Runs(g: Registry, run: seq<Move>)
    decreases |run|
  {
    run == [] || (Possible(g, run[0]) && Runs(Next(g, run[0]), run[1..]))
  }

  function Replay(g: Registry, run: seq<Move>): Registry
    requires Runs(g, run)
    decreases |run|
  {
    if run == [] then g else Replay(Next(g, run[0]), run[1..])
  }

  lemma {:induction false} EveryRunKeepsInv(g: Registry, run: seq<Move>)
    requires Inv(g) && Runs(g, run)
    ensures Inv(Replay(g, run))
    decreases |run|
  {
    if run != [] {
      NextKeepsInv(g, run[0]);
      EveryRunKeepsInv(Next(g, run[0]), run[1..]);
    }
  }

  /** A retired state is never in the map or answered again, whatever happens after. */
  lemma {:induction false} RetiredStaysGone(g: Registry, run: seq<Move>, id: Id)
    requires Inv(g) && Runs(g, run) && id in g.retired
    ensures var n := Replay(g, run);
            && id in n.retired
            && (forall stream :: stream in n.states ==> n.states[stream] != id)
            && (forall t, stream :: 0 <= t < |n.threads| ==> Fast(n, t, stream) != Some(id))
    decreases |run|
  {
    if run != [] {
      NextKeepsInv(g, run[0]);
      RetiredStaysGone(Next(g, run[0]), run[1..], id);
    }
  }

  predicate Empty(g: Registry) {
    && g.states == map[] && g.retired == {} && g.owner == map[] && g.closing == map[]
    && forall t :: 0 <= t < |g.threads| ==> g.threads[t].Nothing?
  }

  /** In every reachable state: a state that was ever published is in the map, or retired, or
      being retired at that moment; a stream has at most one state that is not retired; and
      the shortcut's answer is the map's state for the stream if and only if no retirement
      has erased that and not yet marked it. */
  lemma ShortcutAgreesWithMap(g: Registry, run: seq<Move>, t: nat, stream: Stream)
    requires Empty(g) && Runs(g, run) && t < |Replay(g, run).threads|
    ensures var n := Replay(g, run);
            && (forall id :: id in n.owner ==> id in n.retired || Held(n, n.owner[id], id))
            && (forall a, b ::
                  a in n.owner && b in n.owner && n.owner[a] == n.owner[b] && a !in n.retired && b !in n.retired ==>
                    a == b)
            && (Fast(n, t, stream).Some? ==> Held(n, stream, Fast(n, t, stream).value))
            && (Fast(n, t, stream).Some? ==>
                  (stream in n.states && n.states[stream] == Fast(n, t, stream).value
                   <==> stream !in n.closing))
  {
    EveryRunKeepsInv(g, run);
  }

  /** The window is real: a thread that looks between the erasure and the mark still gets
      the state the map has just given up. */
  lemma ShortcutSeesErasedState()
    ensures var g := Registry(map[], {}, map[], map[], [Nothing]);
            var run := [Publish(0, 7, 1), Erase(7)];
            Empty(g) && Runs(g, run) && 7 !in Replay(g, run).states && Fast(Replay(g, run), 0, 7) == Some(1)
  {
    var g := Registry(map[], {}, map[], map[], [Nothing]);
    var run := [Publish(0, 7, 1), Erase(7)];
    var g1 := Next(g, run[0]);
    var g2 := Next(g1, run[1]);
    assert Runs(g2, run[1..][1..]) && Replay(g2, run[1..][1..]) == g2;
    assert Runs(g1, run[1..]) && Replay(g1, run[1..]) == g2;
    assert Replay(g, run) == g2;
  }
}
