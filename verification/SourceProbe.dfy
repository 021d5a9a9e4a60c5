/** The whole source table under concurrent lookups and one writer at a time: probing from
    slot to slot, each a `SourceSeqlock` slot, and the overflow map behind them (SourceLookup
    and SourceInsert in Skyrim/src/Hooks.cpp). */
module SourceProbe {
  import opened Basics
  import S = SourceSeqlock

  type Key = nat

  datatype Result = Miss | Hit(pair: S.Pair)

  /** A lookup; `began` is the version of the contents when it started. */
  datatype Probe =
    | Outside
    /** Looking at the slot `step` places behind the home of its key. */
    | At(key: Key, step: nat, began: nat)
    /** About to look into the overflow map; `absent` is the version at which an empty slot
        was met. */
    | Beyond(key: Key, began: nat, absent: Option<nat>)
    /** Returned what version `at` of the contents says. */
    | Done(key: Key, began: nat, result: Result, at: nat)

  datatype Table = Table(
    home: Key -> nat,
    slots: seq<S.Slot>,
    /** The key of a slot, from the moment it is claimed, and how far behind its home it is. */
    keys: seq<Key>, distances: seq<nat>,
    overflow: map<Key, S.Pair>,
    /** The slot the writer has claimed. */
    writing: Option<nat>,
    probes: seq<Probe>,
    /** All contents so far, oldest first. */
    history: seq<map<Key, S.Pair>>)

  datatype Move =
    | Begin(r: nat, key: Key)
    /** The next access of one lookup. */
    | Look(r: nat)
    /** The writer settles on the slot `d` places behind the home of the key. */
    | Claim(key: Key, pair: S.Pair, d: nat)
    /** Its next store into that slot. */
    | Write(m: S.Move)
    /** Every slot is taken by another key. */
    | Spill(key: Key, pair: S.Pair)

  predicate Shaped(t: Table) {
    && 0 < |t.slots| == |t.keys| == |t.distances| && t.history != []
    && (t.writing.Some? ==> t.writing.value < |t.slots|)
    && forall i :: 0 <= i < |t.slots| ==> |t.slots[i].readers| == |t.probes|
  }

  function Index(t: Table, key: Key, step: nat): nat
    requires t.slots != []
  {
    (t.home(key) + step) % |t.slots|
  }

  /** The first `d` slots behind the home of the key are taken by other keys. */
  predicate Passed(t: Table, key: Key, d: nat)
    requires Shaped(t)
  {
    forall e :: 0 <= e < d ==> t.slots[Index(t, key, e)].keyed && t.keys[Index(t, key, e)] != key
  }

  function Contents(t: Table): map<Key, S.Pair>
    requires Shaped(t)
  {
    t.history[|t.history| - 1]
  }

  function Answer(contents: map<Key, S.Pair>, key: Key): Result {
    if key in contents then Hit(contents[key]) else Miss
  }

  predicate Possible(t: Table, m: Move)
    requires Shaped(t)
  {
    match m
    case Begin(r, _) => r < |t.probes| && (t.probes[r].Outside? || t.probes[r].Done?)
    case Look(r) => r < |t.probes| && (t.probes[r].At? || t.probes[r].Beyond?)
    case Claim(key, pair, d) =>
      && t.writing.None? && d < |t.slots| && Passed(t, key, d)
      && var i := Index(t, key, d);
         if t.slots[i].keyed then t.keys[i] == key && S.Possible(t.slots[i], S.Open(pair))
         else S.Possible(t.slots[i], S.Fill(pair))
    case Write(s) =>
      && t.writing.Some? && !s.Read? && !s.Open? && !s.Fill?
      && S.Possible(t.slots[t.writing.value], s)
    case Spill(key, pair) =>
      && t.writing.None? && Passed(t, key, |t.slots|)
      && (key in t.overflow ==> S.Overwrites(t.overflow[key], pair))
  }

  /** The slot with one reader back at the start. */
  function Rest(s: S.Slot, r: nat): S.Slot
    requires r < |s.readers|
  {
    s.(readers := s.readers[r := S.Away])
  }

  function LookAt(t: Table, r: nat): Table
    requires Shaped(t) && r < |t.probes| && t.probes[r].At?
  {
    var At(key, step, began) := t.probes[r];
    var i := Index(t, key, step);
    var now := |t.history| - 1;
    if t.slots[i].readers[r].Away? && t.slots[i].keyed && t.keys[i] != key then
      t.(probes := t.probes[r := if step + 1 < |t.slots| then At(key, step + 1, began)
                                 else Beyond(key, began, None)])
    else
      var s := S.Next(t.slots[i], S.Read(r));
      match s.readers[r]
      case Missed => t.(slots := t.slots[i := Rest(s, r)], probes := t.probes[r := Beyond(key, began, Some(now))])
      case Returned(pair, _) =>
        t.(slots := t.slots[i := Rest(s, r)], probes := t.probes[r := Done(key, began, Hit(pair), now)])
      case _ => t.(slots := t.slots[i := s])
  }

  function LookBeyond(t: Table, r: nat): Table
    requires Shaped(t) && r < |t.probes| && t.probes[r].Beyond?
  {
    var Beyond(key, began, absent) := t.probes[r];
    var now := |t.history| - 1;
    t.(probes := t.probes[r :=
         if key in t.overflow then Done(key, began, Hit(t.overflow[key]), now)
         else Done(key, began, Miss, if absent.Some? then absent.value else now)])
  }

  function Next(t: Table, m: Move): Table
    requires Shaped(t) && Possible(t, m)
  {
    match m
    case Begin(r, key) => t.(probes := t.probes[r := At(key, 0, |t.history| - 1)])
    case Look(r) => if t.probes[r].At? then LookAt(t, r) else LookBeyond(t, r)
    case Claim(key, pair, d) =>
      var i := Index(t, key, d);
      if t.slots[i].keyed then t.(slots := t.slots[i := S.Next(t.slots[i], S.Open(pair))], writing := Some(i))
      else t.(slots := t.slots[i := S.Next(t.slots[i], S.Fill(pair))], writing := Some(i),
              keys := t.keys[i := key], distances := t.distances[i := d])
    case Write(s) =>
      var i := t.writing.value;
      var slot := S.Next(t.slots[i], s);
      var u := t.(slots := t.slots[i := slot]);
      if s.StoreKey? || s.Close? then
        u.(writing := None,
           history := t.history + [Contents(t)[t.keys[i] := slot.published[|slot.published| - 1]]])
      else u
    case Spill(key, pair) =>
      t.(overflow := t.overflow[key := pair], history := t.history + [Contents(t)[key := pair]])
  }

  // --------------------------------------------------------------- invariant

  /** A claimed slot is where probing for its key leads. */
  predicate Placed(t: Table, i: nat)
    requires Shaped(t) && i < |t.slots|
  {
    t.distances[i] < |t.slots| && Index(t, t.keys[i], t.distances[i]) == i && Passed(t, t.keys[i], t.distances[i])
  }

  predicate Claimed(t: Table, i: nat)
    requires i < |t.slots|
  {
    t.slots[i].keyed || t.writing == Some(i)
  }

  ghost predicate SlotsConsistent(t: Table)
    requires Shaped(t)
  {
    forall i :: 0 <= i < |t.slots| ==>
      && S.Inv(t.slots[i])
      && (t.slots[i].writer.Resting? <==> t.writing != Some(i))
      && (Claimed(t, i) ==> Placed(t, i))
  }

  /** A slot whose key is visible has what the contents say of it. */
  ghost predicate SlotsPublish(t: Table)
    requires Shaped(t)
  {
    forall i :: 0 <= i < |t.slots| && t.slots[i].keyed ==>
      && t.slots[i].published != [] && t.keys[i] in Contents(t)
      && Contents(t)[t.keys[i]] == t.slots[i].published[|t.slots[i].published| - 1]
  }

  /** So has the overflow, of keys that found every slot taken. */
  ghost predicate OverflowPublishes(t: Table)
    requires Shaped(t)
  {
    forall k :: k in t.overflow ==>
      Passed(t, k, |t.slots|) && k in Contents(t) && Contents(t)[k] == t.overflow[k]
  }

  predicate InSlot(t: Table, k: Key)
    requires Shaped(t)
  {
    exists i :: 0 <= i < |t.slots| && t.slots[i].keyed && t.keys[i] == k
  }

  /** The contents are what is published in the slots, and the overflow. */
  ghost predicate ContentsConsistent(t: Table)
    requires Shaped(t)
  {
    && SlotsPublish(t) && OverflowPublishes(t)
    && forall k :: k in Contents(t) ==> k in t.overflow || InSlot(t, k)
  }

  /** Reader `r` is in the middle of reading at most slot `i`. */
  predicate OnlyIn(t: Table, r: nat, i: int)
    requires Shaped(t) && r < |t.probes|
  {
    forall j :: 0 <= j < |t.slots| && j != i ==> t.slots[j].readers[r].Away?
  }

  predicate ProbeConsistent(t: Table, r: nat)
    requires Shaped(t) && r < |t.probes|
  {
    match t.probes[r]
    case Outside => OnlyIn(t, r, -1)
    case At(key, step, began) =>
      && began < |t.history| && step < |t.slots| && Passed(t, key, step)
      && OnlyIn(t, r, Index(t, key, step))
      && var i := Index(t, key, step);
         && !t.slots[i].readers[r].Missed? && !t.slots[i].readers[r].Returned?
         && (!t.slots[i].readers[r].Away? ==> t.slots[i].keyed && t.keys[i] == key)
    case Beyond(key, began, absent) =>
      && began < |t.history| && OnlyIn(t, r, -1)
      && (if absent.Some? then began <= absent.value < |t.history| && key !in t.history[absent.value]
          else Passed(t, key, |t.slots|))
    case Done(key, began, result, at) =>
      && OnlyIn(t, r, -1)
      && began <= at < |t.history| && result == Answer(t.history[at], key)
  }

  ghost predicate Inv(t: Table) {
    && Shaped(t) && SlotsConsistent(t) && ContentsConsistent(t)
    && forall r :: 0 <= r < |t.probes| ==> ProbeConsistent(t, r)
  }

  // ------------------------------------------------------------- what follows

  /** An empty slot on the way means that the key is nowhere. */
  lemma EmptySlotMeansAbsent(t: Table, key: Key, step: nat)
    requires Inv(t) && step < |t.slots| && Passed(t, key, step) && !t.slots[Index(t, key, step)].keyed
    ensures key !in Contents(t)
  {
    hide S.Inv;
    forall i | 0 <= i < |t.slots| && t.slots[i].keyed ensures t.keys[i] != key {
      assert Claimed(t, i);
    }
  }

  /** A slot of another key all the way round means that only the overflow can have it. */
  lemma FullCircleMeansOverflow(t: Table, key: Key)
    requires Inv(t) && Passed(t, key, |t.slots|)
    ensures key in Contents(t) <==> key in t.overflow
  {
    hide S.Inv;
    forall i | 0 <= i < |t.slots| && t.slots[i].keyed ensures t.keys[i] != key {
      assert Claimed(t, i);
    }
  }

  /** Two claimed slots have different keys. */
  lemma KeysDiffer(t: Table, i: nat, j: nat)
    requires Shaped(t) && i < |t.slots| && j < |t.slots| && i != j
    requires Placed(t, i) && Placed(t, j) && t.slots[j].keyed
    ensures t.keys[i] != t.keys[j]
  {
  }

  // ------------------------------------------------------ what a move can do

  /** `u` comes after `t`: keys stay where they are, and versions are only added. */
  ghost predicate Extends(t: Table, u: Table) {
    && Shaped(t) && Shaped(u) && u.home == t.home
    && |u.slots| == |t.slots| && |u.probes| == |t.probes| && t.history <= u.history
    && forall i :: 0 <= i < |t.slots| && t.slots[i].keyed ==> u.slots[i].keyed && u.keys[i] == t.keys[i]
  }

  lemma PassedStays(t: Table, u: Table, key: Key, d: nat)
    requires Extends(t, u) && Passed(t, key, d)
    ensures Passed(u, key, d)
  {
    forall e | 0 <= e < d ensures u.slots[Index(u, key, e)].keyed && u.keys[Index(u, key, e)] != key {
      assert Index(u, key, e) == Index(t, key, e);
    }
  }

  /** A lookup that does not move stays consistent. */
  lemma ProbeStays(t: Table, u: Table, r: nat)
    requires Extends(t, u) && r < |t.probes| && ProbeConsistent(t, r) && u.probes[r] == t.probes[r]
    requires forall i :: 0 <= i < |t.slots| ==> u.slots[i].readers[r] == t.slots[i].readers[r]
    ensures ProbeConsistent(u, r)
  {
    hide Passed;
    match t.probes[r] {
      case At(key, step, _) => PassedStays(t, u, key, step);
      case Beyond(key, _, absent) =>
        if absent.None? {
          PassedStays(t, u, key, |t.slots|);
        }
      case _ =>
    }
  }

  lemma ProbesStay(t: Table, u: Table, moved: int)
    requires Extends(t, u) && forall r :: 0 <= r < |t.probes| ==> ProbeConsistent(t, r)
    requires forall r :: 0 <= r < |t.probes| && r != moved ==> u.probes[r] == t.probes[r]
    requires forall i, r :: 0 <= i < |t.slots| && 0 <= r < |t.probes| && r != moved ==>
               u.slots[i].readers[r] == t.slots[i].readers[r]
    ensures forall r :: 0 <= r < |t.probes| && r != moved ==> ProbeConsistent(u, r)
  {
    hide ProbeConsistent;
    forall r | 0 <= r < |t.probes| && r != moved ensures ProbeConsistent(u, r) {
      ProbeStays(t, u, r);
    }
  }

  lemma PlacedStays(t: Table, u: Table, i: nat)
    requires Extends(t, u) && i < |t.slots| && Placed(t, i)
    requires u.keys[i] == t.keys[i] && u.distances[i] == t.distances[i]
    ensures Placed(u, i)
  {
    hide Passed;
    PassedStays(t, u, t.keys[i], t.distances[i]);
  }

  /** After a change to one slot that keeps its invariant, and its claim or takes a good one. */
  lemma SlotsFollow(t: Table, u: Table, i: nat)
    requires Extends(t, u) && SlotsConsistent(t) && i < |t.slots|
    requires forall j :: 0 <= j < |t.slots| && j != i ==>
               && u.slots[j] == t.slots[j] && u.keys[j] == t.keys[j] && u.distances[j] == t.distances[j]
               && (u.writing == Some(j) <==> t.writing == Some(j))
    requires S.Inv(u.slots[i]) && (u.slots[i].writer.Resting? <==> u.writing != Some(i))
    requires Claimed(u, i) ==>
               Placed(u, i)
               || (Claimed(t, i) && u.keys[i] == t.keys[i] && u.distances[i] == t.distances[i])
    ensures SlotsConsistent(u)
  {
    hide S.Inv, Placed;
    forall j | 0 <= j < |u.slots|
      ensures S.Inv(u.slots[j]) && (u.slots[j].writer.Resting? <==> u.writing != Some(j))
      ensures Claimed(u, j) ==> Placed(u, j)
    {
      if Claimed(t, j) {
        if u.keys[j] == t.keys[j] && u.distances[j] == t.distances[j] {
          PlacedStays(t, u, j);
        }
      }
    }
  }

  /** Where nothing is published, the contents are as before. */
  lemma ContentsFollow(t: Table, u: Table)
    requires Extends(t, u) && ContentsConsistent(t) && u.overflow == t.overflow && u.history == t.history
    requires forall j :: 0 <= j < |t.slots| ==>
               u.slots[j].keyed == t.slots[j].keyed && u.slots[j].published == t.slots[j].published
    ensures ContentsConsistent(u)
  {
    hide Passed;
    forall k | k in t.overflow ensures Passed(u, k, |u.slots|) {
      PassedStays(t, u, k, |t.slots|);
    }
    forall k | k in Contents(u) && k !in u.overflow ensures InSlot(u, k) {
      InSlotStays(t, u, k);
    }
  }

  lemma InSlotStays(t: Table, u: Table, k: Key)
    requires Extends(t, u) && InSlot(t, k)
    ensures InSlot(u, k)
  {
    var i :| 0 <= i < |t.slots| && t.slots[i].keyed && t.keys[i] == k;
    assert u.slots[i].keyed && u.keys[i] == k;
  }

  // ------------------------------------------------------------- the lookups

  /** Where only lookups move, slots and contents are as before. */
  lemma SameSlots(t: Table, u: Table)
    requires Shaped(t) && SlotsConsistent(t) && ContentsConsistent(t)
    requires u == t.(probes := u.probes) && |u.probes| == |t.probes|
    ensures Shaped(u) && SlotsConsistent(u) && ContentsConsistent(u)
  {
    hide S.Inv;
    assert forall key, d :: Passed(t, key, d) ==> Passed(u, key, d) by {
      forall key, d | Passed(t, key, d) ensures Passed(u, key, d) {
        PassedStays(t, u, key, d);
      }
    }
    forall i | 0 <= i < |u.slots| && Claimed(u, i) ensures Placed(u, i) {
      assert Claimed(t, i) && Placed(t, i);
    }
  }

  /** A lookup that moves without touching a slot. */
  lemma ProbeMoves(t: Table, r: nat, probe: Probe)
    requires Inv(t) && r < |t.probes|
    requires var u := t.(probes := t.probes[r := probe]); Shaped(u) && ProbeConsistent(u, r)
    ensures var u := t.(probes := t.probes[r := probe]); Inv(u) && Extends(t, u)
  {
    hide ProbeConsistent, SlotsConsistent, ContentsConsistent;
    var u := t.(probes := t.probes[r := probe]);
    ProbesStay(t, u, r);
    SameSlots(t, u);
  }

  lemma BeginKeepsInv(t: Table, m: Move)
    requires Inv(t) && m.Begin? && Possible(t, m)
    ensures Inv(Next(t, m)) && Extends(t, Next(t, m))
  {
    hide SlotsConsistent, ContentsConsistent;
    assert ProbeConsistent(t, m.r);
    ProbeMoves(t, m.r, At(m.key, 0, |t.history| - 1));
  }

  lemma BeyondKeepsInv(t: Table, m: Move)
    requires Inv(t) && m.Look? && Possible(t, m) && t.probes[m.r].Beyond?
    ensures Inv(Next(t, m)) && Extends(t, Next(t, m))
  {
    var r, u := m.r, LookBeyond(t, m.r);
    var Beyond(key, began, absent) := t.probes[r];
    assert ProbeConsistent(t, r);
    if absent.None? {
      FullCircleMeansOverflow(t, key);
    }
    assert key in t.overflow ==> Contents(t)[key] == t.overflow[key];
    hide SlotsConsistent, ContentsConsistent, Passed;
    assert ProbeConsistent(u, r);
    ProbeMoves(t, r, u.probes[r]);
  }

  /** The slot is another key's. */
  predicate Foreign(t: Table, r: nat)
    requires Shaped(t) && r < |t.probes| && t.probes[r].At?
  {
    var i := Index(t, t.probes[r].key, t.probes[r].step);
    t.slots[i].readers[r].Away? && t.slots[i].keyed && t.keys[i] != t.probes[r].key
  }

  /** On to the next slot. */
  lemma StepKeepsInv(t: Table, r: nat)
    requires Inv(t) && r < |t.probes| && t.probes[r].At? && Foreign(t, r)
    ensures Inv(LookAt(t, r)) && Extends(t, LookAt(t, r))
  {
    hide SlotsConsistent, ContentsConsistent;
    assert ProbeConsistent(t, r);
    var u := LookAt(t, r);
    var At(key, step, began) := t.probes[r];
    OneMorePassed(t, u, key, step);
    hide Passed;
    assert ProbeConsistent(u, r);
    ProbeMoves(t, r, u.probes[r]);
  }

  lemma OneMorePassed(t: Table, u: Table, key: Key, step: nat)
    requires Shaped(t) && Shaped(u) && u == t.(probes := u.probes)
    requires Passed(t, key, step) && t.slots[Index(t, key, step)].keyed && t.keys[Index(t, key, step)] != key
    ensures Passed(u, key, step + 1)
  {
    forall e | 0 <= e < step + 1 ensures u.slots[Index(u, key, e)].keyed && u.keys[Index(u, key, e)] != key {
      assert Index(u, key, e) == Index(t, key, e);
    }
  }

  /** The slot as one reader leaves it: only that reader has moved. */
  ghost predicate ReadBy(before: S.Slot, after: S.Slot, r: nat)
    requires r < |before.readers|
  {
    && S.Inv(after)
    && after.keyed == before.keyed && after.writer == before.writer && after.published == before.published
    && |after.readers| == |before.readers|
    && forall k :: 0 <= k < |before.readers| && k != r ==> after.readers[k] == before.readers[k]
  }

  lemma SlotReads(s: S.Slot, r: nat)
    requires S.Inv(s) && r < |s.readers|
    ensures var n := S.Next(s, S.Read(r));
            && ReadBy(s, n, r) && ReadBy(s, Rest(n, r), r)
            && n.readers[r] == S.Advance(s, s.readers[r]) && Rest(n, r).readers[r].Away?
            && (n.readers[r].Returned? ==>
                  s.published != [] && n.readers[r].pair == s.published[|s.published| - 1])
  {
    var n := S.Next(s, S.Read(r));
    S.NextKeepsInv(s, S.Read(r));
    assert S.ReaderConsistent(n, n.readers[r]);
    assert S.ReaderConsistent(s, s.readers[r]);
    forall k | 0 <= k < |n.readers| ensures S.ReaderConsistent(Rest(n, r), Rest(n, r).readers[k]) {
      assert S.ReaderConsistent(n, n.readers[k]);
    }
  }

  lemma SlotsStay(t: Table, u: Table, i: nat, r: nat, slot: S.Slot)
    requires Shaped(t) && SlotsConsistent(t) && ContentsConsistent(t) && i < |t.slots| && r < |t.probes|
    requires ReadBy(t.slots[i], slot, r)
    requires u == t.(slots := t.slots[i := slot], probes := u.probes) && |u.probes| == |t.probes|
    ensures Shaped(u) && SlotsConsistent(u) && ContentsConsistent(u) && Extends(t, u)
  {
    assert t.slots[i].writer.Resting? <==> t.writing != Some(i);
    hide S.Inv, SlotsConsistent, ContentsConsistent, Passed;
    SlotsFollow(t, u, i);
    ContentsFollow(t, u);
  }

  /** A lookup that touches its slot. */
  lemma ReaderMoves(t: Table, u: Table, r: nat, i: nat, slot: S.Slot)
    requires Inv(t) && r < |t.probes| && i < |t.slots| && ReadBy(t.slots[i], slot, r)
    requires |u.probes| == |t.probes| && forall k :: 0 <= k < |t.probes| && k != r ==> u.probes[k] == t.probes[k]
    requires u == t.(slots := t.slots[i := slot], probes := u.probes)
    requires Shaped(u) && ProbeConsistent(u, r)
    ensures Inv(u) && Extends(t, u)
  {
    SlotsStay(t, u, i, r, slot);
    hide ProbeConsistent, SlotsConsistent, ContentsConsistent, S.Inv;
    ProbesStay(t, u, r);
  }

  lemma ReadKeepsInv(t: Table, r: nat)
    requires Inv(t) && r < |t.probes| && t.probes[r].At? && !Foreign(t, r)
    ensures Inv(LookAt(t, r)) && Extends(t, LookAt(t, r))
  {
    var u := LookAt(t, r);
    var At(key, step, began) := t.probes[r];
    var i := Index(t, key, step);
    assert ProbeConsistent(t, r);
    SlotReads(t.slots[i], r);
    ReadIsConsistent(t, r);
    hide ProbeConsistent, SlotsConsistent, ContentsConsistent, S.Inv;
    ReaderMoves(t, u, r, i, u.slots[i]);
  }

  lemma ReadIsConsistent(t: Table, r: nat)
    requires Inv(t) && r < |t.probes| && t.probes[r].At? && !Foreign(t, r)
    ensures Shaped(LookAt(t, r)) && ProbeConsistent(LookAt(t, r), r)
  {
    var u := LookAt(t, r);
    var At(key, step, began) := t.probes[r];
    var i := Index(t, key, step);
    assert ProbeConsistent(t, r);
    SlotReads(t.slots[i], r);
    SlotsStay(t, u, i, r, u.slots[i]);
    PassedStays(t, u, key, step);
    ReadAnswers(t, key, step);
    OnlyThere(t, u, r, i);
    ReadLands(t, u, r);
  }

  lemma OnlyThere(t: Table, u: Table, r: nat, i: nat)
    requires Shaped(t) && Shaped(u) && r < |t.probes| == |u.probes| && i < |t.slots| == |u.slots|
    requires OnlyIn(t, r, i) && forall j :: 0 <= j < |t.slots| && j != i ==> u.slots[j] == t.slots[j]
    ensures OnlyIn(u, r, i) && (u.slots[i].readers[r].Away? ==> OnlyIn(u, r, -1))
  {
  }

  lemma ReadLands(t: Table, u: Table, r: nat)
    requires Shaped(t) && Shaped(u) && r < |t.probes| && t.probes[r].At? && ProbeConsistent(t, r)
    requires !Foreign(t, r) && u == LookAt(t, r)
    requires var At(key, step, _) := t.probes[r];
             var i := Index(t, key, step);
             var s := t.slots[i];
             && Passed(u, key, step) && OnlyIn(u, r, i) && (u.slots[i].readers[r].Away? ==> OnlyIn(u, r, -1))
             && (!s.keyed ==> Answer(Contents(t), key) == Miss)
             && (s.keyed && t.keys[i] == key ==>
                  s.published != [] && Answer(Contents(t), key) == Hit(s.published[|s.published| - 1]))
             && (S.Advance(s, s.readers[r]).Returned? ==>
                  s.published != [] && S.Advance(s, s.readers[r]).pair == s.published[|s.published| - 1])
    ensures ProbeConsistent(u, r)
  {
    hide OnlyIn, Passed;
    var At(key, step, began) := t.probes[r];
    var i := Index(t, key, step);
    var moved := S.Advance(t.slots[i], t.slots[i].readers[r]);
    assert S.Next(t.slots[i], S.Read(r)).readers[r] == moved;
    assert Contents(t) == t.history[|t.history| - 1];
    if moved.Missed? {
      assert !t.slots[i].keyed;
      assert u.probes[r] == Beyond(key, began, Some(|t.history| - 1));
    } else if moved.Returned? {
      assert u.probes[r] == Done(key, began, Hit(moved.pair), |t.history| - 1);
    } else {
      assert u.probes[r] == t.probes[r] && u.slots[i].readers[r] == moved;
      assert u.slots[i].keyed == t.slots[i].keyed;
    }
  }

  /** What the slot says is what the contents say. */
  lemma ReadAnswers(t: Table, key: Key, step: nat)
    requires Inv(t) && step < |t.slots| && Passed(t, key, step)
    ensures var s := t.slots[Index(t, key, step)];
            && (!s.keyed ==> Answer(Contents(t), key) == Miss)
            && (s.keyed && t.keys[Index(t, key, step)] == key ==>
                  s.published != [] && Answer(Contents(t), key) == Hit(s.published[|s.published| - 1]))
  {
    hide SlotsConsistent;
    if !t.slots[Index(t, key, step)].keyed {
      EmptySlotMeansAbsent(t, key, step);
    }
  }

  // -------------------------------------------------------------- the writer

  /** The slot as the writer leaves it. */
  lemma SlotWrites(s: S.Slot, m: S.Move)
    requires S.Inv(s) && S.Possible(s, m) && !m.Read?
    ensures var n := S.Next(s, m);
            && S.Inv(n) && n.readers == s.readers && (s.keyed ==> n.keyed)
            && (m.Fill? || m.Open? ==> !n.writer.Resting?)
            && (m.StoreKey? || m.Close? ==> n.writer.Resting? && n.keyed && n.published != [])
            && (!m.StoreKey? && !m.Close? ==> n.keyed == s.keyed && n.published == s.published)
            && (!m.Fill? && !m.Open? && !m.StoreKey? && !m.Close? ==> !n.writer.Resting?)
  {
    S.NextKeepsInv(s, m);
  }

  lemma ClaimExtends(t: Table, m: Move)
    requires Inv(t) && m.Claim? && Possible(t, m)
    ensures Shaped(Next(t, m)) && Extends(t, Next(t, m))
    ensures SameReaders(t, Next(t, m)) && SamePublished(t, Next(t, m))
    ensures var i := Index(t, m.key, m.d);
            Claimed(t, i) || Placed(Next(t, m), i)
  {
    var i := Index(t, m.key, m.d);
    SlotWrites(t.slots[i], if t.slots[i].keyed then S.Open(m.pair) else S.Fill(m.pair));
    hide S.Inv, S.Possible, S.Next, SlotsConsistent, ContentsConsistent, ProbeConsistent, Passed;
    assert Extends(t, Next(t, m));
    PassedStays(t, Next(t, m), m.key, m.d);
  }

  lemma ClaimKeepsInv(t: Table, m: Move)
    requires Inv(t) && m.Claim? && Possible(t, m)
    ensures Inv(Next(t, m)) && Extends(t, Next(t, m))
  {
    hide S.Inv, SlotsConsistent, ContentsConsistent, ProbeConsistent, Passed, Extends, Index, Next;
    ClaimExtends(t, m);
    ClaimSlots(t, m);
    ContentsFollow(t, Next(t, m));
    WriterMoves(t, Next(t, m));
  }

  /** The lookups see nothing of a move of the writer but what `Extends` allows. */
  lemma WriterMoves(t: Table, u: Table)
    requires Inv(t) && Extends(t, u) && SlotsConsistent(u) && ContentsConsistent(u)
    requires SameReaders(t, u)
    ensures Inv(u)
  {
    hide SlotsConsistent, ContentsConsistent, ProbeConsistent;
    ProbesStay(t, u, -1);
  }

  ghost predicate SameReaders(t: Table, u: Table) {
    && u.probes == t.probes && |u.slots| == |t.slots|
    && forall i :: 0 <= i < |t.slots| ==> u.slots[i].readers == t.slots[i].readers
  }

  ghost predicate SamePublished(t: Table, u: Table) {
    && u.overflow == t.overflow && u.history == t.history && |u.slots| == |t.slots|
    && forall j :: 0 <= j < |t.slots| ==>
         u.slots[j].keyed == t.slots[j].keyed && u.slots[j].published == t.slots[j].published
  }

  lemma ClaimSlots(t: Table, m: Move)
    requires Inv(t) && m.Claim? && Possible(t, m)
    requires Shaped(Next(t, m)) && Extends(t, Next(t, m))
    requires Claimed(t, Index(t, m.key, m.d)) || Placed(Next(t, m), Index(t, m.key, m.d))
    ensures SlotsConsistent(Next(t, m))
  {
    var i := Index(t, m.key, m.d);
    SlotWrites(t.slots[i], if t.slots[i].keyed then S.Open(m.pair) else S.Fill(m.pair));
    hide S.Inv, S.Possible, S.Next, ContentsConsistent, ProbeConsistent, Passed, Extends, Placed, Index;
    SlotsFollow(t, Next(t, m), i);
  }

  lemma WriteExtends(t: Table, m: Move)
    requires Inv(t) && m.Write? && Possible(t, m)
    ensures Shaped(Next(t, m)) && Extends(t, Next(t, m)) && SameReaders(t, Next(t, m))
    ensures !m.m.StoreKey? && !m.m.Close? ==> SamePublished(t, Next(t, m))
  {
    SlotWrites(t.slots[t.writing.value], m.m);
    hide S.Inv, S.Possible, S.Next, ContentsConsistent, ProbeConsistent, Passed;
  }

  lemma WriteSlots(t: Table, m: Move)
    requires Inv(t) && m.Write? && Possible(t, m)
    requires Shaped(Next(t, m)) && Extends(t, Next(t, m))
    ensures SlotsConsistent(Next(t, m))
  {
    var i := t.writing.value;
    SlotWrites(t.slots[i], m.m);
    assert Claimed(t, i);
    hide S.Inv, S.Possible, S.Next, ContentsConsistent, ProbeConsistent, Passed, Extends, Placed, Index;
    SlotsFollow(t, Next(t, m), i);
  }

  lemma WriteKeepsInv(t: Table, m: Move)
    requires Inv(t) && m.Write? && Possible(t, m)
    ensures Inv(Next(t, m)) && Extends(t, Next(t, m))
  {
    WriteExtends(t, m);
    if m.m.StoreKey? || m.m.Close? {
      WritePublishes(t, m);
    }
    hide S.Inv, SlotsConsistent, ContentsConsistent, ProbeConsistent, Passed, Extends, Next;
    WriteSlots(t, m);
    if !m.m.StoreKey? && !m.m.Close? {
      ContentsFollow(t, Next(t, m));
    }
    WriterMoves(t, Next(t, m));
  }

  lemma WritePublishes(t: Table, m: Move)
    requires Inv(t) && m.Write? && Possible(t, m) && (m.m.StoreKey? || m.m.Close?)
    requires Shaped(Next(t, m)) && Extends(t, Next(t, m))
    ensures ContentsConsistent(Next(t, m))
  {
    SlotWrites(t.slots[t.writing.value], m.m);
    hide S.Inv, S.Possible, S.Next, SlotsConsistent, ContentsConsistent, ProbeConsistent, Passed, Extends;
    PublishFollows(t, Next(t, m), t.writing.value);
  }

  /** Publishing in one slot changes the contents for its key only. */
  lemma PublishFollows(t: Table, u: Table, i: nat)
    requires Extends(t, u) && SlotsConsistent(t) && ContentsConsistent(t) && t.writing == Some(i)
    requires u.overflow == t.overflow && u.keys == t.keys && u.slots[i].keyed && u.slots[i].published != []
    requires forall j :: 0 <= j < |t.slots| && j != i ==> u.slots[j] == t.slots[j]
    requires Contents(u)
             == Contents(t)[t.keys[i] := u.slots[i].published[|u.slots[i].published| - 1]]
    ensures ContentsConsistent(u)
  {
    assert SlotsPublish(u) by {
      forall j | 0 <= j < |t.slots| && j != i && t.slots[j].keyed ensures t.keys[j] != t.keys[i] {
        hide S.Inv, ContentsConsistent;
        assert Claimed(t, i) && Claimed(t, j);
        KeysDiffer(t, i, j);
      }
      hide Passed, SlotsConsistent, OverflowPublishes;
    }
    assert OverflowPublishes(u) by {
      assert Placed(t, i) by {
        hide S.Inv, ContentsConsistent;
        assert Claimed(t, i);
      }
      hide SlotsConsistent, SlotsPublish, Passed, Placed;
      forall k | k in t.overflow ensures Passed(u, k, |u.slots|) && k != t.keys[i] {
        SpilledElsewhere(t, k, i);
        PassedStays(t, u, k, |t.slots|);
      }
    }
    hide SlotsConsistent, SlotsPublish, OverflowPublishes;
    forall k | k in Contents(u) && k !in u.overflow ensures InSlot(u, k) {
      if k != t.keys[i] {
        InSlotStays(t, u, k);
      }
    }
  }

  /** A key whose way round is taken by others is in no slot, published or claimed. */
  lemma SpilledElsewhere(t: Table, key: Key, i: nat)
    requires Shaped(t) && i < |t.slots| && Placed(t, i) && Passed(t, key, |t.slots|)
    ensures t.keys[i] != key
  {
  }

  lemma SpillKeepsInv(t: Table, m: Move)
    requires Inv(t) && m.Spill? && Possible(t, m)
    ensures Inv(Next(t, m)) && Extends(t, Next(t, m))
  {
    var u := Next(t, m);
    assert t.slots[0].writer.Resting? <==> t.writing != Some(0);
    hide S.Inv, ContentsConsistent, ProbeConsistent, Passed, SlotsConsistent;
    assert Extends(t, u);
    assert SlotsConsistent(u) by {
      hide *;
      SlotsSame(t, u);
    }
    ProbesStay(t, u, -1);
    SpillFollows(t, u, m.key, m.pair);
  }

  lemma SlotsSame(t: Table, u: Table)
    requires Extends(t, u) && SlotsConsistent(t)
    requires u.slots == t.slots && u.keys == t.keys && u.distances == t.distances && u.writing == t.writing
    ensures SlotsConsistent(u)
  {
    assert S.Inv(t.slots[0]) && (t.slots[0].writer.Resting? <==> t.writing != Some(0));
    hide S.Inv, Placed;
    SlotsFollow(t, u, 0);
  }

  lemma SpilledFromSlots(t: Table, key: Key, i: nat)
    requires Shaped(t) && SlotsConsistent(t) && Passed(t, key, |t.slots|) && i < |t.slots| && t.slots[i].keyed
    ensures t.keys[i] != key
  {
    hide S.Inv;
    assert Claimed(t, i);
    SpilledElsewhere(t, key, i);
  }

  lemma SpillFollows(t: Table, u: Table, key: Key, pair: S.Pair)
    requires Extends(t, u) && SlotsConsistent(t) && ContentsConsistent(t) && Passed(t, key, |t.slots|)
    requires u.slots == t.slots && u.keys == t.keys && u.overflow == t.overflow[key := pair]
    requires Contents(u) == Contents(t)[key := pair]
    ensures ContentsConsistent(u)
  {
    forall j | 0 <= j < |t.slots| && t.slots[j].keyed ensures t.keys[j] != key {
      SpilledFromSlots(t, key, j);
    }
    assert SlotsPublish(u) by {
      hide Passed, SlotsConsistent, OverflowPublishes;
    }
    hide SlotsConsistent, SlotsPublish, Passed, Extends;
    forall k | k in u.overflow ensures Passed(u, k, |u.slots|) {
      PassedStays(t, u, k, |t.slots|);
    }
    forall k | k in Contents(u) && k !in u.overflow ensures InSlot(u, k) {
      InSlotStays(t, u, k);
    }
  }

  // -------------------------------------------------------------- all the runs

  lemma NextKeepsInv(t: Table, m: Move)
    requires Inv(t) && Possible(t, m)
    ensures Inv(Next(t, m)) && Extends(t, Next(t, m))
  {
    hide Inv, Extends, Next, Foreign;
    match m {
      case Begin(_, _) => BeginKeepsInv(t, m);
      case Look(r) => LookKeepsInv(t, m);
      case Claim(_, _, _) => ClaimKeepsInv(t, m);
      case Write(_) => WriteKeepsInv(t, m);
      case Spill(_, _) => SpillKeepsInv(t, m);
    }
  }

  lemma LookKeepsInv(t: Table, m: Move)
    requires Inv(t) && m.Look? && Possible(t, m)
    ensures Inv(Next(t, m)) && Extends(t, Next(t, m))
  {
    hide Extends, Foreign, SlotsConsistent, ContentsConsistent, ProbeConsistent;
    if t.probes[m.r].Beyond? {
      BeyondKeepsInv(t, m);
    } else if Foreign(t, m.r) {
      StepKeepsInv(t, m.r);
    } else {
      ReadKeepsInv(t, m.r);
    }
  }

  predicate Runs(t: Table, run: seq<Move>)
    decreases |run|
  {
    run == [] || (Shaped(t) && Possible(t, run[0]) && Runs(Next(t, run[0]), run[1..]))
  }

  function Replay(t: Table, run: seq<Move>): Table
    requires Runs(t, run)
    decreases |run|
  {
    if run == [] then t else Replay(Next(t, run[0]), run[1..])
  }

  lemma {:induction false} EveryRunKeepsInv(t: Table, run: seq<Move>)
    requires Inv(t) && Runs(t, run)
    ensures Inv(Replay(t, run)) && t.history <= Replay(t, run).history
    decreases |run|
  {
    if run != [] {
      hide Inv, Next, Possible;
      NextKeepsInv(t, run[0]);
      EveryRunKeepsInv(Next(t, run[0]), run[1..]);
    }
  }

  /** Before the first insert and the first lookup. */
  ghost predicate Fresh(t: Table) {
    && Shaped(t) && t.writing.None? && t.overflow == map[] && t.history == [map[]]
    && (forall i :: 0 <= i < |t.slots| ==> S.Fresh(t.slots[i]))
    && forall r :: 0 <= r < |t.probes| ==> t.probes[r].Outside?
  }

  lemma FreshIsConsistent(t: Table)
    requires Fresh(t)
    ensures Inv(t)
  {
    forall i | 0 <= i < |t.slots| ensures S.Inv(t.slots[i]) && !t.slots[i].keyed {
      assert S.Fresh(t.slots[i]);
    }
    forall r | 0 <= r < |t.probes| ensures ProbeConsistent(t, r) {
      forall j | 0 <= j < |t.slots| ensures t.slots[j].readers[r].Away? {
        assert S.Fresh(t.slots[j]);
      }
    }
  }

  /** Under any interleaving of lookups, over all slots and the overflow, with inserts, every
      lookup that has returned gave what the table, as one map, said for its key at one
      moment between its start and its return; and what the table says of a key is the last
      pair published for it, in whatever slot or in the overflow. */
  lemma LookupsAreLinearizable(t: Table, run: seq<Move>, r: nat)
    requires Fresh(t) && Runs(t, run) && r < |Replay(t, run).probes| && Replay(t, run).probes[r].Done?
    ensures var u := Replay(t, run);
            var Done(key, began, result, at) := u.probes[r];
            && began <= at < |u.history| && result == Answer(u.history[at], key)
            && Shaped(u) && ContentsConsistent(u)
  {
    hide Fresh, Possible, Next;
    FreshIsConsistent(t);
    EveryRunKeepsInv(t, run);
    assert ProbeConsistent(Replay(t, run), r);
  }

  // ------------------------------------------------------- what inserts keep

  /** Where probing leads decides only how an insert is made. Whether it is made is decided
      by what the table says of the key: not if that is a positive answer for the same
      backing stream. */
  lemma InsertsIff(t: Table, key: Key, pair: S.Pair, d: nat)
    requires Inv(t) && t.writing.None? && d <= |t.slots| && Passed(t, key, d)
    requires d < |t.slots| ==>
               t.slots[Index(t, key, d)].keyed ==> t.keys[Index(t, key, d)] == key
    ensures Possible(t, if d < |t.slots| then Claim(key, pair, d) else Spill(key, pair)) <==>
              !(key in Contents(t) && Contents(t)[key].inner == pair.inner && Contents(t)[key].answer.Archive?)
  {
    if d == |t.slots| {
      FullCircleMeansOverflow(t, key);
    } else {
      var i := Index(t, key, d);
      assert t.slots[i].writer.Resting?;
      assert S.Inv(t.slots[i]);
      ReadAnswers(t, key, d);
      hide SlotsConsistent, ContentsConsistent, ProbeConsistent;
    }
  }

  /** The contents after a move say of every key what they said, or of another backing
      stream, or no longer something negative. */
  ghost predicate KeepsPositive(was: map<Key, S.Pair>, now: map<Key, S.Pair>) {
    forall k :: k in was && was[k].answer.Archive? ==>
      k in now && (now[k] == was[k] || now[k].inner != was[k].inner)
  }

  lemma MoveKeepsPositive(t: Table, m: Move)
    requires Inv(t) && Possible(t, m)
    ensures var u := Next(t, m);
            u.history == t.history
            || (|u.history| == |t.history| + 1 && t.history <= u.history
                && KeepsPositive(Contents(t), u.history[|t.history|]))
  {
    if m.Write? && (m.m.StoreKey? || m.m.Close?) {
      WriteKeepsPositive(t, m);
    } else if m.Spill? {
      FullCircleMeansOverflow(t, m.key);
      hide SlotsConsistent, ProbeConsistent;
    } else {
      hide Inv, SlotsConsistent, ContentsConsistent, ProbeConsistent;
    }
  }

  lemma WriteKeepsPositive(t: Table, m: Move)
    requires Inv(t) && Possible(t, m) && m.Write? && (m.m.StoreKey? || m.m.Close?)
    ensures |Next(t, m).history| == |t.history| + 1 && t.history <= Next(t, m).history
    ensures KeepsPositive(Contents(t), Next(t, m).history[|t.history|])
  {
    var i := t.writing.value;
    var key, slot := t.keys[i], S.Next(t.slots[i], m.m);
    assert Claimed(t, i) && Placed(t, i) && S.Inv(t.slots[i]);
    SlotWrites(t.slots[i], m.m);
    ReadAnswers(t, key, t.distances[i]);
    assert S.PositiveStays(slot.published);
    hide SlotsConsistent, ContentsConsistent, ProbeConsistent, S.WriterConsistent, Placed;
    assert Next(t, m).history == t.history + [Contents(t)[key := slot.published[|slot.published| - 1]]];
  }

  ghost predicate AllPositive(h: seq<map<Key, S.Pair>>) {
    forall v :: 0 < v < |h| ==> KeepsPositive(h[v - 1], h[v])
  }

  lemma MoveKeepsAllPositive(t: Table, m: Move)
    requires Inv(t) && Possible(t, m) && AllPositive(t.history)
    ensures AllPositive(Next(t, m).history)
  {
    MoveKeepsPositive(t, m);
    hide Inv, Possible, Next, KeepsPositive;
  }

  lemma {:induction false} EveryRunKeepsPositive(t: Table, run: seq<Move>)
    requires Inv(t) && Runs(t, run) && AllPositive(t.history)
    ensures AllPositive(Replay(t, run).history)
    decreases |run|
  {
    if run != [] {
      hide Inv, Next, Possible, AllPositive, Extends;
      NextKeepsInv(t, run[0]);
      MoveKeepsAllPositive(t, run[0]);
      EveryRunKeepsPositive(Next(t, run[0]), run[1..]);
    }
  }

  /** In no run is a positive answer forgotten or replaced for the same backing stream. */
  lemma PositiveAnswersStay(t: Table, run: seq<Move>, v: nat, k: Key)
    requires Fresh(t) && Runs(t, run) && 0 < v < |Replay(t, run).history|
    ensures var h := Replay(t, run).history;
            k in h[v - 1] && h[v - 1][k].answer.Archive? ==>
              k in h[v] && (h[v][k] == h[v - 1][k] || h[v][k].inner != h[v - 1][k].inner)
  {
    FreshIsConsistent(t);
    assert AllPositive(t.history);
    EveryRunKeepsPositive(t, run);
    assert KeepsPositive(Replay(t, run).history[v - 1], Replay(t, run).history[v]);
  }
}
