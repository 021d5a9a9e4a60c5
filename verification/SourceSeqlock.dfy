/** One slot of the source table under concurrent readers, from before its first insert: the
    writer, alone under the insert mutex, fills an empty slot before it stores the key, and
    brackets every later insert with two generation increments; a reader that finds the key
    retries until both its generation reads agree and are even (SourceLookup and SourceInsert in
    Skyrim/src/Hooks.cpp). Each micro-step below is one atomic access. */
module SourceSeqlock {
  import opened SourceTable

  /** What was published together. */
  datatype Pair = Pair(inner: nat, answer: Answer)

  /** Where the writer is inside one insert; `pair` is what it is publishing. */
  datatype Writer =
    | Resting
    | Filling(pair: Pair) | AnswerFilled(pair: Pair) | Filled(pair: Pair)
    | Opened(pair: Pair) | InnerStored(pair: Pair) | BothStored(pair: Pair)

  datatype Reader =
    | Away
    /** The slot was empty: the lookup found nothing here. */
    | Missed
    | Started
    | SawGeneration(before: nat)
    | SawInner(before: nat, inner: nat)
    | SawBoth(before: nat, pair: Pair)
    /** The lookup returned; `version` is the number of publications at that moment. */
    | Returned(pair: Pair, version: nat)

  datatype Slot = Slot(
    /** The key has been stored. */
    keyed: bool,
    generation: nat, inner: nat, answer: Answer, writer: Writer, readers: seq<Reader>,
    /** Everything published so far, oldest first. */
    published: seq<Pair>)

  datatype Move =
    /** The first insert, up to the store of the key. */
    | Fill(pair: Pair)
    | FillAnswer
    | FillInner
    | StoreKey
    /** A later insert. */
    | Open(pair: Pair)
    | StoreInner
    | StoreAnswer
    | Close
    /** The next access of one reader. */
    | Read(r: nat)

  /** A positive answer for the same backing stream is never overwritten. */
  predicate Overwrites(current: Pair, pair: Pair) {
    !(current.inner == pair.inner && current.answer.Archive?)
  }

  function Current(s: Slot): Pair { Pair(s.inner, s.answer) }

  predicate Possible(s: Slot, m: Move) {
    match m
    case Fill(_) => s.writer.Resting? && !s.keyed
    case FillAnswer => s.writer.Filling?
    case FillInner => s.writer.AnswerFilled?
    case StoreKey => s.writer.Filled?
    case Open(pair) => s.writer.Resting? && s.keyed && Overwrites(Current(s), pair)
    case StoreInner => s.writer.Opened?
    case StoreAnswer => s.writer.InnerStored?
    case Close => s.writer.BothStored?
    case Read(r) => r < |s.readers|
  }

  /** One access of a reader: the key is looked at first; an odd or changed generation
      starts it over. */
  function Advance(s: Slot, reader: Reader): Reader {
    match reader
    case Away => if s.keyed then Started else Missed
    case Missed => Away
    case Started => if s.generation % 2 != 0 then Started else SawGeneration(s.generation)
    case SawGeneration(before) => SawInner(before, s.inner)
    case SawInner(before, inner) => SawBoth(before, Pair(inner, s.answer))
    case SawBoth(before, pair) =>
      if s.generation != before then Started else Returned(pair, |s.published|)
    case Returned(_, _) => Away
  }

  function Next(s: Slot, m: Move): Slot
    requires Possible(s, m)
  {
    match m
    case Fill(pair) => s.(writer := Filling(pair))
    case FillAnswer => s.(answer := s.writer.pair.answer, writer := AnswerFilled(s.writer.pair))
    case FillInner => s.(inner := s.writer.pair.inner, writer := Filled(s.writer.pair))
    case StoreKey => s.(keyed := true, writer := Resting, published := [s.writer.pair])
    case Open(pair) => s.(generation := s.generation + 1, writer := Opened(pair))
    case StoreInner => s.(inner := s.writer.pair.inner, writer := InnerStored(s.writer.pair))
    case StoreAnswer => s.(answer := s.writer.pair.answer, writer := BothStored(s.writer.pair))
    case Close =>
      s.(generation := s.generation + 1, writer := Resting, published := s.published + [s.writer.pair])
    case Read(r) => s.(readers := s.readers[r := Advance(s, s.readers[r])])
  }

  // --------------------------------------------------------------- invariant

  ghost predicate WriterConsistent(s: Slot) {
    if s.keyed then Published(s) else Unpublished(s)
  }

  ghost predicate Unpublished(s: Slot) {
    && s.published == [] && s.generation == 0
    && (s.writer.Resting? || s.writer.Filling? || s.writer.AnswerFilled? || s.writer.Filled?)
    && (s.writer.AnswerFilled? || s.writer.Filled? ==> s.answer == s.writer.pair.answer)
    && (s.writer.Filled? ==> s.inner == s.writer.pair.inner)
  }

  ghost predicate Published(s: Slot) {
    && s.published != []
    && !s.writer.Filling? && !s.writer.AnswerFilled? && !s.writer.Filled?
    && (s.generation % 2 == 0 <==> s.writer.Resting?)
    && (s.writer.Resting? ==> Current(s) == s.published[|s.published| - 1])
    && (!s.writer.Resting? ==> Overwrites(s.published[|s.published| - 1], s.writer.pair))
    && (s.writer.InnerStored? || s.writer.BothStored? ==> s.inner == s.writer.pair.inner)
    && (s.writer.BothStored? ==> s.answer == s.writer.pair.answer)
  }

  /** While the generation has not moved, what a reader copied is what is there. */
  predicate ReaderConsistent(s: Slot, reader: Reader) {
    match reader
    case Started => s.keyed
    case SawGeneration(before) => s.keyed && before <= s.generation && before % 2 == 0
    case SawInner(before, inner) =>
      s.keyed && before <= s.generation && before % 2 == 0 && (before == s.generation ==> inner == s.inner)
    case SawBoth(before, pair) =>
      s.keyed && before <= s.generation && before % 2 == 0 && (before == s.generation ==> pair == Current(s))
    case Returned(pair, version) =>
      0 < version <= |s.published| && pair == s.published[version - 1]
    case _ => true
  }

  /** Successive publications never replace a positive answer for the same backing stream. */
  ghost predicate PositiveStays(published: seq<Pair>) {
    forall k :: 0 < k < |published| ==> Overwrites(published[k - 1], published[k])
  }

  ghost predicate Inv(s: Slot) {
    && WriterConsistent(s) && PositiveStays(s.published)
    && forall r :: 0 <= r < |s.readers| ==> ReaderConsistent(s, s.readers[r])
  }

  lemma NextKeepsInv(s: Slot, m: Move)
    requires Inv(s) && Possible(s, m)
    ensures Inv(Next(s, m)) && s.published <= Next(s, m).published && (s.keyed ==> Next(s, m).keyed)
  {
    var t := Next(s, m);
    forall r | 0 <= r < |t.readers| ensures ReaderConsistent(t, t.readers[r]) {
      assert ReaderConsistent(s, s.readers[r]);
    }
  }

  predicate Runs(s: Slot, run: seq<Move>)
    decreases |run|
  {
    run == [] || (Possible(s, run[0]) && Runs(Next(s, run[0]), run[1..]))
  }

  function Replay(s: Slot, run: seq<Move>): Slot
    requires Runs(s, run)
    decreases |run|
  {
    if run == [] then s else Replay(Next(s, run[0]), run[1..])
  }

  lemma {:induction false} EveryRunKeepsInv(s: Slot, run: seq<Move>)
    requires Inv(s) && Runs(s, run)
    ensures Inv(Replay(s, run)) && s.published <= Replay(s, run).published
    decreases |run|
  {
    if run != [] {
      NextKeepsInv(s, run[0]);
      EveryRunKeepsInv(Next(s, run[0]), run[1..]);
    }
  }

  /** The slot before its first insert. */
  predicate Fresh(s: Slot) {
    && !s.keyed && s.generation == 0 && s.writer.Resting? && s.published == []
    && forall r :: 0 <= r < |s.readers| ==> s.readers[r].Away?
  }

  /** Under any interleaving of readers with the writer, the first insert included, a lookup
      misses only while nothing is published, and one that returns has a pair that was
      published together, the latest at that moment; and no publication ever replaces a
      positive answer for the same backing stream. */
  lemma LookupsAreAtomic(s: Slot, run: seq<Move>, last: Move)
    requires Fresh(s) && Runs(s, run) && Possible(Replay(s, run), last) && last.Read?
    ensures var t := Replay(s, run);
            var reader := Next(t, last).readers[last.r];
            && (!t.readers[last.r].Missed? && reader.Missed? ==> t.published == [])
            && (!t.readers[last.r].Returned? && reader.Returned? ==>
                  t.published != [] && reader.pair == t.published[|t.published| - 1] == Pair(t.inner, t.answer))
            && forall k :: 0 < k < |t.published| && t.published[k - 1].answer.Archive? ==>
                 t.published[k].inner != t.published[k - 1].inner
  {
    assert Inv(s);
    EveryRunKeepsInv(s, run);
    var t := Replay(s, run);
    assert ReaderConsistent(t, t.readers[last.r]);
  }

  /** And nothing else is refused: between two inserts a pair can be published in four
      moves, unless it would replace a positive answer for the same backing stream. */
  lemma PublishesIff(s: Slot, pair: Pair)
    requires Inv(s) && s.writer.Resting?
    ensures s.keyed ==>
              (Runs(s, [Open(pair), StoreInner, StoreAnswer, Close]) <==> !(s.inner == pair.inner && s.answer.Archive?))
    ensures !s.keyed ==> Runs(s, [Fill(pair), FillAnswer, FillInner, StoreKey])
    ensures var run := if s.keyed then [Open(pair), StoreInner, StoreAnswer, Close]
                       else [Fill(pair), FillAnswer, FillInner, StoreKey];
            Runs(s, run) ==>
              && Replay(s, run).keyed && Replay(s, run).published == s.published + [pair]
              && Replay(s, run).inner == pair.inner && Replay(s, run).answer == pair.answer
  {
    var run := if s.keyed then [Open(pair), StoreInner, StoreAnswer, Close]
               else [Fill(pair), FillAnswer, FillInner, StoreKey];
    if Possible(s, run[0]) {
      var s1 := Next(s, run[0]);
      var s2 := Next(s1, run[1]);
      var s3 := Next(s2, run[2]);
      var s4 := Next(s3, run[3]);
      assert run[1..][1..][1..][1..] == [] && run[1..][1..][1..] == run[3..] && run[1..][1..] == run[2..];
      assert Runs(s4, []) && Replay(s4, []) == s4;
      assert Runs(s3, run[3..]) && Replay(s3, run[3..]) == s4;
      assert Runs(s2, run[2..]) && Replay(s2, run[2..]) == s4;
      assert Runs(s1, run[1..]) && Replay(s1, run[1..]) == s4;
    }
  }

  // -------------------------------------------- why the second check is there

  /** Without comparing the generation again, a reader could pair the old backing stream
      with the new answer: the step by step run in between. */
  lemma TornWithoutRecheck(earlier: Pair, later: Pair)
    requires Overwrites(earlier, later)
    ensures var s := Slot(true, 0, earlier.inner, earlier.answer, Resting, [Away], [earlier]);
            var run := [Read(0), Read(0), Read(0), Open(later), StoreInner, StoreAnswer, Read(0)];
            && Runs(s, run)
            && Replay(s, run).readers == [SawBoth(0, Pair(earlier.inner, later.answer))]
            && Next(Replay(s, run), Read(0)).readers == [Started]
  {
    var s0 := Slot(true, 0, earlier.inner, earlier.answer, Resting, [Away], [earlier]);
    var run := [Read(0), Read(0), Read(0), Open(later), StoreInner, StoreAnswer, Read(0)];
    var s1 := Next(s0, run[0]);
    var s2 := Next(s1, run[1]);
    var s3 := Next(s2, run[2]);
    var s4 := Next(s3, run[3]);
    var s5 := Next(s4, run[4]);
    var s6 := Next(s5, run[5]);
    var s7 := Next(s6, run[6]);
    assert Runs(s7, run[7..]) && Replay(s7, run[7..]) == s7;
    assert Runs(s6, run[6..]) && Replay(s6, run[6..]) == s7;
    assert Runs(s5, run[5..]) && Replay(s5, run[5..]) == s7;
    assert Runs(s4, run[4..]) && Replay(s4, run[4..]) == s7;
    assert Runs(s3, run[3..]) && Replay(s3, run[3..]) == s7;
    assert Runs(s2, run[2..]) && Replay(s2, run[2..]) == s7;
    assert Runs(s1, run[1..]) && Replay(s1, run[1..]) == s7;
  }
}
