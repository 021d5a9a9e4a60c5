/** The source resolution table: open addressing over a fixed number of slots, with an
    overflow map once every slot is taken (SourceLookup and SourceInsert in
    Skyrim/src/Hooks.cpp). */
module SourceTable {
  import opened Basics
  import opened ByteCodec

  const RETRY_MS: U64 := 5 * 1000

  type Key = k: nat | k != 0 witness 1

  /** `Nowhere` is the cached answer that no mapped archive backs the source. */
  datatype Answer = Archive(id: nat) | Nowhere

  datatype Value = Value(inner: nat, answer: Answer, validUntil: U64)

  datatype Slot = Empty | Used(key: Key, value: Value)

  datatype Lookup = Miss | Hit(answer: Answer)

  /** A positive answer for the same backing stream is kept. */
  predicate Keeps(v: Value, inner: nat) { v.inner == inner && v.answer.Archive? }

  function Deadline(now: U64, validFor: U64): U64 {
    if validFor > TWO64 - 1 - now then TWO64 - 1 else now + validFor
  }

  /** The slot `d` probes after `home`. */
  function Probe(home: nat, d: nat, n: nat): (slot: nat)
    requires home < n && d < n
    ensures slot < n
  {
    if home + d < n then home + d else home + d - n
  }

  /** How many probes after `home` a slot comes. */
  function Distance(home: nat, slot: nat, n: nat): (d: nat)
    requires home < n && slot < n
    ensures d < n && Probe(home, d, n) == slot
  {
    if home <= slot then slot - home else slot + n - home
  }

  class Table {
    const slots: array<Slot>
    const hash: Key -> nat
    var overflow: map<Key, Value>
    ghost var contents: map<Key, Value>

    ghost predicate Hashes()
      reads this
    {
      forall k: Key {:trigger hash(k)} :: hash(k) < slots.Length
    }

    /** A key is found by probing from its home slot without passing an empty slot. */
    ghost predicate Reachable()
      requires Hashes()
      reads this, slots
    {
      forall i, d :: 0 <= i < slots.Length && slots[i].Used?
                     && 0 <= d < Distance(hash(slots[i].key), i, slots.Length) ==>
                       slots[Probe(hash(slots[i].key), d, slots.Length)].Used?
    }

    ghost predicate Valid()
      reads this, slots
    {
      && 0 < slots.Length
      && Hashes() && Reachable()
      && (forall i, j :: 0 <= i < j < slots.Length && slots[i].Used? && slots[j].Used? ==> slots[i].key != slots[j].key)
      && (forall i :: 0 <= i < slots.Length && slots[i].Used? ==>
            && slots[i].key !in overflow && slots[i].key in contents && contents[slots[i].key] == slots[i].value)
      && (forall k :: k in overflow ==> k in contents && contents[k] == overflow[k])
      && (forall k :: k in contents ==>
            k in overflow || exists i :: 0 <= i < slots.Length && slots[i].Used? && slots[i].key == k)
      && (overflow != map[] ==> forall i :: 0 <= i < slots.Length ==> slots[i].Used?)
    }

    constructor (size: nat, hash: Key -> nat)
      requires 0 < size && forall k: Key {:trigger hash(k)} :: hash(k) < size
      ensures Valid() && contents == map[] && fresh(slots) && slots.Length == size
    {
      slots := new Slot[size](_ => Empty);
      this.hash, overflow, contents := hash, map[], map[];
    }

    /** Walks the probe sequence of the key. The walk ends at the key's slot, at the first
        empty slot, or after every slot; the key is in no slot unless it ends there. */
    method Walk(key: Key) returns (slot: nat, ended: bool)
      requires Valid()
      ensures slot < slots.Length
      ensures !ended ==> (slots[slot].Used? ==> slots[slot].key == key)
      ensures ended || slots[slot].Empty? ==>
                forall i :: 0 <= i < slots.Length && slots[i].Used? ==> slots[i].key != key
      ensures ended ==> forall i :: 0 <= i < slots.Length ==> slots[i].Used?
      ensures !ended && slots[slot].Empty? ==>
                forall d :: 0 <= d < Distance(hash(key), slot, slots.Length) ==>
                  slots[Probe(hash(key), d, slots.Length)].Used?
    {
      var home := hash(key);
      slot := home;
      var probe := 0;
      while probe < slots.Length
        invariant probe <= slots.Length
        invariant slot == if probe < slots.Length then Probe(home, probe, slots.Length) else home
        invariant forall d :: 0 <= d < probe ==>
                    && slots[Probe(home, d, slots.Length)].Used?
                    && slots[Probe(home, d, slots.Length)].key != key
      {
        if slots[slot].Used? && slots[slot].key == key {
          return slot, false;
        }
        if slots[slot].Empty? {
          forall i | 0 <= i < slots.Length && slots[i].Used? ensures slots[i].key != key {
            var d := Distance(home, i, slots.Length);
            var here := slots[Probe(hash(slots[i].key), probe, slots.Length)];
          }
          return slot, false;
        }
        slot := if slot + 1 == slots.Length then 0 else slot + 1;
        probe := probe + 1;
      }
      forall i | 0 <= i < slots.Length ensures slots[i].Used? && slots[i].key != key {
        var d := Distance(home, i, slots.Length);
        assert slots[Probe(home, d, slots.Length)].Used?;
      }
      return slot, true;
    }

    /** Fills the slot a walk for this key stopped at. */
    method Store(slot: nat, key: Key, v: Value)
      requires Valid() && slot < slots.Length
      requires slots[slot].Used? ==> slots[slot].key == key
      requires slots[slot].Empty? ==>
                 && (forall i :: 0 <= i < slots.Length && slots[i].Used? ==> slots[i].key != key)
                 && (forall d :: 0 <= d < Distance(hash(key), slot, slots.Length) ==>
                       slots[Probe(hash(key), d, slots.Length)].Used?)
      modifies this`contents, slots
      ensures Valid() && contents == old(contents)[key := v]
    {
      hide Distance, Probe;
      ghost var was := slots[..];
      slots[slot] := Used(key, v);
      contents := contents[key := v];
      assert forall i :: 0 <= i < slots.Length && i != slot ==> slots[i] == was[i];
      assert key !in overflow;
      assert Reachable();
      forall k | k in contents && k !in overflow
        ensures exists i :: 0 <= i < slots.Length && slots[i].Used? && slots[i].key == k
      {
        if k == key {
          assert slots[slot].key == k;
        } else {
          var i :| 0 <= i < |was| && was[i].Used? && was[i].key == k;
          assert slots[i] == was[i];
        }
      }
    }

    /** Adds to the overflow once every slot is taken by another key. */
    method StoreOverflow(key: Key, v: Value)
      requires Valid() && forall i :: 0 <= i < slots.Length ==> slots[i].Used? && slots[i].key != key
      modifies this`contents, this`overflow
      ensures Valid() && contents == old(contents)[key := v]
    {
      overflow := overflow[key := v];
      contents := contents[key := v];
    }

    /** Agrees with the map: a hit is the recorded answer for this source and backing
        stream. The reader that finds a negative answer expired misses, and while it looks for
        a new one the others, but for keys in the overflow, get the old one. */
    method Find(key: Key, inner: nat, now: U64) returns (r: Lookup)
      requires Valid()
      modifies this`contents, slots
      ensures Valid()
      ensures forall a :: r == Hit(a) <==>
                && key in old(contents) && old(contents)[key].inner == inner && old(contents)[key].answer == a
                && (a.Nowhere? ==> now < old(contents)[key].validUntil)
      ensures var refreshes :=
                && key in old(contents) && key !in overflow && old(contents)[key].inner == inner
                && old(contents)[key].answer.Nowhere? && now >= old(contents)[key].validUntil;
              contents == if refreshes then old(contents)[key := Value(inner, Nowhere, Min(now + 5000, TWO64 - 1))]
                          else old(contents)
    {
      var slot, ended := Walk(key);
      if !ended && slots[slot].Used? {
        var v := slots[slot].value;
        if v.inner != inner {
          return Miss;
        }
        if v.answer.Nowhere? && now >= v.validUntil {
          Store(slot, key, v.(validUntil := Deadline(now, RETRY_MS)));
          return Miss;
        }
        return Hit(v.answer);
      }
      if key !in overflow {
        return Miss;
      }
      var v := overflow[key];
      if v.inner != inner || (v.answer.Nowhere? && now >= v.validUntil) {
        return Miss;
      }
      return Hit(v.answer);
    }

    /** Agrees with the map: the answer is recorded, unless a positive one for the same
        backing stream is already there. */
    method Insert(key: Key, inner: nat, answer: Answer, now: U64, validFor: U64)
      requires Valid()
      modifies this, slots
      ensures Valid()
      ensures if key in old(contents) && old(contents)[key].inner == inner && old(contents)[key].answer.Archive?
              then contents == old(contents)
              else
                && contents.Keys == old(contents).Keys + {key}
                && contents[key] == Value(inner, answer, Min(now + validFor, TWO64 - 1))
                && forall k :: k in old(contents) && k != key ==> contents[k] == old(contents)[k]
    {
      var v := Value(inner, answer, Deadline(now, validFor));
      var slot, ended := Walk(key);
      if !ended {
        if slots[slot].Used? && Keeps(slots[slot].value, inner) {
          return;
        }
        Store(slot, key, v);
        return;
      }
      if key in overflow && Keeps(overflow[key], inner) {
        return;
      }
      StoreOverflow(key, v);
    }
  }

  // --------------------------------------------------- any sequence of calls

  datatype Call =
    | Finding(key: Key, inner: nat, now: U64)
    | Inserting(key: Key, inner: nat, answer: Answer, now: U64, validFor: U64)

  /** Once a lookup hits an archive it goes on hitting that archive, whatever lookups and
      inserts come, positive or negative, as long as those for the same source see the same
      backing stream. */
  method HitsStay(table: Table, key: Key, inner: nat, first: U64, calls: seq<Call>, last: U64)
      returns (before: Lookup, after: Lookup)
    requires table.Valid()
    requires forall c <- calls :: c.key == key ==> c.inner == inner
    modifies table, table.slots
    ensures table.Valid()
    ensures before.Hit? && before.answer.Archive? ==> after == before
  {
    before := table.Find(key, inner, first);
    for i := 0 to |calls|
      invariant table.Valid()
      invariant before.Hit? && before.answer.Archive? ==>
                  && key in table.contents && table.contents[key].inner == inner
                  && table.contents[key].answer == before.answer
    {
      match calls[i] {
        case Finding(k, n, now) => var _ := table.Find(k, n, now);
        case Inserting(k, n, answer, now, validFor) => table.Insert(k, n, answer, now, validFor);
      }
    }
    after := table.Find(key, inner, last);
  }

  /** What was inserted is what the next lookup finds: a positive answer at any time, a
      negative one until its deadline, and never one for another backing stream. */
  method InsertThenFind(table: Table, key: Key, inner: nat, answer: Answer, now: U64, validFor: U64,
                        other: nat, later: U64) returns (r: Lookup)
    requires table.Valid()
    modifies table, table.slots
    ensures table.Valid()
    ensures !(key in old(table.contents) && old(table.contents)[key].inner == inner
              && old(table.contents)[key].answer.Archive?) ==>
              (r == Hit(answer) <==>
                other == inner && (answer.Nowhere? ==> later < Min(now + validFor, TWO64 - 1)))
    ensures r.Hit? ==> other == inner
  {
    table.Insert(key, inner, answer, now, validFor);
    r := table.Find(key, other, later);
  }
}
