/** Resumable delivery of a cached chunk through a zlib stream with a small output buffer
    (HookedInflate in Fallout4/src/Hooks.cpp). */
module SliceServe {
  import opened Basics
  import opened ByteCodec

  const FINGERPRINT_LENGTH: nat := 64

  /** The fields of `z_stream` the hook touches; `output` is everything written so far. */
  datatype Z = Z(nextIn: nat, availIn: U32, totalIn: U32, availOut: U32, totalOut: U32, output: seq<Byte>)

  /** A chunk being delivered: `cursor` bytes are out. */
  datatype Slice = Slice(data: seq<Byte>, cursor: nat, packedSize: U32)
  {
    predicate Valid() { cursor < |data| < TWO32 }
    function Remaining(): nat requires Valid() { |data| - cursor }
  }

  /** Input that delivering `copy` of the chunk stands for. */
  function Share(copy: nat, s: Slice): nat
    requires s.data != []
  {
    copy * s.packedSize / |s.data|
  }

  function Consumed(s: Slice, z: Z): U32
    requires s.Valid()
  {
    var want :=
      if s.Remaining() <= z.availOut then if s.packedSize > z.totalIn then s.packedSize - z.totalIn else 0
      else Share(z.availOut, s);
    Min(want, z.availIn)
  }

  /** One delivery: the stream and the cursor afterwards. */
  function Deliver(s: Slice, z: Z): (Slice, Z)
    requires s.Valid()
  {
    var copy := Min(s.Remaining(), z.availOut);
    var input := Consumed(s, z);
    (s.(cursor := s.cursor + copy),
     Z(z.nextIn + input, z.availIn - input, (z.totalIn + input) % TWO32,
       z.availOut - copy, (z.totalOut + copy) % TWO32, z.output + s.data[s.cursor..s.cursor + copy]))
  }

  /** What one delivery does to every counter: as many bytes as fit, and input in proportion
      to them, or, with the last byte, up to the packed size, but never more than there is. */
  lemma DeliverSpelled(s: Slice, z: Z)
    requires s.Valid()
    ensures var (t, y) := Deliver(s, z);
            var copy := Min(|s.data| - s.cursor, z.availOut);
            var input :=
              Min(z.availIn,
                  if s.cursor + copy == |s.data| then Max(s.packedSize, z.totalIn) - z.totalIn
                  else copy * s.packedSize / |s.data|);
            && t.data == s.data && t.packedSize == s.packedSize && t.cursor == s.cursor + copy
            && y.output == z.output + s.data[s.cursor..s.cursor + copy]
            && y.availOut == z.availOut - copy && y.totalOut == (z.totalOut + copy) % 0x1_0000_0000
            && y.nextIn == z.nextIn + input && y.availIn == z.availIn - input
            && y.totalIn == (z.totalIn + input) % 0x1_0000_0000
  {
  }

  // --------------------------------------------------------------- the hook

  /** What the fingerprint index and the cache hold for the input at hand. */
  datatype Found = Found(data: seq<Byte>, packedSize: U32)

  datatype Code = OkMore | StreamEnd | Stock

  class ZStream {
    var nextIn: nat
    var availIn: U32
    var totalIn: U32
    var availOut: U32
    var totalOut: U32
    var output: seq<Byte>

    function View(): Z
      reads this
    {
      Z(nextIn, availIn, totalIn, availOut, totalOut, output)
    }
  }

  /** Moves a stream forward; the counters are 32 bits wide. */
  method Advance(strm: ZStream, input: U32, bytes: seq<Byte>)
    requires input <= strm.availIn && |bytes| <= strm.availOut
    modifies strm
    ensures strm.View() == Z(old(strm.nextIn) + input, old(strm.availIn) - input,
                             (old(strm.totalIn) + input) % TWO32, old(strm.availOut) - |bytes|,
                             (old(strm.totalOut) + |bytes|) % TWO32, old(strm.output) + bytes)
  {
    strm.output := strm.output + bytes;
    strm.availOut := strm.availOut - |bytes|;
    strm.totalOut := (strm.totalOut + |bytes|) % TWO32;
    strm.nextIn := strm.nextIn + input;
    strm.availIn := strm.availIn - input;
    strm.totalIn := (strm.totalIn + input) % TWO32;
  }

  /** The per-thread delivery state. */
  class SliceState {
    var data: seq<Byte>
    var cursor: nat
    var packedSize: U32
    var zstream: ZStream?

    constructor ()
      ensures zstream == null
    {
      data, cursor, packedSize, zstream := [], 0, 0, null;
    }

    ghost predicate Valid()
      reads this
    {
      zstream != null ==> cursor < |data| < TWO32
    }

    function View(): Slice
      reads this
    {
      Slice(data, cursor, packedSize)
    }

    method Clear()
      modifies this
      ensures zstream == null
    {
      data, cursor, packedSize, zstream := [], 0, 0, null;
    }

    /** The state still belongs to this stream's current chunk. */
    predicate Serves(strm: ZStream)
      reads this, strm
    {
      zstream == strm && strm.totalIn != 0
    }

    /** Delivers the next slice; the last one ends the stream and the state. */
    method Continue(strm: ZStream) returns (code: Code)
      requires Valid() && zstream == strm
      modifies this, strm
      ensures Valid()
      ensures var (s, z) := Deliver(old(View()), old(strm.View()));
              && strm.View() == z
              && code == (if s.cursor == |s.data| then StreamEnd else OkMore)
              && (if code.StreamEnd? then zstream == null else zstream == strm && View() == s)
    {
      hide Share;
      var remain := |data| - cursor;
      var copy := Min(remain, strm.availOut);
      var slice := data[cursor..cursor + copy];
      var last := cursor + copy == |data|;
      var want: U64;
      if last {
        want := if packedSize > strm.totalIn then packedSize - strm.totalIn else 0;
      } else {
        ShareFits(copy, View());
        want := Share(copy, View());
      }
      Advance(strm, if want > strm.availIn then strm.availIn else want, slice);
      cursor := cursor + copy;
      if last {
        Clear();
      }
      return if last then StreamEnd else OkMore;
    }

    /** A whole chunk at once, or the first slice of one. */
    method Begin(strm: ZStream, found: Found) returns (code: Code)
      requires zstream == null && |found.data| < TWO32
      modifies this, strm
      ensures Valid()
      ensures var s := Slice(found.data, 0, found.packedSize);
              if old(strm.availOut) >= |s.data| then
                && code.StreamEnd? && strm.output == old(strm.output) + s.data && zstream == null
                && strm.totalIn == old(strm.availIn) && strm.availIn == 0 && strm.nextIn == old(strm.nextIn)
                && strm.totalOut == |s.data| && strm.availOut == old(strm.availOut) - |s.data|
              else
                var (t, z) := Deliver(s, old(strm.View()));
                code.OkMore? && strm.View() == z && zstream == strm && View() == t
    {
      hide Share;
      if strm.availOut >= |found.data| {
        strm.output := strm.output + found.data;
        strm.availOut := strm.availOut - |found.data|;
        strm.totalOut := |found.data|;
        strm.totalIn := strm.availIn;
        strm.availIn := 0;
        return StreamEnd;
      }
      data, cursor, packedSize, zstream := found.data, 0, found.packedSize, strm;
      var copy := strm.availOut;
      ShareFits(copy, View());
      var want: U64 := Share(copy, View());
      Advance(strm, if want > strm.availIn then strm.availIn else want, data[0..copy]);
      cursor := copy;
      return OkMore;
    }

    /** One call with the gate open. A state of another stream or an earlier chunk is
        dropped; a live one delivers its next slice; otherwise a chunk of matching size is
        delivered whole, or begun. */
    method Inflate(strm: ZStream, indexed: Option<Found>, cached: bool) returns (code: Code)
      requires Valid() && (indexed.Some? ==> |indexed.value.data| < TWO32)
      modifies this, strm
      ensures Valid()
      ensures old(zstream == strm && strm.totalIn != 0) ==>
                var (s, z) := Deliver(old(View()), old(strm.View()));
                && strm.View() == z
                && code == (if s.cursor == |s.data| then StreamEnd else OkMore)
                && (if code.StreamEnd? then zstream == null else zstream == strm && View() == s)
      ensures var anew := old(zstream != strm || strm.totalIn == 0);
              var starts := old(strm.availIn) >= 64 && cached && indexed.Some?
                            && -2 <= old(strm.availIn) - indexed.value.packedSize <= 2;
              && (anew && starts ==>
                    var s := Slice(indexed.value.data, 0, indexed.value.packedSize);
                    if old(strm.availOut) >= |s.data| then
                      && code.StreamEnd? && strm.output == old(strm.output) + s.data && zstream == null
                      && strm.totalIn == old(strm.availIn) && strm.availIn == 0 && strm.nextIn == old(strm.nextIn)
                      && strm.totalOut == |s.data| && strm.availOut == old(strm.availOut) - |s.data|
                    else
                      var (t, z) := Deliver(s, old(strm.View()));
                      code.OkMore? && strm.View() == z && zstream == strm && View() == t)
              && (anew && !starts ==>
                    code.Stock? && strm.View() == old(strm.View()) && zstream == null)
    {
      hide Share, Deliver;
      if zstream != null && (zstream != strm || strm.totalIn == 0) {
        Clear();
      }
      if zstream == strm && cursor < |data| {
        code := Continue(strm);
        return;
      }
      if strm.availIn < FINGERPRINT_LENGTH || indexed.None? {
        return Stock;
      }
      var difference := strm.availIn - indexed.value.packedSize;
      if difference < -2 || difference > 2 || !cached {
        return Stock;
      }
      code := Begin(strm, indexed.value);
    }
  }

  /** The 64-bit product of the proportion cannot overflow. */
  lemma ProductFits(copy: U32, packedSize: U32)
    ensures 0 <= copy * packedSize < TWO64
  {
    MulMonotone(copy, TWO32 - 1, packedSize);
    MulMonotone(packedSize, TWO32 - 1, TWO32 - 1);
  }

  lemma ShareFits(copy: U32, s: Slice)
    requires s.data != []
    ensures Share(copy, s) < TWO64
  {
    ProductFits(copy, s.packedSize);
    DivBound(copy * s.packedSize, |s.data|);
  }

  lemma MulMonotone(a: nat, b: nat, c: nat)
    requires a <= b
    ensures a * c <= b * c
  {
  }

  lemma DivBound(n: nat, d: nat)
    requires d > 0
    ensures 0 <= n / d <= n && d * (n / d) <= n < d * (n / d) + d
  {
    MulMonotone(1, d, n / d);
  }

  // ------------------------------------------------------- a whole delivery

  /** The buffers a caller provides for one call. */
  datatype Call = Call(availIn: U32, availOut: U32)

  function Total(calls: seq<Call>): nat {
    if calls == [] then 0 else Total(calls[..|calls| - 1]) + calls[|calls| - 1].availOut
  }

  predicate Done(s: Slice) { s.cursor == |s.data| }

  /** The slices of a chunk, call by call, until it is out. */
  function Delivery(s: Slice, z: Z, calls: seq<Call>): (r: (Slice, Z))
    requires s.Valid()
    ensures r.0.data == s.data && r.0.packedSize == s.packedSize && r.0.cursor <= |s.data|
  {
    if calls == [] then (s, z)
    else
      var (t, y) := Delivery(s, z, calls[..|calls| - 1]);
      var call := calls[|calls| - 1];
      if Done(t) then (t, y) else Deliver(t, y.(availIn := call.availIn, availOut := call.availOut))
  }

  /** `total` input for `size` bytes of output is no more than `packed` for `cursor`. */
  predicate Within(total: nat, size: nat, cursor: nat, packed: nat) { total * size <= cursor * packed }

  /** The input consumed never runs ahead of the output delivered, in proportion. */
  predicate InProportion(s: Slice, z: Z) { Within(z.totalIn, |s.data|, s.cursor, s.packedSize) }

  /** The first slice's share of the packed size is at least one byte, and there is input. */
  predicate Feeds(s: Slice, call: Call) {
    0 < call.availOut < |s.data| && 0 < call.availIn && |s.data| <= call.availOut * s.packedSize
  }

  lemma Distribute(a: nat, b: nat, c: nat)
    ensures (a + b) * c == a * c + b * c
  {
  }

  lemma WithinBounds(total: nat, size: nat, cursor: nat, packed: nat)
    requires 0 < size && cursor <= size && Within(total, size, cursor, packed)
    ensures total <= packed
  {
    if total > packed {
      Distribute(packed, 1, size);
      MulMonotone(packed + 1, total, size);
      MulMonotone(cursor, size, packed);
    }
  }

  /** The arithmetic of one share: what it adds stays within the chunk's proportion. */
  lemma ShareAddsUp(s: Slice, copy: nat, total: nat, input: nat)
    requires s.data != [] && Within(total, |s.data|, s.cursor, s.packedSize) && input <= Share(copy, s)
    ensures Within(total + input, |s.data|, s.cursor + copy, s.packedSize)
  {
    DivBound(copy * s.packedSize, |s.data|);
    MulMonotone(input, Share(copy, s), |s.data|);
    Distribute(total, input, |s.data|);
    Distribute(s.cursor, copy, s.packedSize);
  }

  lemma SliceKeepsProportion(s: Slice, z: Z)
    requires s.Valid() && InProportion(s, z)
    requires z.availOut < s.Remaining()
    ensures var (t, y) := Deliver(s, z);
            && t.cursor == s.cursor + z.availOut && InProportion(t, y) && z.totalIn <= y.totalIn
  {
    hide Within, Share;
    var input := Consumed(s, z);
    ShareAddsUp(s, z.availOut, z.totalIn, input);
    WithinBounds(z.totalIn + input, |s.data|, s.cursor + z.availOut, s.packedSize);
  }

  /** After any number of calls with room for output: what is out is exactly the chunk up to
      the cursor, as much as the buffers allowed, and until the last slice the input
      consumed stays in proportion and the delivery remains resumable. */
  lemma {:induction false} DeliveryIsExact(s: Slice, z: Z, calls: seq<Call>)
    requires s.Valid() && s.cursor == 0 && z.totalIn == 0
    requires forall c <- calls :: 0 < c.availOut
    ensures var (t, y) := Delivery(s, z, calls);
            && t.cursor == Min(Total(calls), |s.data|)
            && y.output == z.output + s.data[..t.cursor]
            && (!Done(t) ==> InProportion(t, y))
            && y.totalIn <= s.packedSize
  {
    if calls == [] {
      assert InProportion(s, z);
    } else {
      hide Within, Share, Consumed, Deliver;
      var prior, call := calls[..|calls| - 1], calls[|calls| - 1];
      assert call in calls && forall c <- prior :: c in calls;
      DeliveryIsExact(s, z, prior);
      var (t, y) := Delivery(s, z, prior);
      if !Done(t) {
        var given := y.(availIn := call.availIn, availOut := call.availOut);
        SliceGrows(s, z, t, given);
        if call.availOut < t.Remaining() {
          SliceKeepsProportion(t, given);
          var (u, x) := Deliver(t, given);
          WithinBounds(x.totalIn, |u.data|, u.cursor, u.packedSize);
        } else {
          WithinBounds(given.totalIn, |t.data|, t.cursor, t.packedSize);
          LastSliceSettles(t, given);
        }
      }
    }
  }

  /** The last slice consumes what is left of the packed size, as far as there is input. */
  lemma LastSliceSettles(s: Slice, z: Z)
    requires s.Valid() && s.Remaining() <= z.availOut && z.totalIn <= s.packedSize
    ensures var (t, y) := Deliver(s, z);
            Done(t) && y.totalIn == Min(s.packedSize, z.totalIn + z.availIn)
  {
  }

  lemma SliceGrows(s: Slice, z: Z, t: Slice, y: Z)
    requires t.Valid() && t.data == s.data && y.output == z.output + s.data[..t.cursor]
    ensures var (u, x) := Deliver(t, y);
            && u.cursor == Min(t.cursor + y.availOut, |s.data|)
            && x.output == z.output + s.data[..u.cursor]
  {
    DeliverWrites(t, y);
    hide Deliver;
    var copy := Min(t.Remaining(), y.availOut);
    assert s.data[..t.cursor] + s.data[t.cursor..t.cursor + copy] == s.data[..t.cursor + copy];
  }

  lemma {:induction false} ResumableOnceStarted(s: Slice, z: Z, calls: seq<Call>)
    requires s.Valid() && s.cursor == 0 && z.totalIn == 0 && calls != []
    requires forall c <- calls :: 0 < c.availOut
    requires Feeds(s, calls[0])
    ensures var (t, y) := Delivery(s, z, calls); !Done(t) ==> 1 <= y.totalIn
  {
    assert calls[0].availOut < |s.data|;
    hide Within, Share, Consumed, Deliver, Feeds;
    var prior, call := calls[..|calls| - 1], calls[|calls| - 1];
    assert call in calls && forall c <- prior :: c in calls;
    DeliveryIsExact(s, z, prior);
    var (t, y) := Delivery(s, z, prior);
    if prior == [] {
      assert call == calls[0] && (t, y) == (s, z);
      var given := z.(availIn := call.availIn, availOut := call.availOut);
      FirstSliceConsumes(s, given);
    } else {
      assert prior[0] == calls[0];
      ResumableOnceStarted(s, z, prior);
      if !Done(t) {
        var given := y.(availIn := call.availIn, availOut := call.availOut);
        if call.availOut < t.Remaining() {
          SliceKeepsProportion(t, given);
        }
      }
    }
  }

  /** A first slice consumes input exactly when there is some and the slice's share of the
      packed size is at least one byte. */
  lemma FirstSliceConsumes(s: Slice, z: Z)
    requires s.Valid() && s.cursor == 0 && z.totalIn == 0 && 0 < z.availOut < |s.data|
    ensures 1 <= Deliver(s, z).1.totalIn <==> Feeds(s, Call(z.availIn, z.availOut))
  {
    var product := z.availOut * s.packedSize;
    var share := product / |s.data|;
    DivBound(product, |s.data|);
    if share == 0 {
      assert product < |s.data|;
    } else {
      MulMonotone(1, share, |s.data|);
    }
    assert Share(z.availOut, s) == share;
    assert z.totalIn + Consumed(s, z) < TWO32;
  }

  /** The slices of a delivery whose first slice consumes input: their concatenation is the
      chunk, every call before the last leaves the state resumable, and the input consumed
      ends at the packed size when the last call has that much input. */
  lemma WholeDelivery(s: Slice, z: Z, calls: seq<Call>)
    requires s.Valid() && s.cursor == 0 && z.totalIn == 0 && calls != []
    requires forall c <- calls :: 0 < c.availOut
    requires Feeds(s, calls[0])
    requires Total(calls[..|calls| - 1]) < |s.data| <= Total(calls)
    ensures var (t, y) := Delivery(s, z, calls[..|calls| - 1]);
            var (u, x) := Delivery(s, z, calls);
            && Done(u) && x.output == z.output + s.data
            && !Done(t) && 1 <= y.totalIn && InProportion(t, y)
            && x.totalIn == Min(s.packedSize, y.totalIn + calls[|calls| - 1].availIn)
  {
    hide Within, InProportion, Share, Consumed, Deliver, Feeds, Delivery, Total;
    BeforeLast(s, z, calls);
    DeliveryIsExact(s, z, calls);
    assert s.data[..|s.data|] == s.data;
    LastCall(s, z, calls);
  }

  lemma BeforeLast(s: Slice, z: Z, calls: seq<Call>)
    requires s.Valid() && s.cursor == 0 && z.totalIn == 0 && calls != []
    requires forall c <- calls :: 0 < c.availOut
    requires Feeds(s, calls[0])
    requires Total(calls[..|calls| - 1]) < |s.data| <= Total(calls)
    ensures var (t, y) := Delivery(s, z, calls[..|calls| - 1]);
            && t.cursor == Total(calls[..|calls| - 1])
            && 1 <= y.totalIn <= s.packedSize && InProportion(t, y)
  {
    hide Within, InProportion, Share, Consumed, Deliver, Feeds, Delivery, Total;
    var prior := calls[..|calls| - 1];
    TakesTwo(s, calls);
    PriorOf(calls);
    assert prior[0] == calls[0];
    DeliveryIsExact(s, z, prior);
    ResumableOnceStarted(s, z, prior);
  }

  lemma PriorOf(calls: seq<Call>)
    requires calls != [] && forall c <- calls :: 0 < c.availOut
    ensures forall c <- calls[..|calls| - 1] :: 0 < c.availOut
  {
    assert forall c <- calls[..|calls| - 1] :: c in calls;
  }

  /** A chunk whose first call does not take it whole takes another. */
  lemma TakesTwo(s: Slice, calls: seq<Call>)
    requires calls != [] && Feeds(s, calls[0]) && |s.data| <= Total(calls)
    ensures |calls| > 1
  {
    hide Total;
    assert |calls| == 1 ==> calls == [calls[0]];
    TotalOfOne(calls[0]);
  }

  lemma LastCall(s: Slice, z: Z, calls: seq<Call>)
    requires s.Valid() && calls != []
    requires var (t, y) := Delivery(s, z, calls[..|calls| - 1]);
             t.cursor == Total(calls[..|calls| - 1]) < |s.data| <= Total(calls) && y.totalIn <= s.packedSize
    ensures var (_, y) := Delivery(s, z, calls[..|calls| - 1]);
            Delivery(s, z, calls).1.totalIn == Min(s.packedSize, y.totalIn + calls[|calls| - 1].availIn)
  {
    DeliveryMore(s, z, calls);
    var (t, y) := Delivery(s, z, calls[..|calls| - 1]);
    var call := calls[|calls| - 1];
    hide Consumed, Deliver, Delivery, Total;
    LastSliceSettles(t, y.(availIn := call.availIn, availOut := call.availOut));
  }

  lemma TotalOfOne(call: Call)
    ensures Total([call]) == call.availOut
  {
    assert [call][..0] == [];
  }

  lemma DeliveryMore(s: Slice, z: Z, calls: seq<Call>)
    requires s.Valid() && calls != []
    ensures var call := calls[|calls| - 1];
            var (t, y) := Delivery(s, z, calls[..|calls| - 1]);
            && Total(calls) == Total(calls[..|calls| - 1]) + call.availOut
            && t.data == s.data && t.packedSize == s.packedSize
            && (!Done(t) ==>
                  Delivery(s, z, calls) == Deliver(t, y.(availIn := call.availIn, availOut := call.availOut)))
  {
  }

  lemma {:induction false} TotalOfPrefix(calls: seq<Call>, i: nat)
    requires i <= |calls|
    ensures Total(calls[..i]) <= Total(calls)
  {
    if i < |calls| {
      var prior := calls[..|calls| - 1];
      TotalOfPrefix(prior, i);
      assert prior[..i] == calls[..i];
    } else {
      assert calls[..i] == calls;
    }
  }

  /** One more call of a delivery that is under way, through the hook. */
  method NextSlice(state: SliceState, strm: ZStream, found: Found, calls: seq<Call>, i: nat, ghost z: Z)
      returns (code: Code)
    requires i < |calls| && forall c <- calls :: 0 < c.availOut
    requires state.Valid() && state.zstream == strm && 1 <= strm.totalIn && |found.data| < TWO32
    requires var s := Slice(found.data, 0, found.packedSize);
             s.Valid() && (state.View(), strm.View()) == Delivery(s, z, calls[..i]) && !Done(state.View())
    modifies state, strm
    ensures state.Valid()
    ensures var s := Slice(found.data, 0, found.packedSize);
            var (t, y) := Delivery(s, z, calls[..i + 1]);
            && strm.View() == y
            && code == (if Done(t) then StreamEnd else OkMore)
            && (!Done(t) ==> state.zstream == strm && state.View() == t)
  {
    hide Deliver, Consumed, Share;
    var call := calls[i];
    strm.availIn, strm.availOut := call.availIn, call.availOut;
    assert calls[..i + 1][..i] == calls[..i];
    DeliveryMore(Slice(found.data, 0, found.packedSize), z, calls[..i + 1]);
    code := state.Inflate(strm, Some(found), true);
  }

  /** A caller that passes buffers until the stream ends, through the hook: it gets the
      chunk, is told to go on after every call but the last, and finds the packed size
      consumed as far as its last input allows. */
  method StreamChunk(state: SliceState, strm: ZStream, found: Found, calls: seq<Call>)
      returns (codes: seq<Code>, ghost consumed: nat)
    requires state.Valid() && strm.totalIn == 0 && |found.data| < TWO32
    requires calls != [] && forall c <- calls :: 0 < c.availOut
    requires Feeds(Slice(found.data, 0, found.packedSize), calls[0])
    requires FINGERPRINT_LENGTH <= calls[0].availIn && -2 <= calls[0].availIn - found.packedSize <= 2
    requires Total(calls[..|calls| - 1]) < |found.data| <= Total(calls)
    modifies state, strm
    ensures state.Valid()
    ensures strm.output == old(strm.output) + found.data
    ensures |codes| == |calls|
    ensures forall i :: 0 <= i < |codes| ==> (codes[i] == if i == |calls| - 1 then StreamEnd else OkMore)
    ensures consumed ==
            Delivery(Slice(found.data, 0, found.packedSize), old(strm.View()), calls[..|calls| - 1]).1.totalIn
    ensures strm.totalIn == Min(found.packedSize, consumed + calls[|calls| - 1].availIn)
  {
    hide Deliver, Consumed, Share, Feeds, Within, Total, Delivery;
    ghost var s, z := Slice(found.data, 0, found.packedSize), strm.View();
    assert calls[0].availOut < |found.data| by { FeedsLess(s, calls[0]); }
    WholeDelivery(s, z, calls);
    consumed := Delivery(s, z, calls[..|calls| - 1]).1.totalIn;
    strm.availIn, strm.availOut := calls[0].availIn, calls[0].availOut;
    DeliveryMore(s, z, calls[..1]);
    DeliveryOfNone(s, z, calls);
    codes := [];
    var code := state.Inflate(strm, Some(found), true);
    codes := [code];
    for i := 1 to |calls|
      invariant |codes| == i && state.Valid()
      invariant strm.View() == Delivery(s, z, calls[..i]).1
      invariant forall k :: 0 <= k < i ==> (codes[k] == if k == |calls| - 1 then StreamEnd else OkMore)
      invariant i < |calls| ==> state.zstream == strm && state.View() == Delivery(s, z, calls[..i]).0
    {
      Underway(s, z, calls, i);
      code := NextSlice(state, strm, found, calls, i, z);
      codes := codes + [code];
      if i + 1 < |calls| {
        Underway(s, z, calls, i + 1);
      } else {
        assert calls[..i + 1] == calls;
      }
    }
    assert calls[..|calls|] == calls;
  }

  lemma FeedsLess(s: Slice, call: Call)
    requires Feeds(s, call)
    ensures call.availOut < |s.data|
  {
  }

  lemma DeliveryOfNone(s: Slice, z: Z, calls: seq<Call>)
    requires s.Valid() && calls != []
    ensures Delivery(s, z, calls[..1][..0]) == (s, z)
  {
  }

  /** Before the last call the delivery is not done and will not be taken for stale. */
  lemma Underway(s: Slice, z: Z, calls: seq<Call>, i: nat)
    requires s.Valid() && s.cursor == 0 && z.totalIn == 0
    requires forall c <- calls :: 0 < c.availOut
    requires 0 < i < |calls| && Feeds(s, calls[0]) && Total(calls[..|calls| - 1]) < |s.data|
    ensures var (t, y) := Delivery(s, z, calls[..i]); !Done(t) && 1 <= y.totalIn
  {
    hide Deliver, Consumed, Share, Feeds, Within, Total, Delivery;
    var prior := calls[..|calls| - 1];
    TotalOfPrefix(prior, i);
    assert prior[..i] == calls[..i];
    assert forall c <- calls[..i] :: c in calls;
    assert calls[..i][0] == calls[0];
    DeliveryIsExact(s, z, calls[..i]);
    ResumableOnceStarted(s, z, calls[..i]);
  }

  // ------------------------------------- a first slice that consumes nothing

  /** What one delivery writes. */
  lemma DeliverWrites(s: Slice, z: Z)
    requires s.Valid()
    ensures Deliver(s, z).1.output == z.output + s.data[s.cursor..s.cursor + Min(s.Remaining(), z.availOut)]
    ensures Deliver(s, z).0.cursor == s.cursor + Min(s.Remaining(), z.availOut)
    ensures Deliver(s, z).0.data == s.data && Deliver(s, z).0.packedSize == s.packedSize
  {
  }

  /** A partial first slice and the call after it, through the hook. The second call
      continues at the cursor if and only if the first consumed input; otherwise the state
      counts as stale, and the chunk begins again if the input still starts it. */
  method FirstTwoCalls(state: SliceState, strm: ZStream, found: Found, first: Call, second: Call)
      returns (codes: (Code, Code), ghost continued: bool)
    requires state.Valid() && strm.totalIn == 0 && |found.data| < TWO32
    requires 0 < first.availOut < |found.data|
    requires FINGERPRINT_LENGTH <= first.availIn && -2 <= first.availIn - found.packedSize <= 2
    modifies state, strm
    ensures state.Valid() && codes.0.OkMore?
    ensures continued <==> Feeds(Slice(found.data, 0, found.packedSize), first)
    ensures var cursor := first.availOut;
            var out := old(strm.output) + found.data[0..cursor];
            if continued then
              && strm.output == out + found.data[cursor..cursor + Min(|found.data| - cursor, second.availOut)]
              && codes.1 == (if |found.data| - cursor <= second.availOut then StreamEnd else OkMore)
            else if FINGERPRINT_LENGTH <= second.availIn && -2 <= second.availIn - found.packedSize <= 2 then
              && strm.output == out + found.data[0..Min(|found.data|, second.availOut)]
              && codes.1 == (if |found.data| <= second.availOut then StreamEnd else OkMore)
            else
              strm.output == out && codes.1.Stock?
  {
    hide Deliver, Consumed, Share, Feeds;
    ghost var s := Slice(found.data, 0, found.packedSize);
    strm.availIn, strm.availOut := first.availIn, first.availOut;
    ghost var given := strm.View();
    FirstSliceConsumes(s, given);
    DeliverWrites(s, given);
    var code := state.Inflate(strm, Some(found), true);
    continued := state.Serves(strm);
    strm.availIn, strm.availOut := second.availIn, second.availOut;
    if continued {
      DeliverWrites(state.View(), strm.View());
    } else {
      DeliverWrites(s, strm.View());
      assert found.data[0..|found.data|] == found.data;
    }
    var next := state.Inflate(strm, Some(found), true);
    codes := (code, next);
  }

  /** Two hundred bytes packed into sixty-four, asked for one byte at a time: the first
      slice consumes no input, and the hook delivers the first byte twice. */
  method TinyFirstSliceRepeats(data: seq<Byte>) returns (strm: ZStream, codes: (Code, Code))
    requires |data| == 200
    ensures fresh(strm) && strm.output == [data[0], data[0]] && codes == (OkMore, OkMore)
  {
    var state := new SliceState();
    strm := new ZStream;
    strm.totalIn, strm.output := 0, [];
    ghost var continued: bool;
    var call := Call(64, 1);
    assert !Feeds(Slice(data, 0, 64), call);
    assert data[0..1] == [data[0]];
    codes, continued := FirstTwoCalls(state, strm, Found(data, 64), call, call);
  }
}
