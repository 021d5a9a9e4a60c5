/** Prefaulting a mapped cache file page by page, resumable, and the range test that
    lookups rely on (TouchMappedPages and WarmMappedCaches in Skyrim/src/DecompCache.cpp,
    Skyrim/src/CacheWarmPolicy.h). */
module WarmPrefix {
  import opened Basics
  import opened ByteCodec

  // ------------------------------------------------------------ the range test

  predicate IsRangeWarm(offset: U64, size: U64, committed: U64, warmedBytes: U64) {
    if size == 0 || offset > committed || size > committed - offset then false
    else
      var warmed := Min(warmedBytes, committed);
      offset <= warmed && size <= warmed - offset
  }

  /** In unbounded arithmetic: the range is not empty and ends inside both the committed
      bytes and the warmed prefix. */
  lemma RangeTestIsExact(offset: U64, size: U64, committed: U64, warmedBytes: U64)
    ensures IsRangeWarm(offset, size, committed, warmedBytes)
            <==> 0 < size && offset + size <= committed && offset + size <= warmedBytes
  {
  }

  // ---------------------------------------------------------------- pages

  function Page(p: nat, pageSize: nat): nat
    requires pageSize > 0
  {
    p / pageSize
  }

  predicate Aligned(p: nat, pageSize: nat)
    requires pageSize > 0
  {
    p % pageSize == 0
  }

  /** How far the first page boundary after `begin` is. */
  function Advance(begin: nat, pageSize: nat): nat
    requires pageSize > 0
  {
    var misalignment := begin % pageSize;
    if misalignment == 0 then pageSize else pageSize - misalignment
  }

  /** Some byte of this page was read. */
  ghost predicate PageTouched(touched: set<U64>, page: nat, pageSize: nat)
    requires pageSize > 0
  {
    exists offset <- touched :: Page(offset, pageSize) == page
  }

  /** Every page that meets the range was read. */
  ghost predicate PagesTouched(touched: set<U64>, begin: nat, end: nat, pageSize: nat)
    requires pageSize > 0
  {
    forall p: nat :: begin <= p < end ==> PageTouched(touched, Page(p, pageSize), pageSize)
  }

  /** Nothing outside the range was read. */
  predicate Inside(touched: set<U64>, begin: nat, end: nat) {
    forall offset <- touched :: begin <= offset < end
  }

  lemma Scale(a: nat, b: nat, d: nat)
    requires a <= b
    ensures a * d <= b * d
  {
  }

  lemma DivIsUnique(p: nat, q: nat, r: nat, d: nat)
    requires d > 0 && p == d * q + r && r < d
    ensures p / d == q && p % d == r
  {
    var q1, r1 := p / d, p % d;
    assert p == d * q1 + r1;
    if q1 < q {
      Scale(q1 + 1, q, d);
    } else if q < q1 {
      Scale(q + 1, q1, d);
    }
  }

  /** From `begin` to the boundary is one page, and the boundary starts another. */
  lemma BoundaryIsNext(begin: nat, pageSize: nat)
    requires pageSize > 0
    ensures 0 < Advance(begin, pageSize) <= pageSize
    ensures Aligned(begin + Advance(begin, pageSize), pageSize)
    ensures Aligned(begin, pageSize) ==> Advance(begin, pageSize) == pageSize
    ensures forall p: nat :: begin <= p < begin + Advance(begin, pageSize) ==>
              Page(p, pageSize) == Page(begin, pageSize)
  {
    var q, m := begin / pageSize, begin % pageSize;
    assert begin == pageSize * q + m;
    var advance := if m == 0 then pageSize else pageSize - m;
    assert pageSize * (q + 1) == pageSize * q + pageSize;
    DivIsUnique(begin + advance, q + 1, 0, pageSize);
    forall p: nat | begin <= p < begin + advance ensures Page(p, pageSize) == Page(begin, pageSize) {
      DivIsUnique(p, q, p - begin + m, pageSize);
    }
  }

  lemma PagesGrow(touched: set<U64>, more: set<U64>, begin: nat, middle: nat, end: nat, last: nat, pageSize: nat)
    requires pageSize > 0 && begin <= middle <= end && touched <= more
    requires PagesTouched(touched, begin, middle, pageSize)
    requires exists offset <- more ::
               middle <= offset && forall p: nat :: middle <= p < last ==> Page(p, pageSize) == Page(offset, pageSize)
    requires end <= last || end == middle
    ensures PagesTouched(more, begin, end, pageSize)
  {
    hide Page;
    forall p: nat | begin <= p < end ensures PageTouched(more, Page(p, pageSize), pageSize) {
      if p < middle {
        assert PageTouched(touched, Page(p, pageSize), pageSize);
        var o :| o in touched && Page(o, pageSize) == Page(p, pageSize);
        assert o in more;
      } else {
        var o :| o in more && middle <= o
                 && forall r: nat :: middle <= r < last ==> Page(r, pageSize) == Page(o, pageSize);
        assert Page(p, pageSize) == Page(o, pageSize);
      }
    }
  }

  /** Reads one byte of every page of [begin, end), and nothing outside it. All offsets stay
      within 64 bits. */
  method TouchMappedPages(begin: U64, end: U64, pageSize: U32) returns (touched: set<U64>)
    ensures begin >= end || pageSize == 0 ==> touched == {}
    ensures begin < end && pageSize > 0 ==> PagesTouched(touched, begin, end, pageSize)
    ensures Inside(touched, begin, end)
  {
    hide Page, Aligned, Advance;
    touched := {};
    if begin >= end || pageSize == 0 {
      return;
    }
    touched := touched + {begin};
    BoundaryIsNext(begin, pageSize);
    var advance: U64 := Advance(begin, pageSize);
    ghost var covered := Min(begin + advance, end);
    PagesGrow({}, touched, begin, begin, covered, begin + advance, pageSize);
    if advance < end - begin {
      var offset: U64 := begin + advance;
      while offset < end
        invariant begin < offset <= end && covered == offset
        invariant offset < end ==> Aligned(offset, pageSize)
        invariant PagesTouched(touched, begin, covered, pageSize)
        invariant Inside(touched, begin, end)
        decreases end - offset
      {
        ghost var before := touched;
        touched := touched + {offset};
        BoundaryIsNext(offset, pageSize);
        covered := Min(offset + pageSize, end);
        PagesGrow(before, touched, begin, offset, covered, offset + pageSize, pageSize);
        offset := if end - offset <= pageSize then end else offset + pageSize;
      }
    }
    ghost var walked := touched;
    touched := touched + {end - 1};
    forall p: nat | begin <= p < end ensures PageTouched(touched, Page(p, pageSize), pageSize) {
      assert PageTouched(walked, Page(p, pageSize), pageSize);
      var o :| o in walked && Page(o, pageSize) == Page(p, pageSize);
      assert o in touched;
    }
  }

  // ---------------------------------------------------------- resumable passes

  const CHUNK: U64 := 8 * 1024 * 1024

  /** A mapped cache file. `read` is every byte offset any pass has read. */
  class MappedView {
    const size: U64
    const committedSize: U64
    const pageSize: U32
    var prefaultedThrough: U64
    ghost var read: set<U64>

    function Committed(): U64 { if committedSize < size then committedSize else size }

    /** The prefix was read page by page, and nothing beyond the committed bytes. */
    ghost predicate Valid()
      reads this
    {
      && pageSize > 0 && prefaultedThrough <= Committed()
      && PagesTouched(read, 0, prefaultedThrough, pageSize) && Inside(read, 0, Committed())
    }

    constructor (size: U64, committedSize: U64, pageSize: U32)
      requires pageSize > 0
      ensures Valid() && prefaultedThrough == 0
      ensures this.size == size && this.committedSize == committedSize && this.pageSize == pageSize
    {
      this.size, this.committedSize, this.pageSize := size, committedSize, pageSize;
      prefaultedThrough, read := 0, {};
    }

    /** One pass, chunk by chunk, from where the last one ended. A load, a flush, a new
        epoch or a stop ends it once the cursor has reached `interruptAt`; a page fault at
        `faultAt` fails the chunk it lies in. */
    method Warm(interruptAt: U64, faultAt: U64) returns (finished: bool)
      requires Valid()
      modifies this
      ensures Valid() && old(prefaultedThrough) <= prefaultedThrough && old(read) <= read
      ensures finished <==> prefaultedThrough == Committed()
      ensures !finished ==> interruptAt <= prefaultedThrough || prefaultedThrough <= faultAt < prefaultedThrough + CHUNK
    {
      hide Page;
      var committed := Committed();
      var cursor := if prefaultedThrough < committed then prefaultedThrough else committed;
      while cursor < committed
        invariant Valid() && cursor == prefaultedThrough <= committed
        invariant old(prefaultedThrough) <= prefaultedThrough && old(read) <= read
        decreases committed - cursor
      {
        if interruptAt <= cursor {
          return false;
        }
        var chunk := if CHUNK < committed - cursor then CHUNK else committed - cursor;
        var touched := TouchMappedPages(cursor, cursor + chunk, pageSize);
        if cursor <= faultAt < cursor + chunk {
          return false;
        }
        ghost var more := read + touched;
        forall p: nat | 0 <= p < cursor + chunk ensures PageTouched(more, Page(p, pageSize), pageSize) {
          if p < cursor {
            assert PageTouched(read, Page(p, pageSize), pageSize);
            var o :| o in read && Page(o, pageSize) == Page(p, pageSize);
            assert o in more;
          } else {
            assert PageTouched(touched, Page(p, pageSize), pageSize);
            var o :| o in touched && Page(o, pageSize) == Page(p, pageSize);
            assert o in more;
          }
        }
        read := more;
        cursor := cursor + chunk;
        prefaultedThrough := cursor;
      }
      return true;
    }

    /** An entry that passes the range test lies inside the mapping, and every page it
        meets has been read. */
    lemma WarmEntriesAreTouched(offset: U64, bytes: U64)
      requires Valid() && IsRangeWarm(offset, bytes, committedSize, prefaultedThrough)
      ensures offset + bytes <= Committed() && PagesTouched(read, offset, offset + bytes, pageSize)
    {
      RangeTestIsExact(offset, bytes, committedSize, prefaultedThrough);
    }
  }
}
