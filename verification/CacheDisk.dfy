/** A cache file on a disk that may lose power.

    Reads see `bytes`. The disk itself holds `durable`, plus the operations
    issued since the last successful flush; a crash keeps any of those, data
    writes may be torn byte by byte, and only the header write is atomic. */
module CacheDisk {
  import opened ByteCodec
  import opened CacheFormat

  /** Longest single write between two looks at the cancel flag. */
  const WRITE_CHUNK: nat := 8 * 1024 * 1024

  /** File sizes are signed 64-bit numbers, and negative ones are refused. */
  const SIZE_LIMIT: nat := 0x8000_0000_0000_0000

  datatype WriteOp = SetLength(length: nat) | Write(at: nat, data: seq<Byte>)

  datatype Storage = Storage(durable: seq<Byte>, ops: seq<WriteOp>)

  function Resize(b: seq<Byte>, n: nat): (r: seq<Byte>)
    ensures |r| == n
    ensures forall p :: 0 <= p < n ==> r[p] == if p < |b| then b[p] else 0
  {
    if n <= |b| then b[..n] else b + seq(n - |b|, _ => 0)
  }

  function Apply(b: seq<Byte>, op: WriteOp): (r: seq<Byte>)
    ensures op.Write? ==>
              && |r| == (if |b| < op.at + |op.data| then op.at + |op.data| else |b|)
              && r[op.at..op.at + |op.data|] == op.data
              && forall p :: 0 <= p < |r| && !(op.at <= p < op.at + |op.data|) ==>
                   r[p] == if p < |b| then b[p] else 0
  {
    match op
    case SetLength(n) => Resize(b, n)
    case Write(at, data) =>
      var e := Resize(b, if |b| < at + |data| then at + |data| else |b|);
      e[..at] + data + e[at + |data|..]
  }

  function Replay(b: seq<Byte>, ops: seq<WriteOp>): seq<Byte> {
    if ops == [] then b else Apply(Replay(b, ops[..|ops| - 1]), ops[|ops| - 1])
  }

  predicate IsHeaderWrite(op: WriteOp) {
    op.Write? && op.at == 0 && |op.data| == HEADER_SIZE
  }

  /** `c` is what one operation on `b` may leave behind. */
  ghost predicate MayLeave(b: seq<Byte>, op: WriteOp, c: seq<Byte>) {
    || c == b
    || c == Apply(b, op)
    || (op.Write? && !IsHeaderWrite(op)
        && |b| <= |c| <= |Apply(b, op)|
        && forall p :: 0 <= p < |c| ==>
             || c[p] == (if p < |b| then b[p] else 0)
             || (op.at <= p < op.at + |op.data| && c[p] == op.data[p - op.at]))
  }

  /** `c` may be found on the disk after a crash in storage state `s`. */
  ghost predicate MayRemain(s: Storage, c: seq<Byte>)
    decreases |s.ops|
  {
    if s.ops == [] then c == s.durable
    else
      var m := |s.ops| - 1;
      exists mid :: MayRemain(Storage(s.durable, s.ops[..m]), mid) && MayLeave(mid, s.ops[m], c)
  }

  lemma {:induction false} ReplayMayRemain(s: Storage)
    ensures MayRemain(s, Replay(s.durable, s.ops))
    decreases |s.ops|
  {
    if s.ops != [] {
      var m := |s.ops| - 1;
      ReplayMayRemain(Storage(s.durable, s.ops[..m]));
    }
  }

  lemma RemainsOn(d: seq<Byte>, ops: seq<WriteOp>, b: seq<Byte>, op: WriteOp, c: seq<Byte>)
    requires MayRemain(Storage(d, ops), b) && MayLeave(b, op, c)
    ensures MayRemain(Storage(d, ops + [op]), c)
  {
    assert (ops + [op])[..|ops|] == ops;
  }

  /** A crash may lose any number of last operations. */
  lemma {:induction false} DropsRemain(d: seq<Byte>, ops: seq<WriteOp>, b: seq<Byte>, dropped: seq<WriteOp>)
    requires MayRemain(Storage(d, ops), b)
    ensures MayRemain(Storage(d, ops + dropped), b)
  {
    if dropped == [] {
      assert ops + dropped == ops;
    } else {
      var m := |dropped| - 1;
      DropsRemain(d, ops, b, dropped[..m]);
      RemainsOn(d, ops + dropped[..m], b, dropped[m], b);
      assert ops + dropped[..m] + [dropped[m]] == ops + dropped;
    }
  }

  // ------------------------------------ operations that spare the old entries

  /** A file of `count` entries with committed bytes up to `end`, whose header is
      `header`: the parts of it that a commit in progress must not disturb. */
  datatype Committed = Committed(header: seq<Byte>, count: nat, dataStart: nat, end: nat) {
    predicate Valid() {
      |header| == HEADER_SIZE && SlotOffset(count) <= dataStart <= end
    }

    /** The operation only touches free index slots or the tail, or rewrites the
        header with the bytes it already has. */
    predicate Spares(op: WriteOp) {
      match op
      case SetLength(n) => end <= n
      case Write(at, data) =>
        || end <= at
        || (SlotOffset(count) <= at && at + |data| <= dataStart)
        || (at == 0 && data == header)
    }

    ghost predicate Intact(b: seq<Byte>, c: seq<Byte>) {
      end <= |c| && Agree(b, c, 0, SlotOffset(count)) && Agree(b, c, dataStart, end)
    }
  }

  lemma RewriteIsIdle(b: seq<Byte>, data: seq<Byte>)
    requires |data| <= |b| && b[..|data|] == data
    ensures Apply(b, Write(0, data)) == b
  {
    assert Resize(b, |b|) == b;
    assert b == b[..|data|] + b[|data|..];
  }

  lemma SpareStep(k: Committed, b: seq<Byte>, op: WriteOp, c: seq<Byte>)
    requires k.Valid() && k.Spares(op) && MayLeave(b, op, c)
    requires k.end <= |b| && b[..HEADER_SIZE] == k.header
    ensures k.Intact(b, c) && c[..HEADER_SIZE] == k.header
  {
    if op == Write(0, k.header) {
      RewriteIsIdle(b, k.header);
    }
    assert k.Intact(b, c);
    AgreeSlice(b, c, 0, SlotOffset(k.count), 0, HEADER_SIZE);
  }

  /** Whatever a crash keeps of sparing operations, the committed part survives. */
  lemma {:induction false} SparedRemains(k: Committed, s: Storage, c: seq<Byte>)
    requires k.Valid() && k.end <= |s.durable| && s.durable[..HEADER_SIZE] == k.header
    requires forall op :: op in s.ops ==> k.Spares(op)
    requires MayRemain(s, c)
    ensures k.Intact(s.durable, c) && c[..HEADER_SIZE] == k.header
    decreases |s.ops|
  {
    if s.ops != [] {
      var m := |s.ops| - 1;
      var t := Storage(s.durable, s.ops[..m]);
      var mid :| MayRemain(t, mid) && MayLeave(mid, s.ops[m], c);
      SparedRemains(k, t, mid);
      SpareStep(k, mid, s.ops[m], c);
    }
  }

  // ------------------------------------ operations of the commit point itself

  /** The header switch and its undoing: new header, old header, old length. */
  predicate Switches(op: WriteOp, oldHeader: seq<Byte>, newHeader: seq<Byte>, end: nat) {
    || op == SetLength(end)
    || (op.Write? && op.at == 0 && (op.data == oldHeader || op.data == newHeader))
  }

  ghost predicate Switched(
    d: seq<Byte>, c: seq<Byte>, oldHeader: seq<Byte>, newHeader: seq<Byte>, end: nat)
  {
    && (|c| == |d| || |c| == end)
    && HEADER_SIZE <= |c| <= |d|
    && (c[..HEADER_SIZE] == oldHeader || c[..HEADER_SIZE] == newHeader)
    && Agree(d, c, HEADER_SIZE, |c|)
  }

  lemma SwitchStep(
    d: seq<Byte>, b: seq<Byte>, op: WriteOp, c: seq<Byte>,
    oldHeader: seq<Byte>, newHeader: seq<Byte>, end: nat)
    requires |oldHeader| == |newHeader| == HEADER_SIZE <= end <= |d|
    requires Switched(d, b, oldHeader, newHeader, end)
    requires Switches(op, oldHeader, newHeader, end) && MayLeave(b, op, c)
    ensures Switched(d, c, oldHeader, newHeader, end)
  {
    if c != b {
      if op.Write? {
        assert c == Apply(b, op) && c[0..0 + HEADER_SIZE] == op.data;
        assert c[..HEADER_SIZE] == c[0..0 + HEADER_SIZE];
      } else {
        assert c == b[..end] && c[..HEADER_SIZE] == b[..HEADER_SIZE];
      }
    }
  }

  /** A crash around the commit point leaves one of the two headers and one of
      the two lengths, and every other byte as it was. */
  lemma {:induction false} SwitchRemains(
    s: Storage, c: seq<Byte>, oldHeader: seq<Byte>, newHeader: seq<Byte>, end: nat)
    requires |oldHeader| == |newHeader| == HEADER_SIZE <= end <= |s.durable|
    requires s.durable[..HEADER_SIZE] == oldHeader || s.durable[..HEADER_SIZE] == newHeader
    requires forall op :: op in s.ops ==> Switches(op, oldHeader, newHeader, end)
    requires MayRemain(s, c)
    ensures Switched(s.durable, c, oldHeader, newHeader, end)
    decreases |s.ops|
  {
    if s.ops != [] {
      hide MayLeave, Switched, Switches;
      var m := |s.ops| - 1;
      var t := Storage(s.durable, s.ops[..m]);
      var mid :| MayRemain(t, mid) && MayLeave(mid, s.ops[m], c);
      SwitchRemains(t, mid, oldHeader, newHeader, end);
      SwitchStep(s.durable, mid, s.ops[m], c, oldHeader, newHeader, end);
    }
  }

  // ------------------------------------------------------------- the file

  class CacheFile {
    /** The file as every reader of the handle or a mapping sees it. */
    var bytes: seq<Byte>
    /** Nothing done to this file fails, and no load cancels its writer. */
    const reliable: bool
    ghost var disk: Storage
    /** Every storage state the file has been in, oldest first. */
    ghost var trail: seq<Storage>

    ghost predicate Valid()
      reads this
    {
      bytes == Replay(disk.durable, disk.ops) && trail != [] && trail[|trail| - 1] == disk
    }

    constructor (contents: seq<Byte>, reliable: bool)
      ensures this.reliable == reliable
      ensures Valid() && bytes == contents && disk == Storage(contents, []) && trail == [disk]
    {
      this.reliable, bytes, disk, trail := reliable, contents, Storage(contents, []), [Storage(contents, [])];
    }

    ghost method Issue(op: WriteOp)
      requires bytes == Apply(Replay(disk.durable, disk.ops), op)
      modifies this`disk, this`trail
      ensures Valid()
      ensures disk == Storage(old(disk).durable, old(disk).ops + [op])
      ensures trail == old(trail) + [disk]
    {
      disk := Storage(disk.durable, disk.ops + [op]);
      assert disk.ops[..|disk.ops| - 1] == old(disk).ops;
      trail := trail + [disk];
    }

    method Truncate(n: nat) returns (ok: bool)
      requires Valid()
      modifies this
      ensures Valid()
      ensures ok ==> bytes == Resize(old(bytes), n)
                     && disk == Storage(old(disk).durable, old(disk).ops + [SetLength(n)])
                     && trail == old(trail) + [disk]
      ensures !ok ==> bytes == old(bytes) && disk == old(disk) && trail == old(trail)
      ensures reliable ==> ok
    {
      var fails: bool := *;
      if fails && !reliable {
        return false;
      }
      bytes := Resize(bytes, n);
      Issue(SetLength(n));
      return true;
    }

    /** One `WriteFile` call. A failed call may have written a part of the
        chunk, except for the header, which goes out whole or not at all. */
    method WriteChunk(at: nat, data: seq<Byte>) returns (ok: bool, ghost written: nat)
      requires Valid() && data != []
      modifies this
      ensures Valid() && written <= |data|
      ensures ok ==> written == |data|
      ensures IsHeaderWrite(Write(at, data)) ==> written == 0 || written == |data|
      ensures written == 0 ==> !ok && bytes == old(bytes) && disk == old(disk) && trail == old(trail)
      ensures written > 0 ==>
                && bytes == Apply(old(bytes), Write(at, data[..written]))
                && disk == Storage(old(disk).durable, old(disk).ops + [Write(at, data[..written])])
                && trail == old(trail) + [disk]
      ensures reliable ==> ok
    {
      var fails, late: bool := *, *;
      if fails && !reliable {
        return false, 0;
      }
      var n := |data|;
      if !reliable && !(at == 0 && |data| == HEADER_SIZE) {
        n :| 0 < n <= |data|;
      }
      bytes := Apply(bytes, Write(at, data[..n]));
      Issue(Write(at, data[..n]));
      ok := n == |data| && (reliable || !late);
      written := n;
    }

    /** `FlushFileBuffers`. */
    method Flush() returns (ok: bool)
      requires Valid()
      modifies this`disk, this`trail
      ensures Valid()
      ensures ok ==> disk == Storage(bytes, []) && trail == old(trail) + [disk]
      ensures !ok ==> disk == old(disk) && trail == old(trail)
      ensures reliable ==> ok
    {
      var fails: bool := *;
      if fails && !reliable {
        return false;
      }
      disk := Storage(bytes, []);
      trail := trail + [disk];
      return true;
    }

    /** Atomic rename of a finished temporary file over this one. */
    method ReplaceBy(temp: CacheFile) returns (ok: bool)
      requires Valid() && temp.Valid() && temp != this
      modifies this
      ensures Valid()
      ensures ok ==> bytes == temp.bytes && disk == temp.disk && trail == old(trail) + [disk]
      ensures !ok ==> bytes == old(bytes) && disk == old(disk) && trail == old(trail)
      ensures reliable ==> ok
    {
      var fails: bool := *;
      if fails && !reliable {
        return false;
      }
      bytes, disk, trail := temp.bytes, temp.disk, trail + [temp.disk];
      return true;
    }
  }
}
