/** How bytes are admitted, charged, written, committed and reconciled under the
    hard cap (Skyrim/src/DecompCache.cpp: RecordDecompressed, FlushToDisk,
    ReconcileDiskAccounting, EnforceSizeLimit).

    Each action below is one critical section of the source. Recorders hold
    `m_cacheMtx` shared and one archive's `pendingMtx`; snapshots, commits,
    retirement and eviction hold `m_cacheMtx` exclusively; one flush runs at a
    time. Everything else may interleave. */
module Admission {
  import opened Basics
  import opened Sums
  import F = CacheFormat

  const MAX_PENDING: nat := 256 * 1024 * 1024

  /** A learned payload. `written` records that its bytes went into the archive's
      file; until the file is mapped, the entry is still buffered. */
  datatype Entry = Entry(off: nat, size: nat, charge: nat, written: bool)

  datatype Archive = Archive(
    entryCount: nat,
    /** Committed bytes of the cache file, if there is one. */
    file: Option<nat>,
    view: bool,
    invalid: bool,
    queue: seq<Entry>,
    flight: seq<Entry>,
    /** The flight replaces the file instead of appending to it. */
    reset: bool,
    /** The flight's file write succeeded. */
    wrote: bool,
    /** Reserved by a recorder that has not queued its entry yet. */
    held: Option<Entry>,
    buffered: set<nat>)
  {
    function Overhead(): nat { F.HEADER_SIZE + F.ENTRY_SIZE * entryCount }
  }

  datatype State = State(
    cap: nat, archives: seq<Archive>,
    pendingBytes: int, committedReservations: int, totalCacheBytes: nat)

  // ---------------------------------------------------------------- measures

  function ChargeOf(e: Entry): nat { e.charge }
  function SizeOf(e: Entry): nat { e.size }
  function WrittenSize(e: Entry): nat { if e.written then e.size else 0 }
  function OpenCharge(e: Entry): nat { if e.written then 0 else e.charge }

  function FileBytes(a: Archive): nat { if a.file.Some? then a.file.value else 0 }

  function HeldCharge(a: Archive): nat { if a.held.Some? then a.held.value.charge else 0 }

  /** All bytes charged to entries of this archive that are not committed. */
  function Charged(a: Archive): nat {
    SumOver(a.queue, ChargeOf) + SumOver(a.flight, ChargeOf) + HeldCharge(a)
  }

  /** Charges of entries whose bytes are in no file yet. */
  function Uncommitted(a: Archive): nat {
    SumOver(a.queue, OpenCharge) + SumOver(a.flight, OpenCharge) + HeldCharge(a)
  }

  function DiskBytes(s: State): nat { SumOver(s.archives, FileBytes) }
  function ChargedBytes(s: State): nat { SumOver(s.archives, Charged) }
  function UncommittedBytes(s: State): nat { SumOver(s.archives, Uncommitted) }

  // --------------------------------------------------------------- invariants

  function Offsets(es: seq<Entry>): set<nat> { set i | 0 <= i < |es| :: es[i].off }

  ghost predicate DistinctOffsets(es: seq<Entry>) {
    forall i, j :: 0 <= i < j < |es| ==> es[i].off != es[j].off
  }

  predicate GoodEntry(e: Entry) { 0 < e.size <= F.MAX_PAYLOAD && e.size <= e.charge }

  ghost predicate AllGood(es: seq<Entry>) { forall i :: 0 <= i < |es| ==> GoodEntry(es[i]) }

  ghost predicate Unwritten(es: seq<Entry>) { forall i :: 0 <= i < |es| ==> !es[i].written }

  /** Carries the one-time reservation for the header and index of a generation to come. */
  predicate Carries(e: Entry, overhead: nat) { e.size + overhead <= e.charge }

  ghost predicate Paid(es: seq<Entry>, overhead: nat) {
    exists i :: 0 <= i < |es| && Carries(es[i], overhead)
  }

  /** Every buffered payload is of legal size and charged at least its size. */
  ghost predicate GoodPayloads(a: Archive) {
    && AllGood(a.queue) && AllGood(a.flight)
    && (a.held.Some? ==> GoodEntry(a.held.value) && !a.held.value.written)
  }

  /** `bufferedOffsets` is the disjoint union of queued and in-flight offsets, each
      buffered once. */
  ghost predicate GoodOffsets(a: Archive) {
    && DistinctOffsets(a.queue) && DistinctOffsets(a.flight)
    && Offsets(a.queue) !! Offsets(a.flight)
    && a.buffered == Offsets(a.queue) + Offsets(a.flight)
    && (a.held.Some? ==> a.held.value.off !in a.buffered)
  }

  /** What the buffered entries are charged beyond their payloads. */
  function Surplus(a: Archive): nat {
    SumOver(a.queue, Excess) + SumOver(a.flight, Excess)
    + if a.held.Some? then Excess(a.held.value) else 0
  }

  /** A file holds its header, its index and every written payload; without a file
      nothing is written. */
  ghost predicate GoodFile(a: Archive) {
    && (a.view ==> a.file.Some?)
    && (a.invalid ==> a.view)
    && (a.flight != [] ==> Unwritten(a.queue))
    && (a.file.Some? ==>
          a.Overhead() + SumOver(a.queue, WrittenSize) + SumOver(a.flight, WrittenSize)
            <= a.file.value)
    && (a.file.None? ==> Unwritten(a.queue) && Unwritten(a.flight))
  }

  /** Without a mapped file one buffered entry pays for the header and index of the next
      one, in the flight if there is one, and nothing is charged beyond that. */
  ghost predicate PaysAhead(a: Archive) {
    && (!a.view ==>
          && Surplus(a) <= a.Overhead()
          && (a.flight != [] ==> Paid(a.flight, a.Overhead()))
          && (a.flight == [] && a.queue != [] ==> Paid(a.queue, a.Overhead()))
          && (a.buffered == {} && a.held.Some? ==> Carries(a.held.value, a.Overhead())))
  }

  /** What every critical section keeps of one archive. */
  ghost predicate GoodArchive(a: Archive) { GoodPayloads(a) && GoodOffsets(a) && GoodFile(a) && PaysAhead(a) }

  /** `m_pendingBytes` is exactly what is queued, in flight, held by recorders, or
      committed and not yet reconciled. */
  ghost predicate Conserved(s: State) {
    s.pendingBytes == ChargedBytes(s) + s.committedReservations && s.committedReservations >= 0
  }

  ghost predicate WithinCap(s: State) {
    DiskBytes(s) + UncommittedBytes(s) <= s.cap
  }

  /** The most bytes one record could be admitted for, if `pending` were pending. */
  function FreeAt(s: State, pending: int): nat {
    if s.totalCacheBytes < s.cap && pending < Min(MAX_PENDING, s.cap - s.totalCacheBytes)
    then Min(MAX_PENDING, s.cap - s.totalCacheBytes) - pending
    else 0
  }

  function Free(s: State): nat { FreeAt(s, s.pendingBytes) }

  /** What every critical section keeps of the whole cache. */
  ghost predicate Sound(s: State) {
    && (forall i :: 0 <= i < |s.archives| ==> GoodArchive(s.archives[i]))
    && Conserved(s)
  }

  /** What is on disk, what is charged for it, and what may still be admitted fit the cap. */
  ghost predicate SafeBooks(s: State) {
    Sound(s) && DiskBytes(s) + UncommittedBytes(s) + Free(s) <= s.cap
  }

  // ------------------------------------------------------------------ actions

  datatype Action =
    /** `RecordDecompressed` up to the reservation. */
    | Reserve(i: nat, off: nat, size: nat, sawInvalid: bool)
    /** The reserved entry is queued. */
    | Enqueue(i: nat)
    /** Queuing failed; the reservation is returned. */
    | Abandon(i: nat)
    /** The flush takes the queue; `stale` is a pending replacement or another path. */
    | Snapshot(i: nat, stale: bool)
    /** The flush appended the flight, except offsets found in the file. */
    | Append(i: nat, found: set<nat>)
    /** The flush replaced the file by the flight. */
    | Replace(i: nat)
    /** The written file was mapped. */
    | Commit(i: nat)
    /** The flush failed; the flight goes back to the queue. */
    | Requeue(i: nat)
    /** The flush failed and the queue cannot grow; the flight is given up. */
    | Drop(i: nat)
    /** Checksum or mapped-I/O failure. */
    | Invalidate(i: nat)
    /** An invalid, idle generation is deleted. */
    | Retire(i: nat)
    /** A usable, idle generation is deleted. */
    | Evict(i: nat)
    /** A file no archive has mapped is deleted, between two flushes. */
    | Remove(i: nat)
    /** A complete directory scan; `strays` are bytes of files no archive owns and
        of uncommitted file tails. */
    | Reconcile(strays: nat)

  /** The one-time charge for a header and index that the archive lacks. */
  function FixedOverhead(a: Archive, sawInvalid: bool): nat {
    if (!a.view || sawInvalid) && a.buffered == {} then a.Overhead() else 0
  }

  function AdmissionBytes(a: Archive, size: nat, sawInvalid: bool): nat {
    size + FixedOverhead(a, sawInvalid)
  }

  /** The admission test of `RecordDecompressed`. */
  predicate Admits(s: State, bytes: nat) {
    && s.pendingBytes <= MAX_PENDING && bytes <= MAX_PENDING - s.pendingBytes
    && s.cap != 0 && s.totalCacheBytes < s.cap
    && s.pendingBytes <= s.cap - s.totalCacheBytes
    && bytes <= s.cap - s.totalCacheBytes - s.pendingBytes
  }

  function MarkWritten(es: seq<Entry>, found: set<nat>): seq<Entry> {
    seq(|es|, i requires 0 <= i < |es| =>
      if es[i].off in found then es[i] else es[i].(written := true))
  }

  /** Nothing of the entries is on disk any more. */
  function Unmark(es: seq<Entry>): seq<Entry> {
    seq(|es|, i requires 0 <= i < |es| => es[i].(written := false))
  }

  function AppendedSize(e: Entry, found: set<nat>): nat {
    if e.written || e.off in found then 0 else e.size
  }

  function AppendedSizes(es: seq<Entry>, found: set<nat>): nat {
    SumOver(es, e => AppendedSize(e, found))
  }

  /** What a dropped flight paid beyond its payloads. */
  function Excess(e: Entry): nat { if e.size < e.charge then e.charge - e.size else 0 }

  /** A dropped flight hands its header and index reservation to a queued survivor. */
  function Transferred(a: Archive): (t: nat)
    ensures a.queue == [] ==> t == 0
  {
    if (!a.view || a.invalid) && a.queue != [] then SumOver(a.flight, Excess) else 0
  }

  predicate Enabled(s: State, act: Action) {
    act.Reconcile? ||
    (act.i < |s.archives| && EnabledOn(s.archives[act.i], act) &&
     (act.Reserve? ==> Admits(s, AdmissionBytes(s.archives[act.i], act.size, act.sawInvalid))))
  }

  predicate EnabledOn(a: Archive, act: Action)
    requires !act.Reconcile?
  {
    match act
      case Reserve(i, off, size, sawInvalid) =>
        && a.held.None? && 0 < size <= F.MAX_PAYLOAD && off !in a.buffered
        && (sawInvalid ==> a.invalid)
      case Enqueue(_) => a.held.Some?
      case Abandon(_) => a.held.Some?
      case Snapshot(_, _) => a.held.None? && a.flight == [] && a.queue != []
      case Append(_, found) =>
        a.flight != [] && a.file.Some? && !a.reset
        && forall e <- a.flight :: e.off in found ==> !e.written
      case Replace(_) => a.flight != []
      case Commit(_) =>
        a.held.None? && a.flight != [] && a.wrote && a.file.Some? && (a.invalid ==> a.reset)
      case Requeue(_) => a.held.None? && a.flight != []
      case Drop(_) => a.held.None? && a.flight != []
      case Invalidate(_) => a.view
      case Retire(_) => a.held.None? && a.invalid && a.queue == [] && a.buffered == {}
      case Evict(_) => a.held.None? && a.view && a.buffered == {}
      case Remove(_) => !a.view && a.file.Some? && a.flight == []
  }

  function StepArchive(a: Archive, act: Action): Archive
    requires !act.Reconcile?
    requires act.Enqueue? || act.Abandon? ==> a.held.Some?
  {
    match act
    case Reserve(_, off, size, sawInvalid) =>
      a.(held := Some(Entry(off, size, AdmissionBytes(a, size, sawInvalid), false)))
    case Enqueue(_) =>
      a.(held := None, queue := a.queue + [a.held.value],
         buffered := a.buffered + {a.held.value.off})
    case Abandon(_) => a.(held := None)
    case Snapshot(_, stale) =>
      a.(queue := [], flight := a.queue, reset := a.invalid || stale || !a.view, wrote := false)
    case Append(_, found) =>
      a.(flight := MarkWritten(a.flight, found),
         file := Some(FileBytes(a) + AppendedSizes(a.flight, found)), wrote := true)
    case Replace(_) =>
      a.(flight := MarkWritten(a.flight, {}),
         file := Some(a.Overhead() + SumOver(a.flight, SizeOf)), wrote := true)
    case Commit(_) =>
      a.(flight := [], buffered := a.buffered - Offsets(a.flight), view := true, invalid := false)
    case Requeue(_) => a.(flight := [], queue := a.queue + a.flight)
    case Drop(_) =>
      a.(flight := [], buffered := a.buffered - Offsets(a.flight),
         queue := if Transferred(a) == 0 then a.queue
                  else a.queue[0 := a.queue[0].(charge := a.queue[0].charge + Transferred(a))])
    case Invalidate(_) => a.(invalid := true)
    case Retire(_) => a.(file := None, view := false, invalid := false)
    case Evict(_) => a.(file := None, view := false, invalid := false)
    case Remove(_) => a.(file := None, queue := Unmark(a.queue))
  }

  /** What the action adds to `m_pendingBytes`. */
  function PendingDelta(a: Archive, act: Action): int
    requires act.Abandon? ==> a.held.Some?
  {
    match act
    case Reserve(_, _, size, sawInvalid) => AdmissionBytes(a, size, sawInvalid) as int
    case Abandon(_) => -(a.held.value.charge as int)
    case Drop(_) => Transferred(a) as int - SumOver(a.flight, ChargeOf)
    case _ => 0
  }

  /** What the action adds to `m_committedReservations`. */
  function CommittedDelta(a: Archive, act: Action): nat {
    match act
    case Commit(_) => SumOver(a.flight, ChargeOf)
    case _ => 0
  }

  function Step(s: State, act: Action): State
    requires Enabled(s, act)
  {
    if act.Reconcile? then
      s.(totalCacheBytes := DiskBytes(s) + act.strays,
         pendingBytes := s.pendingBytes - s.committedReservations, committedReservations := 0)
    else
      var a := s.archives[act.i];
      s.(archives := s.archives[act.i := StepArchive(a, act)],
         pendingBytes := s.pendingBytes + PendingDelta(a, act),
         committedReservations := s.committedReservations + CommittedDelta(a, act))
  }

  // --------------------------------------------- one archive: what bytes move

  lemma {:induction false} MarkMeasures(es: seq<Entry>, found: set<nat>)
    requires AllGood(es)
    requires forall e <- es :: e.off in found ==> !e.written
    ensures SumOver(MarkWritten(es, found), ChargeOf) == SumOver(es, ChargeOf)
    ensures SumOver(MarkWritten(es, found), WrittenSize)
            == SumOver(es, WrittenSize) + AppendedSizes(es, found)
    ensures SumOver(MarkWritten(es, found), OpenCharge) + AppendedSizes(es, found)
            <= SumOver(es, OpenCharge)
    ensures SumOver(MarkWritten(es, found), Excess) == SumOver(es, Excess)
  {
    if es != [] {
      var m := |es| - 1;
      assert MarkWritten(es, found)[..m] == MarkWritten(es[..m], found);
      assert forall e <- es[..m] :: e in es;
      MarkMeasures(es[..m], found);
      assert es[m] in es;
    }
  }

  lemma {:induction false} MarkAll(es: seq<Entry>)
    requires AllGood(es)
    ensures SumOver(MarkWritten(es, {}), WrittenSize) == SumOver(es, SizeOf)
    ensures SumOver(MarkWritten(es, {}), OpenCharge) == 0
    ensures SumOver(es, SizeOf) <= SumOver(es, WrittenSize) + SumOver(es, OpenCharge)
  {
    if es != [] {
      var m := |es| - 1;
      assert MarkWritten(es, {})[..m] == MarkWritten(es[..m], {});
      MarkAll(es[..m]);
    }
  }

  /** An unwritten carrier pays for the header and index on top of the payloads. */
  lemma {:induction false} CarrierPays(es: seq<Entry>, i: nat, overhead: nat)
    requires AllGood(es) && i < |es| && Carries(es[i], overhead) && !es[i].written
    ensures SumOver(es, SizeOf) + overhead <= SumOver(es, WrittenSize) + SumOver(es, OpenCharge)
  {
    var m := |es| - 1;
    if i < m {
      CarrierPays(es[..m], i, overhead);
    } else {
      MarkAll(es[..m]);
    }
  }

  /** Deleting a file releases its bytes for the charges of what was written into it. */
  lemma {:induction false} UnmarkMeasures(es: seq<Entry>)
    ensures SumOver(Unmark(es), ChargeOf) == SumOver(es, ChargeOf)
    ensures SumOver(Unmark(es), OpenCharge) == SumOver(es, ChargeOf)
    ensures SumOver(Unmark(es), Excess) == SumOver(es, Excess)
    ensures SumOver(Unmark(es), OpenCharge)
            <= SumOver(es, OpenCharge) + SumOver(es, WrittenSize) + SumOver(es, Excess)
  {
    if es != [] {
      var m := |es| - 1;
      assert Unmark(es)[..m] == Unmark(es[..m]);
      UnmarkMeasures(es[..m]);
    }
  }

  lemma {:induction false} SumsOfUnwritten(es: seq<Entry>)
    requires Unwritten(es)
    ensures SumOver(es, WrittenSize) == 0
    ensures SumOver(es, OpenCharge) == SumOver(es, ChargeOf)
  {
    if es != [] {
      SumsOfUnwritten(es[..|es| - 1]);
    }
  }

  // ------------------------------------------------ one archive: invariants

  lemma OffsetsConcat(xs: seq<Entry>, ys: seq<Entry>)
    requires DistinctOffsets(xs) && DistinctOffsets(ys) && Offsets(xs) !! Offsets(ys)
    ensures Offsets(xs + ys) == Offsets(xs) + Offsets(ys)
    ensures DistinctOffsets(xs + ys)
  {
    var zs := xs + ys;
    forall off | off in Offsets(xs) + Offsets(ys) ensures off in Offsets(zs) {
      if off in Offsets(xs) {
        var i :| 0 <= i < |xs| && xs[i].off == off;
        assert zs[i].off == off;
      } else {
        var i :| 0 <= i < |ys| && ys[i].off == off;
        assert zs[|xs| + i].off == off;
      }
    }
    forall i, j | 0 <= i < j < |zs| ensures zs[i].off != zs[j].off {
      if i < |xs| <= j {
        assert xs[i].off in Offsets(xs) && ys[j - |xs|].off in Offsets(ys);
      }
    }
  }

  lemma MarkOffsets(es: seq<Entry>, found: set<nat>)
    requires DistinctOffsets(es)
    ensures Offsets(MarkWritten(es, found)) == Offsets(es)
    ensures DistinctOffsets(MarkWritten(es, found))
  {
    SameOffsets(es, MarkWritten(es, found));
  }

  lemma SameOffsets(xs: seq<Entry>, ys: seq<Entry>)
    requires DistinctOffsets(xs)
    requires |xs| == |ys| && forall i :: 0 <= i < |xs| ==> ys[i].off == xs[i].off
    ensures Offsets(ys) == Offsets(xs)
    ensures DistinctOffsets(ys)
  {
    forall i, j | 0 <= i < j < |ys| ensures ys[i].off != ys[j].off {
      assert xs[i].off != xs[j].off;
    }
    forall i | 0 <= i < |xs| ensures xs[i].off in Offsets(ys) && ys[i].off in Offsets(xs) {
      assert ys[i].off == xs[i].off;
    }
  }

  lemma EmptyBuffer(a: Archive)
    requires GoodOffsets(a)
    ensures a.buffered == {} <==> a.queue == [] && a.flight == []
  {
    assert a.queue != [] ==> a.queue[0].off in Offsets(a.queue);
    assert a.flight != [] ==> a.flight[0].off in Offsets(a.flight);
  }

  lemma EnqueueKeepsArchive(a: Archive, act: Action)
    requires GoodArchive(a) && act.Enqueue? && EnabledOn(a, act)
    ensures GoodArchive(StepArchive(a, act))
  {
    var b := StepArchive(a, act);
    var e := a.held.value;
    assert GoodOffsets(b) by {
      assert [e][0] == e;
      assert Offsets([e]) == {e.off};
      OffsetsConcat(a.queue, [e]);
    }
    assert GoodFile(b) by {
      hide DistinctOffsets, PaysAhead;
      SumConcat(a.queue, [e], WrittenSize);
      SumSingle(e, WrittenSize);
    }
    assert PaysAhead(b) by {
      hide DistinctOffsets, GoodFile, GoodPayloads;
      SumConcat(a.queue, [e], Excess);
      SumSingle(e, Excess);
      EmptyBuffer(a);
      if !a.view && a.flight == [] {
        if a.queue != [] {
          var i :| 0 <= i < |a.queue| && Carries(a.queue[i], a.Overhead());
          assert b.queue[i] == a.queue[i];
        } else {
          assert b.queue[0] == e;
        }
      }
    }
  }

  lemma WritePaysAhead(a: Archive, act: Action, found: set<nat>)
    requires GoodArchive(a) && (act.Append? || act.Replace?) && EnabledOn(a, act)
    requires found == if act.Append? then act.found else {}
    ensures PaysAhead(StepArchive(a, act))
  {
    MarkMeasures(a.flight, found);
    hide GoodOffsets, GoodPayloads, GoodFile, Offsets;
    var b := StepArchive(a, act);
    if !a.view {
      var i :| 0 <= i < |a.flight| && Carries(a.flight[i], a.Overhead());
      assert Carries(b.flight[i], b.Overhead());
    }
  }

  lemma WriteKeepsArchive(a: Archive, act: Action)
    requires GoodArchive(a) && (act.Append? || act.Replace?) && EnabledOn(a, act)
    ensures GoodArchive(StepArchive(a, act))
  {
    var found := if act.Append? then act.found else {};
    var b := StepArchive(a, act);
    assert GoodOffsets(b) by { MarkOffsets(a.flight, found); }
    assert GoodPayloads(b);
    assert GoodFile(b) by {
      hide DistinctOffsets, Offsets, PaysAhead;
      MarkMeasures(a.flight, found);
      MarkAll(a.flight);
      SumsOfUnwritten(a.queue);
    }
    WritePaysAhead(a, act, found);
  }

  lemma SnapshotKeepsArchive(a: Archive, act: Action)
    requires GoodArchive(a) && act.Snapshot? && EnabledOn(a, act)
    ensures GoodArchive(StepArchive(a, act))
  {
  }

  lemma ListsConcat(xs: seq<Entry>, ys: seq<Entry>, overhead: nat)
    ensures AllGood([]) && Unwritten([]) && DistinctOffsets([]) && Offsets([]) == {}
    ensures AllGood(xs) && AllGood(ys) ==> AllGood(xs + ys)
    ensures Unwritten(xs) && Unwritten(ys) ==> Unwritten(xs + ys)
    ensures Paid(ys, overhead) ==> Paid(xs + ys, overhead)
  {
    hide GoodEntry, Carries;
    if Paid(ys, overhead) {
      var i :| 0 <= i < |ys| && Carries(ys[i], overhead);
      assert (xs + ys)[|xs| + i] == ys[i];
    }
  }

  lemma RequeuePaysAhead(a: Archive, act: Action)
    requires GoodArchive(a) && act.Requeue? && EnabledOn(a, act)
    ensures PaysAhead(StepArchive(a, act))
  {
    hide GoodPayloads, GoodFile, GoodOffsets, DistinctOffsets, Offsets, Carries;
    ListsConcat(a.queue, a.flight, a.Overhead());
    SumConcat(a.queue, a.flight, Excess);
    hide Paid;
  }

  lemma RequeueKeepsArchive(a: Archive, act: Action)
    requires GoodArchive(a) && act.Requeue? && EnabledOn(a, act)
    ensures GoodArchive(StepArchive(a, act))
  {
    RequeuePaysAhead(a, act);
    ListsConcat(a.queue, a.flight, a.Overhead());
    var b := StepArchive(a, act);
    assert GoodOffsets(b) by {
      OffsetsConcat(a.queue, a.flight);
      hide DistinctOffsets, Offsets, PaysAhead, GoodFile, GoodPayloads;
    }
    assert GoodPayloads(b) by { hide AllGood, GoodOffsets, GoodFile, PaysAhead; }
    assert GoodFile(b) by {
      hide GoodPayloads, GoodOffsets, PaysAhead, Unwritten;
      SumConcat(a.queue, a.flight, WrittenSize);
    }
  }

  lemma CommitKeepsArchive(a: Archive, act: Action)
    requires GoodArchive(a) && act.Commit? && EnabledOn(a, act)
    ensures GoodArchive(StepArchive(a, act))
  {
    var b := StepArchive(a, act);
    assert b.buffered == Offsets(b.queue);
  }

  /** Giving up a flight hands on at least the header and index reservation. */
  lemma TransferPays(a: Archive)
    requires GoodArchive(a) && !a.view && a.flight != [] && a.queue != []
    ensures a.Overhead() <= Transferred(a)
  {
    var i :| 0 <= i < |a.flight| && Carries(a.flight[i], a.Overhead());
    SumPart(a.flight, i, Excess);
  }

  lemma DropPaysAhead(a: Archive, act: Action)
    requires GoodArchive(a) && act.Drop? && EnabledOn(a, act)
    ensures PaysAhead(StepArchive(a, act))
  {
    var b := StepArchive(a, act);
    if !a.view && a.queue != [] {
      TransferPays(a);
      assert !a.queue[0].written && GoodEntry(a.queue[0]);
      RaiseFirst(a.queue, Transferred(a));
      hide GoodOffsets, GoodFile, GoodPayloads, Offsets;
      assert Carries(b.queue[0], b.Overhead());
    } else if !a.view {
      assert b.buffered == {} && b.held.None?;
    }
  }

  lemma DropKeepsArchive(a: Archive, act: Action)
    requires GoodArchive(a) && act.Drop? && EnabledOn(a, act)
    ensures GoodArchive(StepArchive(a, act))
  {
    var b := StepArchive(a, act);
    assert GoodOffsets(b) by {
      SameOffsets(a.queue, b.queue);
      assert b.buffered == Offsets(b.queue);
    }
    assert GoodPayloads(b);
    assert GoodFile(b) by {
      hide GoodOffsets, DistinctOffsets, Offsets, PaysAhead, Transferred;
      SumsOfUnwritten(a.queue);
      SumsOfUnwritten(b.queue);
    }
    DropPaysAhead(a, act);
  }

  lemma RemovePaysAhead(a: Archive, act: Action)
    requires GoodArchive(a) && act.Remove? && EnabledOn(a, act)
    ensures PaysAhead(StepArchive(a, act))
  {
    hide GoodOffsets, GoodFile, GoodPayloads, Offsets;
    var b := StepArchive(a, act);
    UnmarkMeasures(a.queue);
    if a.queue != [] {
      var i :| 0 <= i < |a.queue| && Carries(a.queue[i], a.Overhead());
      assert Carries(b.queue[i], b.Overhead());
    }
  }

  lemma RemoveKeepsArchive(a: Archive, act: Action)
    requires GoodArchive(a) && act.Remove? && EnabledOn(a, act)
    ensures GoodArchive(StepArchive(a, act))
  {
    var b := StepArchive(a, act);
    assert GoodOffsets(b) by { SameOffsets(a.queue, b.queue); }
    assert GoodPayloads(b) && GoodFile(b) by { hide GoodOffsets, PaysAhead; }
    RemovePaysAhead(a, act);
  }

  lemma OtherKeepsArchive(a: Archive, act: Action)
    requires act.Reserve? || act.Abandon? || act.Invalidate? || act.Retire? || act.Evict?
    requires GoodArchive(a) && EnabledOn(a, act)
    ensures GoodArchive(StepArchive(a, act))
  {
    EmptyBuffer(a);
  }

  lemma StepKeepsArchive(a: Archive, act: Action)
    requires GoodArchive(a) && !act.Reconcile? && EnabledOn(a, act)
    ensures GoodArchive(StepArchive(a, act))
  {
    hide GoodArchive, StepArchive;
    match act {
      case Enqueue(_) => EnqueueKeepsArchive(a, act);
      case Snapshot(_, _) => SnapshotKeepsArchive(a, act);
      case Append(_, _) => WriteKeepsArchive(a, act);
      case Replace(_) => WriteKeepsArchive(a, act);
      case Commit(_) => CommitKeepsArchive(a, act);
      case Requeue(_) => RequeueKeepsArchive(a, act);
      case Drop(_) => DropKeepsArchive(a, act);
      case Remove(_) => RemoveKeepsArchive(a, act);
      case _ => OtherKeepsArchive(a, act);
    }
  }

  // -------------------------------------------------- one archive: accounting

  function WrittenCharge(e: Entry): nat { if e.written then e.charge else 0 }

  /** Charges released although their bytes are on disk. */
  function Forgotten(a: Archive, act: Action): nat {
    if act.Drop? then SumOver(a.flight, WrittenCharge) else 0
  }

  lemma {:induction false} ChargesSplit(es: seq<Entry>)
    ensures SumOver(es, ChargeOf) == SumOver(es, OpenCharge) + SumOver(es, WrittenCharge)
  {
    if es != [] {
      ChargesSplit(es[..|es| - 1]);
    }
  }

  /** A write never makes the disk grow by more than it releases in charges. */
  lemma WriteIsPaidFor(a: Archive, act: Action)
    requires GoodArchive(a) && (act.Append? || act.Replace?) && EnabledOn(a, act)
    ensures FileBytes(StepArchive(a, act)) + Uncommitted(StepArchive(a, act))
            <= FileBytes(a) + Uncommitted(a)
    ensures Charged(StepArchive(a, act)) == Charged(a)
  {
    hide GoodOffsets;
    if act.Append? {
      MarkMeasures(a.flight, act.found);
    } else {
      MarkMeasures(a.flight, {});
      MarkAll(a.flight);
      SumsOfUnwritten(a.queue);
      if a.file.None? {
        var i :| 0 <= i < |a.flight| && Carries(a.flight[i], a.Overhead());
        CarrierPays(a.flight, i, a.Overhead());
        SumsOfUnwritten(a.flight);
      }
    }
  }

  lemma MoveIsBooked(a: Archive, act: Action)
    requires act.Enqueue? || act.Requeue?
    requires GoodArchive(a) && EnabledOn(a, act)
    ensures FileBytes(StepArchive(a, act)) + Uncommitted(StepArchive(a, act))
            == FileBytes(a) + Uncommitted(a)
    ensures Charged(StepArchive(a, act)) == Charged(a)
  {
    hide GoodOffsets, GoodFile, Offsets;
    var es := if act.Enqueue? then [a.held.value] else a.flight;
    SumConcat(a.queue, es, ChargeOf);
    SumConcat(a.queue, es, OpenCharge);
    if act.Enqueue? {
      SumSingle(a.held.value, ChargeOf);
      SumSingle(a.held.value, OpenCharge);
    }
  }

  lemma RaiseFirst(es: seq<Entry>, more: nat)
    requires es != [] && !es[0].written && es[0].size <= es[0].charge
    ensures var raised := es[0 := es[0].(charge := es[0].charge + more)];
            && SumOver(raised, ChargeOf) == SumOver(es, ChargeOf) + more
            && SumOver(raised, OpenCharge) == SumOver(es, OpenCharge) + more
            && SumOver(raised, Excess) == SumOver(es, Excess) + more
  {
    hide SumOver;
    var e := es[0].(charge := es[0].charge + more);
    SumUpdate(es, 0, e, ChargeOf);
    SumUpdate(es, 0, e, OpenCharge);
    SumUpdate(es, 0, e, Excess);
  }

  /** The file goes, and what was written into it counts as charged again. */
  lemma RemoveIsBooked(a: Archive, act: Action)
    requires act.Remove? && GoodArchive(a) && EnabledOn(a, act)
    ensures Charged(StepArchive(a, act)) == Charged(a)
    ensures FileBytes(StepArchive(a, act)) + Uncommitted(StepArchive(a, act))
            <= FileBytes(a) + Uncommitted(a)
  {
    hide GoodOffsets, GoodPayloads, Offsets;
    UnmarkMeasures(a.queue);
  }

  lemma DropIsBooked(a: Archive, act: Action)
    requires act.Drop? && GoodArchive(a) && EnabledOn(a, act)
    ensures Charged(StepArchive(a, act)) == Charged(a) + PendingDelta(a, act)
    ensures FileBytes(StepArchive(a, act)) + Uncommitted(StepArchive(a, act))
            == FileBytes(a) + Uncommitted(a) + PendingDelta(a, act) + Forgotten(a, act)
  {
    ChargesSplit(a.flight);
    if Transferred(a) > 0 {
      assert !a.queue[0].written;
      RaiseFirst(a.queue, Transferred(a));
    }
    hide GoodArchive, Transferred, Offsets, SumOver;
  }

  /** Every action books exactly what it moves: charges change as `m_pendingBytes` and
      `m_committedReservations` say, and the disk never outgrows the released charges
      except by what a dropped flight had already written. */
  lemma StepIsBooked(a: Archive, act: Action)
    requires GoodArchive(a) && !act.Reconcile? && EnabledOn(a, act)
    ensures Charged(StepArchive(a, act)) + CommittedDelta(a, act) == Charged(a) + PendingDelta(a, act)
    ensures FileBytes(StepArchive(a, act)) + Uncommitted(StepArchive(a, act))
            <= FileBytes(a) + Uncommitted(a) + PendingDelta(a, act) + Forgotten(a, act)
    ensures act.Drop? ==>
              FileBytes(StepArchive(a, act)) + Uncommitted(StepArchive(a, act))
              == FileBytes(a) + Uncommitted(a) + PendingDelta(a, act) + Forgotten(a, act)
  {
    hide GoodOffsets, GoodFile, GoodPayloads, Offsets;
    match act {
      case Enqueue(_) => MoveIsBooked(a, act);
      case Requeue(_) => MoveIsBooked(a, act);
      case Append(_, _) => WriteIsPaidFor(a, act);
      case Replace(_) => WriteIsPaidFor(a, act);
      case Drop(_) => DropIsBooked(a, act);
      case Remove(_) => RemoveIsBooked(a, act);
      case _ => HeldIsOpen(a);
    }
  }

  lemma HeldIsOpen(a: Archive)
    requires GoodPayloads(a)
    ensures a.held.Some? ==> OpenCharge(a.held.value) == HeldCharge(a)
  {
  }

  // ------------------------------------------------------------- every state

  /** Giving up a flight leaves room for what may still be admitted: what it had already
      written no longer counts as charged, and is still on the disk. */
  predicate DropFits(s: State, act: Action)
    requires Enabled(s, act)
  {
    act.Drop? ==>
      var a := s.archives[act.i];
      DiskBytes(s) + UncommittedBytes(s) + PendingDelta(a, act) + SumOver(a.flight, WrittenCharge)
      + FreeAt(s, s.pendingBytes + PendingDelta(a, act)) <= s.cap
  }

  /** The three totals after an action, from those before it. */
  lemma StepTotals(s: State, act: Action)
    requires Sound(s) && Enabled(s, act) && !act.Reconcile?
    ensures var a, t := s.archives[act.i], Step(s, act);
            && ChargedBytes(t) + CommittedDelta(a, act) == ChargedBytes(s) + PendingDelta(a, act)
            && DiskBytes(t) + UncommittedBytes(t)
               <= DiskBytes(s) + UncommittedBytes(s) + PendingDelta(a, act) + Forgotten(a, act)
            && (act.Drop? ==>
                  DiskBytes(t) + UncommittedBytes(t)
                  == DiskBytes(s) + UncommittedBytes(s) + PendingDelta(a, act) + Forgotten(a, act))
  {
    hide GoodArchive, Charged, Uncommitted, StepArchive, PendingDelta, CommittedDelta, Forgotten;
    var a := s.archives[act.i];
    var b := StepArchive(a, act);
    StepIsBooked(a, act);
    SumUpdate(s.archives, act.i, b, Charged);
    SumUpdate(s.archives, act.i, b, FileBytes);
    SumUpdate(s.archives, act.i, b, Uncommitted);
  }

  lemma {:induction false} OpenIsCharged(archives: seq<Archive>)
    ensures SumOver(archives, Uncommitted) <= SumOver(archives, Charged)
  {
    if archives != [] {
      var a := archives[|archives| - 1];
      ChargesSplit(a.queue);
      ChargesSplit(a.flight);
      OpenIsCharged(archives[..|archives| - 1]);
    }
  }

  /** Conservation and the archive invariants hold after every action, drops included. */
  lemma StepKeepsSound(s: State, act: Action)
    requires Sound(s) && Enabled(s, act)
    ensures Sound(Step(s, act))
  {
    hide GoodArchive, Charged, Uncommitted, StepArchive, EnabledOn;
    if !act.Reconcile? {
      StepKeepsArchive(s.archives[act.i], act);
      StepTotals(s, act);
    }
  }

  /** What is admitted is taken from the free bytes, to the last one. */
  lemma AdmitsIffFree(s: State, bytes: nat)
    requires bytes > 0
    ensures Admits(s, bytes) <==> bytes <= Free(s)
  {
  }

  /** Every action leaves the books safe, except giving up a flight that does not fit,
      and only that. */
  lemma StepKeepsSafeIff(s: State, act: Action)
    requires SafeBooks(s) && Enabled(s, act)
    ensures SafeBooks(Step(s, act)) <==> DropFits(s, act)
  {
    StepKeepsSound(s, act);
    hide GoodArchive, Charged, Uncommitted, StepArchive;
    if act.Reconcile? {
      OpenIsCharged(s.archives);
    } else {
      StepTotals(s, act);
    }
  }

  /** A complete scan repairs the books, whatever was counted before, exactly while the
      cap still holds. */
  lemma ScanRepairsIff(s: State, strays: nat)
    requires Sound(s)
    ensures SafeBooks(Step(s, Reconcile(strays))) <==> WithinCap(s)
  {
    hide GoodArchive, Charged, Uncommitted;
    StepKeepsSound(s, Reconcile(strays));
    OpenIsCharged(s.archives);
  }

  /** A flight of which nothing reached the disk can always be given up. */
  lemma UnwrittenDropFits(s: State, act: Action)
    requires SafeBooks(s) && Enabled(s, act) && act.Drop?
    requires Unwritten(s.archives[act.i].flight)
    ensures DropFits(s, act)
  {
    hide GoodArchive;
    var a := s.archives[act.i];
    ChargesSplit(a.flight);
    SumsOfUnwritten(a.flight);
    ExcessIsCharged(a.flight);
  }

  lemma {:induction false} ExcessIsCharged(es: seq<Entry>)
    ensures SumOver(es, Excess) <= SumOver(es, ChargeOf)
  {
    if es != [] {
      ExcessIsCharged(es[..|es| - 1]);
    }
  }

  /** Runs the actions up to the first one that cannot happen. */
  function After(s: State, run: seq<Action>): State
    decreases |run|
  {
    if run == [] || !Enabled(s, run[0]) then s else After(Step(s, run[0]), run[1..])
  }

  predicate CanRun(s: State, run: seq<Action>)
    decreases |run|
  {
    run == [] || (Enabled(s, run[0]) && CanRun(Step(s, run[0]), run[1..]))
  }

  lemma {:induction false} AfterMore(s: State, run: seq<Action>, act: Action)
    requires CanRun(s, run) && Enabled(After(s, run), act)
    ensures CanRun(s, run + [act]) && After(s, run + [act]) == Step(After(s, run), act)
    decreases |run|
  {
    if run == [] {
      assert run + [act] == [act];
      assert [act][1..] == [];
    } else {
      AfterMore(Step(s, run[0]), run[1..], act);
      assert (run + [act])[1..] == run[1..] + [act];
    }
  }

  /** Every flight the run gives up fits. */
  predicate DropsFit(s: State, run: seq<Action>)
    decreases |run|
  {
    run != [] && Enabled(s, run[0]) ==>
      DropFits(s, run[0]) && DropsFit(Step(s, run[0]), run[1..])
  }

  lemma {:induction false} EveryRunKeepsSafe(s: State, run: seq<Action>)
    requires SafeBooks(s) && DropsFit(s, run)
    ensures SafeBooks(After(s, run)) && After(s, run).cap == s.cap
    decreases |run|
  {
    if run != [] && Enabled(s, run[0]) {
      StepKeepsSafeIff(s, run[0]);
      EveryRunKeepsSafe(Step(s, run[0]), run[1..]);
    }
  }

  // ------------------------------------------------- which drops fit, exactly

  predicate DropFree(run: seq<Action>) { forall act <- run :: !act.Drop? }

  lemma {:induction false} DropFreeFits(s: State, run: seq<Action>)
    requires DropFree(run)
    ensures DropsFit(s, run)
    decreases |run|
  {
    if run != [] && Enabled(s, run[0]) {
      assert run[0] in run;
      DropFreeFits(Step(s, run[0]), run[1..]);
    }
  }

  /** Some archive can use up the free bytes: a record in progress has paid for its header
      and index, or they leave room for a payload. */
  predicate CanRecord(s: State) {
    exists i :: 0 <= i < |s.archives| &&
      (s.archives[i].held.Some? || FixedOverhead(s.archives[i], false) < Free(s))
  }

  lemma {:induction false} UnusedOffset(used: set<nat>) returns (off: nat)
    ensures forall u <- used :: u < off
    decreases |used|
  {
    off := 0;
    if u :| u in used {
      off := UnusedOffset(used - {u});
      forall v | v in used ensures v < Max(off, u + 1) {
        assert v != u ==> v in used - {u};
      }
      off := Max(off, u + 1);
    }
  }

  /** One record takes all the free bytes. */
  lemma RecordTakesAll(s: State, i: nat) returns (act: Action)
    requires Sound(s) && i < |s.archives| && s.archives[i].held.None?
    requires FixedOverhead(s.archives[i], false) < Free(s)
    ensures !act.Drop? && Enabled(s, act)
    ensures var t := Step(s, act);
            DiskBytes(t) + UncommittedBytes(t) == DiskBytes(s) + UncommittedBytes(s) + Free(s)
  {
    hide GoodArchive;
    var a := s.archives[i];
    var off := UnusedOffset(a.buffered);
    act := Reserve(i, off, Free(s) - FixedOverhead(a, false), false);
    AdmitsIffFree(s, Free(s));
    var b := StepArchive(a, act);
    SumUpdate(s.archives, i, b, FileBytes);
    SumUpdate(s.archives, i, b, Uncommitted);
  }

  /** A record in progress is queued; nothing else changes. */
  lemma QueueFirst(s: State, i: nat)
    requires Sound(s) && i < |s.archives| && s.archives[i].held.Some?
    ensures Enabled(s, Enqueue(i)) && Sound(Step(s, Enqueue(i)))
    ensures var t := Step(s, Enqueue(i));
            && Free(t) == Free(s) && t.cap == s.cap && |t.archives| == |s.archives|
            && DiskBytes(t) + UncommittedBytes(t) == DiskBytes(s) + UncommittedBytes(s)
            && t.archives[i].held.None? && FixedOverhead(t.archives[i], false) == 0
  {
    StepKeepsSound(s, Enqueue(i));
    MoveIsBooked(s.archives[i], Enqueue(i));
    var b := StepArchive(s.archives[i], Enqueue(i));
    assert s.archives[i].held.value.off in b.buffered;
    hide GoodArchive, Charged, Uncommitted, StepArchive;
    SumUpdate(s.archives, i, b, FileBytes);
    SumUpdate(s.archives, i, b, Uncommitted);
  }

  lemma QueueAndTake(s: State, i: nat) returns (act: Action)
    requires Sound(s) && i < |s.archives| && s.archives[i].held.Some? && Free(s) > 0
    ensures Enabled(s, Enqueue(i)) && !act.Drop? && Enabled(Step(s, Enqueue(i)), act)
    ensures var t := Step(Step(s, Enqueue(i)), act);
            DiskBytes(t) + UncommittedBytes(t) == DiskBytes(s) + UncommittedBytes(s) + Free(s)
  {
    QueueFirst(s, i);
    hide *;
    act := RecordTakesAll(Step(s, Enqueue(i)), i);
  }

  lemma AfterOne(s: State, act: Action)
    requires Enabled(s, act)
    ensures After(s, [act]) == Step(s, act)
  {
    hide Step, Enabled;
    assert [act][1..] == [];
    assert After(Step(s, act), []) == Step(s, act);
  }

  lemma AfterTwo(s: State, one: Action, two: Action)
    requires Enabled(s, one) && Enabled(Step(s, one), two)
    ensures After(s, [one, two]) == Step(Step(s, one), two)
  {
    hide Step, Enabled;
    assert [one, two][1..] == [two];
    AfterOne(Step(s, one), two);
  }

  /** The free bytes can all be charged, without giving up any flight. */
  lemma FreeCanBeCharged(s: State) returns (run: seq<Action>)
    requires Sound(s) && (Free(s) == 0 || CanRecord(s))
    ensures DropFree(run)
    ensures var t := After(s, run);
            DiskBytes(t) + UncommittedBytes(t) == DiskBytes(s) + UncommittedBytes(s) + Free(s)
  {
    if Free(s) == 0 {
      return [];
    }
    var i :| 0 <= i < |s.archives|
             && (s.archives[i].held.Some? || FixedOverhead(s.archives[i], false) < Free(s));
    hide Sound, Enabled, Step, Free, DiskBytes, UncommittedBytes, After, FixedOverhead, CanRecord;
    if s.archives[i].held.None? {
      var act := RecordTakesAll(s, i);
      run := [act];
      AfterOne(s, act);
    } else {
      var act := QueueAndTake(s, i);
      run := [Enqueue(i), act];
      AfterTwo(s, Enqueue(i), act);
    }
  }

  /** From safe books every run without a further drop stays within the cap; and only
      from safe books, if some archive can use the free bytes. */
  lemma StaysWithinCapIff(s: State)
    requires Sound(s)
    ensures SafeBooks(s) ==> forall run :: DropFree(run) ==> WithinCap(After(s, run))
    ensures Free(s) == 0 || CanRecord(s) ==>
              ((forall run :: DropFree(run) ==> WithinCap(After(s, run))) <==> SafeBooks(s))
  {
    if SafeBooks(s) {
      forall run | DropFree(run) ensures WithinCap(After(s, run)) {
        DropFreeFits(s, run);
        EveryRunKeepsSafe(s, run);
      }
    } else if Free(s) == 0 || CanRecord(s) {
      var run := FreeCanBeCharged(s);
      EveryRunKeepsSound(s, run);
      assert !WithinCap(After(s, run));
    }
  }

  /** So a drop is harmless exactly if it fits, which shows before it is made. */
  lemma DropFitsIff(s: State, act: Action)
    requires Sound(s) && Enabled(s, act) && act.Drop?
    ensures DropFits(s, act) ==>
              forall run :: DropFree(run) ==> WithinCap(After(Step(s, act), run))
    ensures Free(Step(s, act)) == 0 || CanRecord(Step(s, act)) ==>
              (DropFits(s, act) <==>
                forall run :: DropFree(run) ==> WithinCap(After(Step(s, act), run)))
  {
    hide GoodArchive, StepArchive, DropFree, After;
    StepKeepsSound(s, act);
    StepTotals(s, act);
    StaysWithinCapIff(Step(s, act));
  }

  /** Before the first record: nothing buffered or charged, well-formed files, mapped or
      stale; the opening scan may have missed any of them. */
  ghost predicate Idle(s: State) {
    && (forall a <- s.archives ::
          && a.queue == [] && a.flight == [] && a.held.None? && a.buffered == {}
          && (a.view ==> a.file.Some?) && !a.invalid
          && (a.file.Some? ==> a.Overhead() <= a.file.value))
    && s.pendingBytes == 0 && s.committedReservations == 0
  }

  lemma {:induction false} IdleCharges(archives: seq<Archive>)
    requires forall a <- archives :: a.queue == [] && a.flight == [] && a.held.None?
    ensures SumOver(archives, Charged) == 0 && SumOver(archives, Uncommitted) == 0
  {
    if archives != [] {
      assert archives[|archives| - 1] in archives;
      IdleCharges(archives[..|archives| - 1]);
    }
  }

  /** An idle cache starts with safe books if and only if its files leave room under the cap
      for what could be admitted; if its opening scan counted every file, that is if and
      only if the files are within the cap. */
  lemma IdleIsSafeIff(s: State)
    requires Idle(s)
    ensures SafeBooks(s) <==> DiskBytes(s) + Free(s) <= s.cap
    ensures DiskBytes(s) <= s.totalCacheBytes ==> (SafeBooks(s) <==> DiskBytes(s) <= s.cap)
  {
    IdleIsSound(s);
    IdleCharges(s.archives);
  }

  /** So every run without drops from an idle cache stays within the cap if and only if its
      files and what could be admitted fit it, whatever the opening scan counted; only-if
      given an archive that can record. */
  lemma IdleStaysWithinCapIff(s: State)
    requires Idle(s) && (Free(s) == 0 || CanRecord(s))
    ensures (forall run :: DropFree(run) ==> WithinCap(After(s, run))) <==> DiskBytes(s) + Free(s) <= s.cap
  {
    hide Idle, After, DropFree, WithinCap;
    IdleIsSafeIff(s);
    assert Sound(s) by { IdleIsSound(s); }
    StaysWithinCapIff(s);
  }

  lemma {:induction false} EveryRunKeepsSound(s: State, run: seq<Action>)
    requires Sound(s)
    ensures Sound(After(s, run)) && After(s, run).cap == s.cap
    decreases |run|
  {
    if run != [] && Enabled(s, run[0]) {
      StepKeepsSound(s, run[0]);
      EveryRunKeepsSound(Step(s, run[0]), run[1..]);
    }
  }

  lemma IdleIsSound(s: State)
    requires Idle(s)
    ensures Sound(s)
  {
    IdleCharges(s.archives);
    forall i | 0 <= i < |s.archives| ensures GoodArchive(s.archives[i]) {
      assert s.archives[i] in s.archives;
    }
  }

  /** After any run, allocation failures included, `m_pendingBytes` is exactly what is
      queued, in flight, held by recorders and committed but unreconciled, and every
      archive's buffered offsets are the disjoint union of its queue and its flight. */
  lemma ChargesAreConserved(s: State, run: seq<Action>)
    requires Idle(s)
    ensures var t := After(s, run);
            && t.pendingBytes == ChargedBytes(t) + t.committedReservations
            && forall i :: 0 <= i < |t.archives| ==> GoodOffsets(t.archives[i])
  {
    IdleIsSound(s);
    EveryRunKeepsSound(s, run);
  }

  /** From an idle cache whose files and free bytes fit the cap, after any run of records, flushes, write and map
      failures, commits, requeues, invalidations, retirements, evictions, removals and
      scans, the files and the charges of uncommitted payloads fit the cap together, and
      `m_pendingBytes` is exactly the outstanding charges. */
  lemma HardCap(s: State, run: seq<Action>)
    requires Idle(s) && DiskBytes(s) + Free(s) <= s.cap && DropsFit(s, run)
    ensures var t := After(s, run);
            && DiskBytes(t) + UncommittedBytes(t) <= s.cap
            && t.pendingBytes == ChargedBytes(t) + t.committedReservations
            && forall a <- t.archives :: GoodOffsets(a)
  {
    IdleIsSafeIff(s);
    EveryRunKeepsSafe(s, run);
  }

  // ------------------------------------------ an opening scan that missed a file

  /** A mapped file fills the cap, but no scan succeeded, so the total is still zero. */
  function Uncounted(): State {
    State(200, [Archive(1, Some(200), true, false, [], [], false, false, None, {})], 0, 0, 0)
  }

  /** The first record is then admitted past the cap. */
  lemma UncountedStartBreaksTheCap()
    ensures Idle(Uncounted()) && CanRun(Uncounted(), [Reserve(0, 0, 30, false)])
    ensures WithinCap(Uncounted()) && !WithinCap(After(Uncounted(), [Reserve(0, 0, 30, false)]))
  {
    var s, act := Uncounted(), Reserve(0, 0, 30, false);
    var a := s.archives[0];
    assert s.archives == [a];
    SumSingle(a, FileBytes);
    SumSingle(a, Uncommitted);
    assert Enabled(s, act);
    AfterOne(s, act);
    assert CanRun(Step(s, act), [act][1..]);
    var t := Step(s, act);
    SumPart(t.archives, 0, FileBytes);
    SumPart(t.archives, 0, Uncommitted);
  }

  // ------------------------------------- the allocation failure breaks the cap

  /** Two archives of one entry each, nothing cached, under a cap of 200 bytes. */
  function TwoArchives(): State {
    var a := Archive(1, None, false, false, [], [], false, false, None, {});
    State(200, [a, a], 0, 0, 0)
  }

  /** The file of the first archive is written but not mapped, its flight is given up for
      want of memory, and a payload of the second archive is admitted on top. */
  function ForgettingRun(): seq<Action> {
    [Reserve(0, 0, 30, false), Enqueue(0), Snapshot(0, false), Replace(0), Drop(0),
     Reserve(1, 0, 130, false)]
  }

  /** Acting on the first archive only. */
  lemma FirstActs(s: State, run: seq<Action>, b: Archive, pending: int)
    requires run != [] && !run[0].Reconcile? && run[0].i == 0 && |s.archives| == 2
    requires EnabledOn(s.archives[0], run[0])
    requires run[0].Reserve? ==> Admits(s, AdmissionBytes(s.archives[0], run[0].size, run[0].sawInvalid))
    requires StepArchive(s.archives[0], run[0]) == b && CommittedDelta(s.archives[0], run[0]) == 0
    requires s.pendingBytes + PendingDelta(s.archives[0], run[0]) == pending
    ensures After(s, run)
            == After(s.(archives := [b, s.archives[1]], pendingBytes := pending), run[1..])
    ensures CanRun(s.(archives := [b, s.archives[1]], pendingBytes := pending), run[1..])
            ==> CanRun(s, run)
  {
    hide EnabledOn, StepArchive, Admits, CommittedDelta, PendingDelta;
    assert s.archives[0 := b] == [b, s.archives[1]];
  }

  /** Up to the write: the file of the first archive holds 94 bytes, still charged. */
  lemma ForgettingRunWrites() returns (t: State)
    ensures After(TwoArchives(), ForgettingRun()) == After(t, ForgettingRun()[4..])
    ensures CanRun(t, ForgettingRun()[4..]) ==> CanRun(TwoArchives(), ForgettingRun())
    ensures var e, a := Entry(0, 30, 94, true), TwoArchives().archives[0];
            t == State(200, [a.(file := Some(94), flight := [e], wrote := true, reset := true,
                                buffered := {0}), a], 94, 0, 0)
  {
    var s, run := TwoArchives(), ForgettingRun();
    var a, e := s.archives[0], Entry(0, 30, 94, false);
    var b1 := a.(held := Some(e));
    var b2 := a.(queue := [e], buffered := {0});
    var b3 := a.(flight := [e], buffered := {0}, reset := true);
    var b4 := b3.(file := Some(94), flight := [e.(written := true)], wrote := true);
    assert StepArchive(b1, Enqueue(0)) == b2 by { assert b1.buffered + {0} == {0}; }
    assert StepArchive(b3, Replace(0)) == b4 by {
      SumSingle(e, SizeOf);
      assert MarkWritten([e], {}) == [e.(written := true)];
    }
    hide After, CanRun;
    assert run[1..][1..] == run[2..] && run[2..][1..] == run[3..] && run[3..][1..] == run[4..];
    assert StepArchive(b2, Snapshot(0, false)) == b3;
    FirstActs(s, run, b1, 94);
    hide StepArchive;
    var s1 := State(200, [b1, a], 94, 0, 0);
    FirstActs(s1, run[1..], b2, 94);
    var s2 := State(200, [b2, a], 94, 0, 0);
    FirstActs(s2, run[2..], b3, 94);
    var s3 := State(200, [b3, a], 94, 0, 0);
    FirstActs(s3, run[3..], b4, 94);
    t := State(200, [b4, a], 94, 0, 0);
  }

  /** From the written state on: the charge is gone, the bytes are not. */
  lemma ForgettingRunEnds(t: State) returns (last: State)
    requires var e, a := Entry(0, 30, 94, true), TwoArchives().archives[0];
             t == State(200, [a.(file := Some(94), flight := [e], wrote := true, reset := true,
                                 buffered := {0}), a], 94, 0, 0)
    ensures CanRun(t, ForgettingRun()[4..])
    ensures After(t, ForgettingRun()[4..]) == last && last.cap == 200 && |last.archives| == 2
    ensures last.archives[0].file == Some(94)
    ensures last.archives[1].held == Some(Entry(0, 130, 194, false))
  {
    var run := ForgettingRun();
    var a, b := t.archives[0], t.archives[1];
    var a5 := a.(flight := [], buffered := {});
    var b6 := b.(held := Some(Entry(0, 130, 194, false)));
    var s5 := State(200, [a5, b], 0, 0, 0);
    last := State(200, [a5, b6], 194, 0, 0);
    assert CanRun(s5, run[5..]) && After(s5, run[5..]) == last by {
      assert Enabled(s5, run[5]) && Step(s5, run[5]).archives == last.archives;
    }
    assert StepArchive(a, run[4]) == a5 by {
      assert a.flight[0].off in Offsets(a.flight);
      assert a.buffered - Offsets(a.flight) == {};
    }
    SumSingle(a.flight[0], ChargeOf);
    hide After, CanRun, StepArchive;
    assert run[4..][1..] == run[5..];
    FirstActs(t, run[4..], a5, 0);
  }

  lemma TwoArchivesAreIdle()
    ensures Idle(TwoArchives()) && DiskBytes(TwoArchives()) == 0
  {
    SumZero(TwoArchives().archives, FileBytes);
  }

  lemma PastTheCap(s: State)
    requires |s.archives| == 2 && s.archives[0].file.Some? && s.archives[1].held.Some?
    requires s.cap < s.archives[0].file.value + s.archives[1].held.value.charge
    requires !s.archives[1].held.value.written
    ensures !WithinCap(s)
  {
    SumPart(s.archives, 0, FileBytes);
    SumPart(s.archives, 1, Uncommitted);
  }

  /** A run that can happen, from an idle cache, past the cap. */
  lemma UnsafeDropBreaksTheCap()
    ensures Idle(TwoArchives()) && DiskBytes(TwoArchives()) <= TwoArchives().totalCacheBytes
    ensures CanRun(TwoArchives(), ForgettingRun())
    ensures !WithinCap(After(TwoArchives(), ForgettingRun()))
  {
    hide After, CanRun, WithinCap, Idle, DiskBytes, ForgettingRun;
    TwoArchivesAreIdle();
    var t := ForgettingRunWrites();
    var last := ForgettingRunEnds(t);
    PastTheCap(last);
  }
}
