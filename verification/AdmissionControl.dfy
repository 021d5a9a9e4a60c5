/** The methods of DecompCache that admit, flush, reconcile and evict, as they update
    the shared fields (Skyrim/src/DecompCache.cpp). Each is proved to perform a run of
    the actions of `Admission`, so the results of that module hold of every state it
    leaves. Outcomes of file operations, loads starting and failing allocations are
    parameters. */
module AdmissionControl {
  import opened Basics
  import opened Sums
  import opened Admission
  import L = CacheLimit
  import opened ByteCodec

  /** How the flush of one archive goes: a load is active, the file operation succeeds and
      its file is mapped, the file is rewritten rather than appended to, the old mapping
      fails meanwhile, the queue cannot grow. `found` are offsets the append skips. */
  datatype Fortune = Fortune(loadActive: bool, written: bool, mapped: bool, rewrite: bool, fails: bool,
                             outOfMemory: bool, found: set<nat>)

  /** What a directory scan finds; an incomplete one says nothing. `strays` are bytes of files
      no archive owns and of uncommitted tails. */
  datatype Scan = Scan(strays: nat, complete: bool)

  /** How one eviction pass goes: when loads start, what its scans find, which unowned files
      and which candidates, in which order, can be deleted, and before which of them a load
      starts. */
  datatype Pass = Pass(
    loadAtEntry: bool, first: Scan, loadAfterScan: bool, gone: set<nat>, second: Scan,
    loadAfterRemoval: bool, order: seq<nat>, deletable: set<nat>, loadAt: nat, last: Scan)

  /** How a flush goes around its archives: it does not run at all, during a load or after
      capture has stopped; the passes before and after it; which condemned files can be
      deleted; whether planning fails; which files are not this session's; whether a load
      is active when all is written, and the scan then. */
  datatype Weather = Weather(
    stopped: bool, before: Pass, retirable: set<nat>, planFails: bool, stale: set<nat>,
    loadAfter: bool, scan: Scan, after: Pass)

  datatype Verdict = Ignored | Duplicate | PendingFull | OverCap | Failed | Queued

  class DecompCache {
    const cap: U64
    var archives: seq<Archive>
    var pendingBytes: int
    var committedReservations: int
    var totalCacheBytes: nat
    var requiredHeadroom: U64
    ghost const start: State
    ghost var run: seq<Action>

    ghost function View(): State
      reads this`archives, this`pendingBytes, this`committedReservations, this`totalCacheBytes
    {
      State(cap, archives, pendingBytes, committedReservations, totalCacheBytes)
    }

    /** The books are sound, and this state was reached by the recorded run. */
    ghost predicate Valid()
      reads this`archives, this`pendingBytes, this`committedReservations, this`totalCacheBytes, this`run
    {
      Sound(View()) && CanRun(start, run) && After(start, run) == View()
    }

    ghost predicate NothingHeld()
      reads this`archives
    {
      forall i :: 0 <= i < |archives| ==> archives[i].held.None?
    }

    /** What is buffered is what is queued or in flight, and a mapping has a file. */
    lemma BufferIsEntries()
      requires Valid()
      ensures forall i :: 0 <= i < |archives| ==>
                && archives[i].buffered == Offsets(archives[i].queue) + Offsets(archives[i].flight)
                && (archives[i].queue != [] ==> archives[i].buffered != {})
                && (archives[i].view ==> archives[i].file.Some?)
    {
      forall i | 0 <= i < |archives|
        ensures archives[i].buffered == Offsets(archives[i].queue) + Offsets(archives[i].flight)
        ensures archives[i].queue != [] ==> archives[i].buffered != {}
        ensures archives[i].view ==> archives[i].file.Some?
      {
        assert GoodArchive(archives[i]);
        EmptyBuffer(archives[i]);
      }
    }

    lemma FlightIsDistinct(i: nat)
      requires Valid() && i < |archives|
      ensures DistinctOffsets(archives[i].flight)
    {
      assert GoodArchive(archives[i]);
    }

    ghost predicate NothingInFlight()
      reads this`archives
    {
      forall i :: 0 <= i < |archives| ==> archives[i].flight == []
    }

    constructor (cap: U64, archives: seq<Archive>, total: nat)
      requires Idle(State(cap, archives, 0, 0, total))
      ensures Valid() && View() == State(cap, archives, 0, 0, total) == start
      ensures run == [] && requiredHeadroom == 0 && NothingHeld()
    {
      this.cap, this.archives, totalCacheBytes := cap, archives, total;
      pendingBytes, committedReservations, requiredHeadroom := 0, 0, 0;
      start, run := State(cap, archives, 0, 0, total), [];
      new;
      IdleIsSound(View());
    }

    /** In every state any sequence of these methods reaches from an idle cache whose files
        and free bytes fit the cap, files and uncommitted charges fit it, if every flight
        given up fitted. */
    lemma WithinTheCap()
      requires Valid() && Idle(start) && DiskBytes(start) + Free(start) <= start.cap
      requires DropsFit(start, run)
      ensures DiskBytes(View()) + UncommittedBytes(View()) <= start.cap
      ensures pendingBytes == ChargedBytes(View()) + committedReservations
    {
      HardCap(start, run);
    }

    /** Accounts for one finished critical section. */
    ghost method Note(act: Action, before: State)
      requires CanRun(start, run) && After(start, run) == before && Sound(before)
      requires Enabled(before, act) && View() == Step(before, act)
      modifies this`run
      ensures Valid() && run == old(run) + [act]
    {
      AfterMore(start, run, act);
      StepKeepsSound(before, act);
      run := run + [act];
    }

    /** The checks of a record, up to the admission decision. `known` is that the index
        holds the offset with a payload not found invalid. */
    method Judge(i: nat, off: nat, size: nat, sawInvalid: bool, known: bool) returns (verdict: Verdict)
      requires Valid() && i < |archives|
      modifies this`requiredHeadroom
      ensures Valid()
      ensures verdict in {Ignored, Duplicate, PendingFull, OverCap, Queued}
      ensures verdict.Ignored? <==> size == 0 || size > 0x1000_0000
      ensures verdict.Duplicate? <==>
                0 < size <= 0x1000_0000 && ((known && !sawInvalid) || off in archives[i].buffered)
      ensures var a := archives[i];
              var bytes := size + if (a.view && !sawInvalid) || a.buffered != {} then 0 else 44 + 20 * a.entryCount;
              && (verdict.PendingFull? <==>
                    && 0 < size <= 0x1000_0000 && (known ==> sawInvalid) && off !in a.buffered
                    && pendingBytes + bytes > 0x1000_0000)
              && (verdict.OverCap? <==>
                    && 0 < size <= 0x1000_0000 && (known ==> sawInvalid) && off !in a.buffered
                    && pendingBytes + bytes <= 0x1000_0000 && totalCacheBytes + pendingBytes + bytes > cap)
              && (verdict.Queued? && a.held.None? && (sawInvalid ==> a.invalid) ==>
                    Enabled(View(), Reserve(i, off, size, sawInvalid)))
              && requiredHeadroom == if verdict.OverCap? && bytes <= cap
                                     then Max(old(requiredHeadroom), Min(cap, pendingBytes + bytes))
                                     else old(requiredHeadroom)
    {
      assert 0 <= pendingBytes;
      hide Sound, CanRun, After, GoodArchive, SumOver, Offsets;
      if size == 0 || size > F.MAX_PAYLOAD {
        return Ignored;
      }
      if (!sawInvalid && known) || off in archives[i].buffered {
        return Duplicate;
      }
      var bytes := AdmissionBytes(archives[i], size, sawInvalid);
      if pendingBytes > MAX_PENDING || bytes > MAX_PENDING - pendingBytes {
        return PendingFull;
      }
      if cap == 0 || totalCacheBytes >= cap || pendingBytes > cap - totalCacheBytes
         || bytes > cap - totalCacheBytes - pendingBytes {
        if cap > 0 && bytes <= cap {
          requiredHeadroom := Max(requiredHeadroom, L.RequiredHeadroom(cap, pendingBytes, bytes));
        }
        return OverCap;
      }
      return Queued;
    }

    /** Charges the payload, and the missing header and index if nothing else did. */
    method HoldCharge(i: nat, off: nat, size: nat, sawInvalid: bool)
      requires Valid() && i < |archives| && Enabled(View(), Reserve(i, off, size, sawInvalid))
      modifies this`archives, this`pendingBytes, this`run
      ensures Valid() && View() == Step(old(View()), Reserve(i, off, size, sawInvalid))
      ensures var a := old(archives[i]);
              var bytes := size + if (a.view && !sawInvalid) || a.buffered != {} then 0 else 44 + 20 * a.entryCount;
              && pendingBytes == old(pendingBytes) + bytes
              && archives == old(archives)[i := a.(held := Some(Entry(off, size, bytes, false)))]
      ensures run == old(run) + [Reserve(i, off, size, sawInvalid)]
    {
      hide Sound, CanRun, After, GoodArchive, SumOver, Offsets, Admits;
      ghost var before := View();
      var bytes := AdmissionBytes(archives[i], size, sawInvalid);
      pendingBytes := pendingBytes + bytes;
      archives := archives[i := archives[i].(held := Some(Entry(off, size, bytes, false)))];
      Note(Reserve(i, off, size, sawInvalid), before);
    }

    /** The queue now owns the charge. */
    method QueueHeld(i: nat)
      requires Valid() && i < |archives| && archives[i].held.Some?
      modifies this`archives, this`run
      ensures Valid() && View() == Step(old(View()), Enqueue(i)) && run == old(run) + [Enqueue(i)]
      ensures var a, e := old(archives[i]), old(archives[i].held.value);
              archives == old(archives)[i := a.(held := None, queue := a.queue + [e], buffered := a.buffered + {e.off})]
    {
      hide Sound, CanRun, After, GoodArchive, SumOver, Offsets;
      ghost var before := View();
      var a := archives[i];
      archives := archives[i := a.(held := None, queue := a.queue + [a.held.value],
                                   buffered := a.buffered + {a.held.value.off})];
      Note(Enqueue(i), before);
    }

    /** Nothing was queued; the charge is returned. */
    method ReturnHeld(i: nat)
      requires Valid() && i < |archives| && archives[i].held.Some?
      modifies this`archives, this`pendingBytes, this`run
      ensures Valid() && View() == Step(old(View()), Abandon(i)) && run == old(run) + [Abandon(i)]
      ensures archives == old(archives)[i := old(archives[i]).(held := None)]
      ensures pendingBytes == old(pendingBytes - archives[i].held.value.charge)
    {
      hide Sound, CanRun, After, GoodArchive, SumOver, Offsets;
      ghost var before := View();
      pendingBytes := pendingBytes - archives[i].held.value.charge;
      archives := archives[i := archives[i].(held := None)];
      Note(Abandon(i), before);
    }

    method RecordDecompressed(i: nat, off: nat, size: nat, sawInvalid: bool, known: bool, outOfMemory: bool)
        returns (verdict: Verdict)
      requires Valid() && NothingHeld() && i < |archives|
      requires sawInvalid ==> archives[i].invalid
      modifies this`archives, this`pendingBytes, this`requiredHeadroom, this`run
      ensures Valid() && NothingHeld() && old(run) <= run
      ensures var a := old(archives[i]);
              var acceptable := 0 < size <= 0x1000_0000 && (known ==> sawInvalid) && off !in a.buffered;
              var bytes := size + if (a.view && !sawInvalid) || a.buffered != {} then 0 else 44 + 20 * a.entryCount;
              && (verdict.Queued? <==>
                    && acceptable && !outOfMemory
                    && old(pendingBytes) + bytes <= 0x1000_0000
                    && old(totalCacheBytes + pendingBytes) + bytes <= cap)
              && (verdict.OverCap? <==>
                    && acceptable && old(pendingBytes) + bytes <= 0x1000_0000
                    && old(totalCacheBytes + pendingBytes) + bytes > cap)
              && (verdict.Queued? ==>
                    && archives == old(archives)[i := a.(queue := a.queue + [Entry(off, size, bytes, false)],
                                                         buffered := a.buffered + {off})]
                    && pendingBytes == old(pendingBytes) + bytes)
              && requiredHeadroom == if verdict.OverCap? && bytes <= cap
                                     then Max(old(requiredHeadroom), Min(cap, old(pendingBytes) + bytes))
                                     else old(requiredHeadroom)
      ensures verdict.Queued? ==> totalCacheBytes == old(totalCacheBytes)
                                  && committedReservations == old(committedReservations)
      ensures !verdict.Queued? ==> View() == old(View())
    {
      hide Valid, Step, Enabled, StepArchive, Offsets, SumOver, Admits, FixedOverhead;
      verdict := Judge(i, off, size, sawInvalid, known);
      if verdict.Queued? {
        HoldCharge(i, off, size, sawInvalid);
        if outOfMemory {
          ReturnHeld(i);
          verdict := Failed;
        } else {
          QueueHeld(i);
        }
      }
    }

    /** A directory scan adds up the files; only a complete one replaces the total and
        releases the committed reservations. */
    method ReconcileDiskAccounting(scan: Scan)
      requires Valid()
      modifies this`totalCacheBytes, this`pendingBytes, this`committedReservations, this`run
      ensures Valid() && old(run) <= run
      ensures View() == if scan.complete then Step(old(View()), Reconcile(scan.strays)) else old(View())
      ensures scan.complete ==>
                && totalCacheBytes == SumOver(archives, FileBytes) + scan.strays && committedReservations == 0
                && pendingBytes == old(pendingBytes - committedReservations)
      ensures !scan.complete ==>
                && totalCacheBytes == old(totalCacheBytes) && pendingBytes == old(pendingBytes)
                && committedReservations == old(committedReservations)
    {
      hide Sound, CanRun, After, GoodArchive, SumOver, Offsets;
      ghost var before := View();
      var total := ScanFiles(archives, scan.strays);
      if scan.complete {
        totalCacheBytes := total;
        pendingBytes := pendingBytes - committedReservations;
        committedReservations := 0;
        Note(Reconcile(scan.strays), before);
      }
    }

    /** Deletes the file of a usable, idle archive. */
    method EvictArchive(i: nat)
      requires Valid() && i < |archives| && EnabledOn(archives[i], Evict(i))
      modifies this`archives, this`run
      ensures Valid() && View() == Step(old(View()), Evict(i)) && old(run) <= run
      ensures archives == old(archives)[i := old(archives[i]).(file := None, view := false, invalid := false)]
    {
      hide Sound, CanRun, After, GoodArchive, SumOver, Offsets;
      ghost var before := View();
      archives := archives[i := archives[i].(file := None, view := false, invalid := false)];
      Note(Evict(i), before);
    }

    /** Deletes files that the last scan found mapped by no archive; some deletions may
        fail, so `gone` are the archives whose file goes. */
    method RemoveUnownedFiles(gone: set<nat>)
      requires Valid() && NothingHeld() && NothingInFlight()
      modifies this`archives, this`run
      ensures Valid() && NothingHeld() && NothingInFlight() && old(run) <= run && |archives| == old(|archives|)
      ensures forall i :: 0 <= i < |archives| ==>
                archives[i] == if i in gone && !old(archives[i].view) && old(archives[i].file.Some?)
                               then old(archives[i]).(file := None, queue := Unmark(old(archives[i].queue)))
                               else old(archives[i])
    {
      hide Sound, CanRun, After, GoodArchive, SumOver, Offsets, Unmark;
      for i := 0 to |archives|
        invariant Valid() && NothingHeld() && NothingInFlight()
        invariant old(run) <= run && |archives| == old(|archives|)
        invariant forall j :: i <= j < |archives| ==> archives[j] == old(archives[j])
        invariant forall j :: 0 <= j < i ==>
                    archives[j] == if j in gone && !old(archives[j].view) && old(archives[j].file.Some?)
                                   then old(archives[j]).(file := None, queue := Unmark(old(archives[j].queue)))
                                   else old(archives[j])
      {
        var a := archives[i];
        if i in gone && !a.view && a.file.Some? {
          ghost var before := View();
          archives := archives[i := a.(file := None, queue := Unmark(a.queue))];
          Note(Remove(i), before);
        }
      }
    }

    /** Evicts idle archives, in the given order, until the files are estimated to fit the
        target; a demand that is not met is put back. */
    method EnforceSizeLimit(pass: Pass) returns (interrupted: bool, estimate: nat, ghost reached: nat)
      requires Valid() && NothingHeld() && NothingInFlight()
      requires forall k :: 0 <= k < |pass.order| ==> pass.order[k] < |archives|
      modifies this
      ensures Valid() && NothingHeld() && NothingInFlight() && old(run) <= run && |archives| == old(|archives|)
      ensures Trimmed(old(archives), archives, pass)
      ensures var demand := old(requiredHeadroom);
              var target := cap - Min(demand, cap);
              var kept := WithoutUnowned(old(archives), if pass.first.complete then pass.gone else {});
              var first := Scanned(pass.first, old(archives), old(totalCacheBytes));
              var second := Scanned(pass.second, kept, first);
              if cap == 0 || pass.loadAtEntry then
                View() == old(View()) && requiredHeadroom == demand && (interrupted <==> cap > 0)
              else if pass.loadAfterScan || first <= target then
                && archives == old(archives) && totalCacheBytes == first && (interrupted <==> pass.loadAfterScan)
                && requiredHeadroom == if interrupted then demand else 0
              else if pass.loadAfterRemoval || second <= target then
                && archives == kept && totalCacheBytes == second && (interrupted <==> pass.loadAfterRemoval)
                && requiredHeadroom == if interrupted then demand else 0
              else
                && EvictedInOrder(kept, archives, pass, second, target, reached, interrupted, estimate)
                && totalCacheBytes == (if archives == kept then second else Scanned(pass.last, archives, second))
                && requiredHeadroom == if totalCacheBytes > target then demand else 0
      ensures && cap > 0 && !pass.loadAtEntry && !pass.loadAfterScan && !pass.loadAfterRemoval
              && |pass.order| <= pass.loadAt && pass.first.complete && pass.second.complete ==>
                  || SumOver(archives, FileBytes) <= cap - Min(old(requiredHeadroom), cap)
                  || forall k :: 0 <= k < |pass.order| ==>
                       var i := pass.order[k];
                       archives[i].view && archives[i].buffered == {} ==> i !in pass.deletable
      ensures cap > 0 && !pass.loadAtEntry && pass.first.complete ==> committedReservations == 0
      ensures old(committedReservations) == 0 ==> committedReservations == 0
    {
      hide Valid, View, Trimmed, Step, SumOver, Unmark, FileBytes, EvictedInOrder, WithoutUnowned;
      interrupted, estimate, reached := false, totalCacheBytes, 0;
      TrimsCompose(archives, archives, archives, pass);
      if cap == 0 {
        return;
      }
      if pass.loadAtEntry {
        return true, totalCacheBytes, 0;
      }
      var requested := requiredHeadroom;
      requiredHeadroom := 0;
      var target := L.EvictionTarget(cap, requested);
      ReconcileDiskAccounting(pass.first);
      if pass.loadAfterScan {
        requiredHeadroom := requested;
        return true, totalCacheBytes, 0;
      }
      if totalCacheBytes <= target {
        return false, totalCacheBytes, 0;
      }
      interrupted, estimate, reached := BringDown(pass, target);
      if pass.loadAfterRemoval || (totalCacheBytes > target && requested > 0) {
        requiredHeadroom := requested;
      }
    }

    /** Over the target: first unowned files go, and if a scan finds that this was not
        enough, idle archives. */
    method BringDown(pass: Pass, target: nat) returns (interrupted: bool, estimate: nat, ghost reached: nat)
      requires Valid() && NothingHeld() && NothingInFlight()
      requires forall k :: 0 <= k < |pass.order| ==> pass.order[k] < |archives|
      modifies this`archives, this`totalCacheBytes, this`pendingBytes, this`committedReservations, this`run
      ensures Valid() && NothingHeld() && NothingInFlight() && old(run) <= run && |archives| == old(|archives|)
      ensures Trimmed(old(archives), archives, pass)
      ensures var kept := WithoutUnowned(old(archives), if pass.first.complete then pass.gone else {});
              var second := Scanned(pass.second, kept, old(totalCacheBytes));
              if pass.loadAfterRemoval || second <= target then
                && archives == kept && totalCacheBytes == second && (interrupted <==> pass.loadAfterRemoval)
              else
                && EvictedInOrder(kept, archives, pass, second, target, reached, interrupted, estimate)
                && totalCacheBytes == if archives == kept then second else Scanned(pass.last, archives, second)
      ensures !pass.loadAfterRemoval && |pass.order| <= pass.loadAt && pass.second.complete ==>
                  || SumOver(archives, FileBytes) <= target
                  || forall k :: 0 <= k < |pass.order| ==>
                       var i := pass.order[k];
                       archives[i].view && archives[i].buffered == {} ==> i !in pass.deletable
      ensures old(committedReservations) == 0 ==> committedReservations == 0
    {
      hide Valid, View, Trimmed, Step, SumOver, Unmark, FileBytes, EvictedInOrder;
      ghost var was := archives;
      RemoveUnownedFiles(if pass.first.complete then pass.gone else {});
      ghost var kept := archives;
      assert kept == WithoutUnowned(was, if pass.first.complete then pass.gone else {});
      TrimsCompose(was, kept, kept, pass);
      ReconcileDiskAccounting(pass.second);
      if pass.loadAfterRemoval {
        return true, totalCacheBytes, 0;
      }
      if totalCacheBytes <= target {
        return false, totalCacheBytes, 0;
      }
      ghost var second := totalCacheBytes;
      interrupted, estimate, reached := EvictDown(pass, target);
      EvictedOnly(kept, archives, pass, second, target, reached, interrupted, estimate);
      TrimsCompose(was, kept, archives, pass);
      RoomOrNothingIdle(kept, archives, pass, second, target, reached, interrupted, estimate);
    }

    /** The evictions, and one scan after them if there were any. */
    method EvictDown(pass: Pass, target: nat) returns (interrupted: bool, estimate: nat, ghost reached: nat)
      requires Valid() && NothingHeld() && NothingInFlight()
      requires forall k :: 0 <= k < |pass.order| ==> pass.order[k] < |archives|
      modifies this`archives, this`totalCacheBytes, this`pendingBytes, this`committedReservations, this`run
      ensures Valid() && NothingHeld() && NothingInFlight() && old(run) <= run && |archives| == old(|archives|)
      ensures EvictedInOrder(old(archives), archives, pass, old(totalCacheBytes), target, reached,
                             interrupted, estimate)
      ensures totalCacheBytes == if archives == old(archives) then old(totalCacheBytes)
                                 else Scanned(pass.last, archives, old(totalCacheBytes))
      ensures old(committedReservations) == 0 ==> committedReservations == 0
    {
      hide Valid, View, Step, SumOver;
      var was := archives;
      interrupted, estimate, reached := EvictInOrder(pass.order, target, pass.deletable, pass.loadAt);
      if archives != was {
        ReconcileDiskAccounting(pass.last);
      }
    }

    /** Deletes files in order while the estimate is above the target, and stops at the
        first candidate that finds it reached, or at a load. What is left of the estimate is
        the total less what was deleted; before the last candidate looked at, it was still
        above the target. */
    method EvictInOrder(order: seq<nat>, target: nat, deletable: set<nat>, loadAt: nat)
        returns (interrupted: bool, estimate: nat, ghost reached: nat)
      requires Valid() && NothingHeld()
      requires forall k :: 0 <= k < |order| ==> order[k] < |archives|
      modifies this`archives, this`run
      ensures Valid() && NothingHeld() && old(run) <= run && |archives| == old(|archives|)
      ensures reached <= |order|
      ensures forall i :: 0 <= i < |archives| ==>
                var a := old(archives[i]);
                archives[i] == if a.view && a.buffered == {} && i in deletable && i in order[..reached]
                               then a.(file := None, view := false, invalid := false) else a
      ensures SumOver(archives, FileBytes) <= SumOver(old(archives), FileBytes)
      ensures var freed := SumOver(old(archives), FileBytes) - SumOver(archives, FileBytes);
              && estimate == Max(freed, totalCacheBytes) - freed
              && (reached > 0 ==>
                    var i := order[reached - 1];
                    var a := old(archives[i]);
                    var last := if a.view && a.buffered == {} && i in deletable && i !in order[..reached - 1]
                                then FileBytes(a) else 0;
                    target + freed < totalCacheBytes + last)
      ensures interrupted <==> loadAt <= reached < |order|
      ensures !interrupted ==> reached == |order| || estimate <= target
    {
      hide Valid, View, SumOver, FileBytes;
      interrupted, estimate, reached := false, totalCacheBytes, 0;
      for k := 0 to |order|
        invariant Valid() && NothingHeld() && old(run) <= run && |archives| == old(|archives|)
        invariant !interrupted && reached == k <= loadAt
        invariant forall i :: 0 <= i < |archives| ==>
                    var a := old(archives[i]);
                    archives[i] == if a.view && a.buffered == {} && i in deletable && i in order[..k]
                                   then a.(file := None, view := false, invalid := false) else a
        invariant SumOver(archives, FileBytes) <= SumOver(old(archives), FileBytes)
        invariant var freed := SumOver(old(archives), FileBytes) - SumOver(archives, FileBytes);
                  && estimate == Max(freed, totalCacheBytes) - freed
                  && (k > 0 ==>
                        var i := order[k - 1];
                        var a := old(archives[i]);
                        var last := if a.view && a.buffered == {} && i in deletable && i !in order[..k - 1]
                                    then FileBytes(a) else 0;
                        target + freed < totalCacheBytes + last)
      {
        if loadAt <= k {
          interrupted := true;
          break;
        }
        if estimate <= target {
          break;
        }
        assert order[..k + 1] == order[..k] + [order[k]];
        var bytes := EvictCandidate(order[k], deletable);
        estimate := if bytes >= estimate then 0 else estimate - bytes;
        reached := k + 1;
      }
    }

    /** One candidate, if it is still usable and idle and its file can be deleted. */
    method EvictCandidate(i: nat, deletable: set<nat>) returns (bytes: nat)
      requires Valid() && NothingHeld() && i < |archives|
      modifies this`archives, this`run
      ensures Valid() && NothingHeld() && old(run) <= run
      ensures var a := old(archives[i]);
              if a.view && a.buffered == {} && i in deletable then
                && archives == old(archives)[i := a.(file := None, view := false, invalid := false)]
                && bytes == FileBytes(a)
              else archives == old(archives) && bytes == 0
      ensures SumOver(archives, FileBytes) + bytes == SumOver(old(archives), FileBytes)
    {
      hide Valid, View, SumOver;
      var a := archives[i];
      bytes := 0;
      if a.view && a.buffered == {} && i in deletable {
        bytes := FileBytes(a);
        SumUpdate(archives, i, a.(file := None, view := false, invalid := false), FileBytes);
        EvictArchive(i);
      }
    }

    /** Deletes the condemned generations that nothing waits to replace, where the file can
        be deleted and before a load starts. */
    method RetireInvalid(retirable: set<nat>)
      requires Valid() && NothingHeld()
      modifies this`archives, this`run
      ensures Valid() && NothingHeld() && old(run) <= run && |archives| == old(|archives|)
      ensures forall i :: 0 <= i < |archives| ==>
                archives[i] == if old(archives[i].invalid) && old(archives[i].queue) == []
                                  && old(archives[i].buffered) == {} && i in retirable
                               then old(archives[i]).(file := None, view := false, invalid := false)
                               else old(archives[i])
    {
      hide Sound, CanRun, After, GoodArchive, SumOver, Offsets;
      for i := 0 to |archives|
        invariant Valid() && NothingHeld() && old(run) <= run && |archives| == old(|archives|)
        invariant forall j :: i <= j < |archives| ==> archives[j] == old(archives[j])
        invariant forall j :: 0 <= j < i ==>
                    archives[j] == if old(archives[j].invalid) && old(archives[j].queue) == []
                                      && old(archives[j].buffered) == {} && j in retirable
                                   then old(archives[j]).(file := None, view := false, invalid := false)
                                   else old(archives[j])
      {
        var a := archives[i];
        if a.invalid && a.queue == [] && a.buffered == {} && i in retirable {
          ghost var before := View();
          archives := archives[i := a.(file := None, view := false, invalid := false)];
          Note(Retire(i), before);
        }
      }
    }

    /** Commits a mapped flight: every offset leaves the buffer and every charge becomes a
        committed reservation. */
    method CommitFlight(i: nat)
      requires Valid() && i < |archives| && EnabledOn(archives[i], Commit(i))
      modifies this`archives, this`committedReservations, this`run
      ensures Valid() && View() == Step(old(View()), Commit(i)) && old(run) <= run
      ensures var a := old(archives[i]);
              && archives == old(archives)[i := a.(flight := [], buffered := a.buffered - Offsets(a.flight),
                                                   view := true, invalid := false)]
              && committedReservations == old(committedReservations) + SumOver(a.flight, ChargeOf)
    {
      hide Sound, CanRun, After, GoodArchive, SumOver, Offsets;
      ghost var before := View();
      var a := archives[i];
      var buffered, committed, _ := Release(a.flight, a.buffered);
      archives := archives[i := a.(flight := [], buffered := buffered, view := true, invalid := false)];
      committedReservations := committedReservations + committed;
      Note(Commit(i), before);
    }

    /** The flight cannot go back to the queue: its offsets can be learned again, and a
        survivor takes over the header and index reservation it held. */
    method DropFlight(i: nat)
      requires Valid() && i < |archives| && EnabledOn(archives[i], Drop(i))
      modifies this`archives, this`pendingBytes, this`run
      ensures Valid() && View() == Step(old(View()), Drop(i)) && old(run) <= run
      ensures var a, b := old(archives[i]), archives[i];
              var excess := if a.queue != [] && (!a.view || a.invalid) then SumOver(a.flight, Excess) else 0;
              && archives == old(archives)[i := b]
              && b == a.(flight := [], buffered := a.buffered - Offsets(a.flight), queue := b.queue)
              && |b.queue| == |a.queue|
              && (forall k :: 0 <= k < |b.queue| ==>
                    b.queue[k] == a.queue[k].(charge := a.queue[k].charge + if k == 0 then excess else 0))
              && pendingBytes == old(pendingBytes) - SumOver(a.flight, ChargeOf) + excess
    {
      hide Sound, CanRun, After, GoodArchive, SumOver, Offsets;
      ghost var before := View();
      var a := archives[i];
      var buffered, charges, fixedOverhead := Release(a.flight, a.buffered);
      var released: int := charges;
      var queue := a.queue;
      if fixedOverhead > 0 && (!a.view || a.invalid) && queue != [] {
        queue := queue[0 := queue[0].(charge := queue[0].charge + fixedOverhead)];
        released := released - fixedOverhead;
      }
      archives := archives[i := a.(flight := [], buffered := buffered, queue := queue)];
      pendingBytes := pendingBytes - released;
      Note(Drop(i), before);
    }

    /** The flight becomes the whole file. */
    method ReplaceFile(i: nat)
      requires Valid() && i < |archives| && archives[i].flight != []
      modifies this`archives, this`run
      ensures Valid() && run == old(run) + [Replace(i)]
      ensures Enabled(old(View()), Replace(i)) && View() == Step(old(View()), Replace(i))
      ensures var a := old(archives[i]);
              archives == old(archives)[i := a.(flight := MarkWritten(a.flight, {}), wrote := true,
                                                file := Some(44 + 20 * a.entryCount + SumOver(a.flight, SizeOf)))]
    {
      hide Sound, CanRun, After, GoodArchive, SumOver, Offsets, MarkWritten;
      ghost var before := View();
      var a := archives[i];
      archives := archives[i := a.(flight := MarkWritten(a.flight, {}), wrote := true,
                                   file := Some(a.Overhead() + SumOver(a.flight, SizeOf)))];
      Note(Replace(i), before);
    }

    /** The flight is appended to the file, but for the offsets `found` in it. */
    method AppendFlight(i: nat, found: set<nat>)
      requires Valid() && i < |archives| && archives[i].flight != [] && archives[i].file.Some? && !archives[i].reset
      requires forall e <- archives[i].flight :: e.off in found ==> !e.written
      modifies this`archives, this`run
      ensures Valid() && run == old(run) + [Append(i, found)]
      ensures Enabled(old(View()), Append(i, found)) && View() == Step(old(View()), Append(i, found))
      ensures var a := old(archives[i]);
              archives == old(archives)[i := a.(flight := MarkWritten(a.flight, found), wrote := true,
                                                file := Some(a.file.value + AppendedSizes(a.flight, found)))]
    {
      hide Sound, CanRun, After, GoodArchive, SumOver, Offsets, MarkWritten, AppendedSizes;
      ghost var before := View();
      var a := archives[i];
      archives := archives[i := a.(flight := MarkWritten(a.flight, found), wrote := true,
                                   file := Some(a.file.value + AppendedSizes(a.flight, found)))];
      Note(Append(i, found), before);
    }

    /** Writes the flight into the archive's file, appending or replacing it. `skipped` are
        offsets the append finds in the file. */
    method WriteFlight(i: nat, replace: bool, skipped: set<nat>) returns (ghost act: Action)
      requires Valid() && i < |archives| && archives[i].flight != []
      modifies this`archives, this`run
      ensures Valid() && run == old(run) + [act]
      ensures (act.Replace? || act.Append?) && act.i == i
      ensures Enabled(old(View()), act) && View() == Step(old(View()), act)
      ensures act.Replace? <==> replace || old(archives[i].reset) || old(archives[i].file.None?)
      ensures archives == old(archives)[i := archives[i]] && |archives| == old(|archives|)
      ensures Wrote(old(archives[i]), archives[i], act.Replace?, skipped)
    {
      FlightIsDistinct(i);
      hide Valid, View, Step, Enabled, SumOver, Offsets, MarkWritten, AppendedSizes, DistinctOffsets, Wrote;
      var a := archives[i];
      if replace || a.reset || a.file.None? {
        WroteWhole(a, skipped);
        ReplaceFile(i);
        act := Replace(i);
      } else {
        var found := UnwrittenOf(a.flight, skipped);
        WroteMore(a, skipped, found);
        AppendFlight(i, found);
        act := Append(i, found);
      }
    }

    /** A checksum or mapped-I/O failure condemns the mapped generation. */
    method InvalidateArchive(i: nat)
      requires Valid() && i < |archives| && archives[i].view
      modifies this`archives, this`run
      ensures Valid() && View() == Step(old(View()), Invalidate(i)) && old(run) <= run
      ensures archives == old(archives)[i := old(archives[i]).(invalid := true)]
    {
      hide Sound, CanRun, After, GoodArchive, SumOver, Offsets;
      ghost var before := View();
      archives := archives[i := archives[i].(invalid := true)];
      Note(Invalidate(i), before);
    }

    /** The flight rejoins the queue with its charges. */
    method RequeueFlight(i: nat)
      requires Valid() && i < |archives| && EnabledOn(archives[i], Requeue(i))
      modifies this`archives, this`run
      ensures Valid() && View() == Step(old(View()), Requeue(i)) && old(run) <= run
      ensures var a := old(archives[i]);
              archives == old(archives)[i := a.(flight := [], queue := a.queue + a.flight)]
    {
      hide Sound, CanRun, After, GoodArchive, SumOver, Offsets;
      ghost var before := View();
      var a := archives[i];
      archives := archives[i := a.(flight := [], queue := a.queue + a.flight)];
      Note(Requeue(i), before);
    }

    /** Writes and maps one flight, or returns it to the queue, or gives it up. */
    method FlushArchive(i: nat, fortune: Fortune)
      requires Valid() && NothingHeld() && i < |archives| && archives[i].flight != []
      modifies this
      ensures Valid() && NothingHeld() && old(run) <= run && |archives| == old(|archives|)
      ensures archives[i].flight == []
      ensures forall j :: 0 <= j < |archives| && j != i ==> archives[j] == old(archives[j])
      ensures requiredHeadroom == old(requiredHeadroom) && totalCacheBytes == old(totalCacheBytes)
      ensures var a, b := old(archives[i]), archives[i];
              var invalid := a.invalid || (fortune.fails && a.view);
              if !fortune.loadActive && fortune.written && fortune.mapped && (a.reset || !invalid) then
                && b.queue == a.queue && b.buffered == a.buffered - Offsets(a.flight)
                && b.view && b.file.Some? && !b.invalid
                && pendingBytes == old(pendingBytes)
              else if fortune.outOfMemory then
                && b.buffered == a.buffered - Offsets(a.flight) && committedReservations == old(committedReservations)
                && |b.queue| == |a.queue| && b.view == a.view && b.invalid == invalid
              else
                && SameEntries(a.queue + a.flight, b.queue) && b.buffered == a.buffered
                && b.view == a.view && b.invalid == invalid
                && pendingBytes == old(pendingBytes) && committedReservations == old(committedReservations)
    {
      hide Valid, View, Step, StepArchive, Enabled, Transferred, SumOver, Offsets, MarkWritten, AppendedSizes;
      var mapped := false;
      if !fortune.loadActive && fortune.written {
        ghost var _ := WriteFlight(i, fortune.rewrite, fortune.found);
        mapped := fortune.mapped;
      }
      if fortune.fails && archives[i].view {
        InvalidateArchive(i);
      }
      if mapped && (archives[i].reset || !archives[i].invalid) {
        CommitFlight(i);
      } else if fortune.outOfMemory {
        DropFlight(i);
      } else {
        RequeueFlight(i);
      }
    }

    /** Takes the queues of all archives under one lock. A flight replaces the file if that
        is condemned, not mapped, or `stale`: of an older session or under another path. */
    method TakeQueues(stale: set<nat>)
      requires Valid() && NothingHeld() && NothingInFlight()
      modifies this`archives, this`run
      ensures Valid() && NothingHeld() && old(run) <= run && |archives| == old(|archives|)
      ensures forall i :: 0 <= i < |archives| ==>
                var a := old(archives[i]);
                archives[i] == if a.queue == [] then a
                               else a.(queue := [], flight := a.queue, wrote := false,
                                       reset := a.invalid || !a.view || i in stale)
    {
      hide Sound, CanRun, After, GoodArchive, SumOver, Offsets;
      for i := 0 to |archives|
        invariant Valid() && NothingHeld() && old(run) <= run && |archives| == old(|archives|)
        invariant forall j :: i <= j < |archives| ==> archives[j] == old(archives[j])
        invariant forall j :: 0 <= j < i ==>
                    var a := old(archives[j]);
                    archives[j] == if a.queue == [] then a
                                   else a.(queue := [], flight := a.queue, wrote := false,
                                           reset := a.invalid || !a.view || j in stale)
      {
        var a := archives[i];
        if a.queue != [] {
          ghost var before := View();
          archives := archives[i := a.(queue := [], flight := a.queue, wrote := false,
                                       reset := a.invalid || !a.view || i in stale)];
          Note(Snapshot(i, i in stale), before);
        }
      }
    }

    /** One whole flush. Every queue is taken, and every flight ends committed, requeued or
        given up, as its fortune decides; nothing stays in flight. A committed archive has a
        usable file again, unless the size limit then takes it. */
    method FlushToDisk(fortunes: nat -> Fortune, weather: Weather)
      requires Valid() && NothingHeld() && NothingInFlight()
      requires forall k :: 0 <= k < |weather.before.order| ==> weather.before.order[k] < |archives|
      requires forall k :: 0 <= k < |weather.after.order| ==> weather.after.order[k] < |archives|
      modifies this
      ensures Valid() && NothingHeld() && NothingInFlight()
      ensures old(run) <= run && |archives| == old(|archives|)
      ensures weather.stopped ==> View() == old(View()) && requiredHeadroom == old(requiredHeadroom)
      ensures !weather.stopped && !weather.planFails && !weather.loadAfter && weather.scan.complete ==>
                committedReservations == 0
      ensures !weather.stopped && !weather.planFails && !weather.loadAfter && cap > 0
                && !weather.after.loadAtEntry && !weather.after.loadAfterScan && !weather.after.loadAfterRemoval
                && |weather.after.order| <= weather.after.loadAt
                && weather.after.first.complete && weather.after.second.complete ==>
                  || SumOver(archives, FileBytes) <= cap
                  || forall k :: 0 <= k < |weather.after.order| ==>
                       var i := weather.after.order[k];
                       archives[i].view && archives[i].buffered == {} ==> i !in weather.after.deletable
      ensures !weather.stopped ==>
                forall i :: 0 <= i < |archives| && old(archives[i].queue) == [] ==>
                  var a, b := old(archives[i]), archives[i];
                  && (b == a || (b.file.None? && !b.view
                                 && b == a.(file := None, view := false, invalid := b.invalid)))
                  && (i in weather.retirable && a.invalid && a.buffered == {} ==>
                        b.file.None? && !b.view && !b.invalid)
      ensures !weather.stopped ==>
                forall i :: 0 <= i < |archives| && old(archives[i].queue) != [] ==>
                  var a, b, f := old(archives[i]), archives[i], fortunes(i);
                  if weather.planFails then
                    SameEntries(a.queue, b.queue) && b.buffered == a.buffered
                  else if !f.loadActive && f.written && f.mapped
                          && (a.invalid || !a.view || i in weather.stale || !f.fails) then
                    && b.queue == [] && b.buffered == {} && !b.invalid
                    && (if b.view then b.file.Some?
                        else b.file.None? && cap > 0 && !weather.loadAfter && i in weather.after.deletable)
                  else if f.outOfMemory then
                    b.queue == [] && b.buffered == {}
                  else
                    SameEntries(a.queue, b.queue) && b.buffered == a.buffered
    {
      hide Valid, View, Trimmed, SumOver, Offsets, Step, EndsAs, Fated, Waits, AllWait, Idles, AllIdle;
      if weather.stopped {
        return;
      }
      ghost var was := archives;
      BufferIsEntries();
      MakeRoom(weather);
      ghost var mid := archives;
      if weather.planFails {
        WaitingIsSame(was, mid);
        IdleSpelled(was, mid, weather.retirable);
        return;
      }
      TakeQueues(weather.stale);
      ghost var taken := archives;
      BufferIsEntries();
      WriteFlights(fortunes);
      ghost var flushed := archives;
      Tidy(weather);
      forall i | 0 <= i < |archives| && was[i].queue != []
        ensures EndsAs(was[i], archives[i], i, fortunes(i), weather, cap)
      {
        WaitsAt(was, mid, i);
        if archives != flushed {
          TrimmedAt(flushed, archives, weather.after, i);
        }
        FateOf(was[i], mid[i], taken[i], flushed[i], archives[i], i, fortunes(i), weather, cap);
      }
      EndsSpelled(was, archives, fortunes, weather, cap);
      IdleEnds(was, mid, taken, flushed, archives, fortunes, weather);
      IdleSpelled(was, archives, weather.retirable);
    }

    /** Before the queues are taken: room under the cap, and condemned files out of the way. */
    method MakeRoom(weather: Weather)
      requires Valid() && NothingHeld() && NothingInFlight()
      requires forall k :: 0 <= k < |weather.before.order| ==> weather.before.order[k] < |archives|
      requires forall i :: 0 <= i < |archives| && archives[i].queue != [] ==> archives[i].buffered != {}
      modifies this
      ensures Valid() && NothingHeld() && NothingInFlight() && old(run) <= run && |archives| == old(|archives|)
      ensures AllWait(old(archives), archives)
      ensures AllIdle(old(archives), archives, weather.retirable)
      ensures !(cap > 0 && (old(requiredHeadroom) > 0 || old(totalCacheBytes) >= cap)) ==>
                && requiredHeadroom == old(requiredHeadroom) && totalCacheBytes == old(totalCacheBytes)
                && committedReservations == old(committedReservations)
      ensures cap > 0 && (old(requiredHeadroom) > 0 || old(totalCacheBytes) >= cap)
              && !weather.before.loadAtEntry && weather.before.first.complete ==>
                committedReservations == 0
    {
      hide Valid, View, Trimmed, SumOver, Offsets, Step;
      ghost var was := archives;
      if cap > 0 && (requiredHeadroom > 0 || totalCacheBytes >= cap) {
        var _, _, _ := EnforceSizeLimit(weather.before);
      } else {
        TrimsCompose(was, was, was, weather.before);
      }
      TrimKeepsWaiting(was, archives, weather.before);
      ghost var mid := archives;
      RetireInvalid(weather.retirable);
      TrimAndRetire(was, mid, archives, weather.before, weather.retirable);
    }

    method WriteFlights(fortunes: nat -> Fortune)
      requires Valid() && NothingHeld()
      modifies this
      ensures Valid() && NothingHeld() && NothingInFlight() && old(run) <= run && |archives| == old(|archives|)
      ensures forall j :: 0 <= j < |archives| ==> Fated(old(archives[j]), archives[j], fortunes(j))
    {
      hide Valid, View, SumOver, Offsets, Step;
      for i := 0 to |archives|
        invariant Valid() && NothingHeld() && old(run) <= run && |archives| == old(|archives|)
        invariant forall j :: 0 <= j < i ==>
                    archives[j].flight == [] && Fated(old(archives[j]), archives[j], fortunes(j))
        invariant forall j :: i <= j < |archives| ==> archives[j] == old(archives[j])
      {
        if archives[i].flight != [] {
          FlushArchive(i, fortunes(i));
        }
      }
    }

    /** After the flights: the books, and room under the cap. */
    method Tidy(weather: Weather)
      requires Valid() && NothingHeld() && NothingInFlight()
      requires forall k :: 0 <= k < |weather.after.order| ==> weather.after.order[k] < |archives|
      modifies this
      ensures Valid() && NothingHeld() && NothingInFlight() && old(run) <= run && |archives| == old(|archives|)
      ensures archives == old(archives)
              || (cap > 0 && !weather.loadAfter && Trimmed(old(archives), archives, weather.after))
      ensures weather.loadAfter ==> View() == old(View()) && requiredHeadroom == old(requiredHeadroom)
      ensures !weather.loadAfter && weather.scan.complete ==> committedReservations == 0
      ensures !weather.loadAfter && cap > 0
                && !weather.after.loadAtEntry && !weather.after.loadAfterScan && !weather.after.loadAfterRemoval
                && |weather.after.order| <= weather.after.loadAt
                && weather.after.first.complete && weather.after.second.complete ==>
                  || SumOver(archives, FileBytes) <= cap
                  || forall k :: 0 <= k < |weather.after.order| ==>
                       var i := weather.after.order[k];
                       archives[i].view && archives[i].buffered == {} ==> i !in weather.after.deletable
    {
      hide Valid, View, Trimmed, SumOver, Offsets, Step, EvictedInOrder;
      if !weather.loadAfter {
        ReconcileDiskAccounting(weather.scan);
        if cap > 0 {
          var _, _, _ := EnforceSizeLimit(weather.after);
        }
      }
    }
  }

  /** The files after those no archive has mapped were deleted, as far as they could be. */
  function WithoutUnowned(was: seq<Archive>, gone: set<nat>): seq<Archive> {
    seq(|was|, i requires 0 <= i < |was| =>
      if i in gone && !was[i].view && was[i].file.Some?
      then was[i].(file := None, queue := Unmark(was[i].queue)) else was[i])
  }

  /** The total after a scan. */
  function Scanned(scan: Scan, files: seq<Archive>, total: nat): nat {
    if scan.complete then SumOver(files, FileBytes) + scan.strays else total
  }

  /** What `EvictInOrder` did to these files, whose bytes were taken to be `total`. */
  ghost predicate EvictedInOrder(was: seq<Archive>, now: seq<Archive>, pass: Pass, total: nat, target: nat,
                                 reached: nat, interrupted: bool, estimate: nat) {
    && |now| == |was| && reached <= |pass.order|
    && (forall k :: 0 <= k < |pass.order| ==> pass.order[k] < |was|)
    && (forall i :: 0 <= i < |was| ==>
          now[i] == if was[i].view && was[i].buffered == {} && i in pass.deletable && i in pass.order[..reached]
                    then was[i].(file := None, view := false, invalid := false) else was[i])
    && SumOver(now, FileBytes) <= SumOver(was, FileBytes)
    && var freed := SumOver(was, FileBytes) - SumOver(now, FileBytes);
    && estimate == Max(freed, total) - freed
    && (reached > 0 ==>
          var i := pass.order[reached - 1];
          var last := if was[i].view && was[i].buffered == {} && i in pass.deletable
                         && i !in pass.order[..reached - 1]
                      then FileBytes(was[i]) else 0;
          target + freed < total + last)
    && (interrupted <==> pass.loadAt <= reached < |pass.order|)
    && (!interrupted ==> reached == |pass.order| || estimate <= target)
  }

  /** Without a load: the files are at the target, or nothing that could be evicted is left. */
  lemma RoomOrNothingIdle(was: seq<Archive>, now: seq<Archive>, pass: Pass, total: nat, target: nat,
                          reached: nat, interrupted: bool, estimate: nat)
    requires EvictedInOrder(was, now, pass, total, target, reached, interrupted, estimate)
    ensures SumOver(was, FileBytes) <= total && |pass.order| <= pass.loadAt ==>
              || SumOver(now, FileBytes) <= target
              || forall k :: 0 <= k < |pass.order| ==>
                   var i := pass.order[k];
                   now[i].view && now[i].buffered == {} ==> i !in pass.deletable
  {
    hide SumOver;
  }

  lemma EvictedOnly(was: seq<Archive>, now: seq<Archive>, pass: Pass, total: nat, target: nat,
                    reached: nat, interrupted: bool, estimate: nat)
    requires EvictedInOrder(was, now, pass, total, target, reached, interrupted, estimate)
    ensures |now| == |was| && forall i :: 0 <= i < |was| ==> KeptOrEvicted(was[i], now[i], i, pass.deletable)
  {
    hide SumOver;
  }

  /** Files that eviction may take: usable archives with nothing buffered. */
  ghost predicate KeptOrEvicted(was: Archive, now: Archive, i: nat, deletable: set<nat>) {
    || now == was
    || (was.view && was.buffered == {} && i in deletable
        && now == was.(file := None, view := false, invalid := false))
  }

  /** Each archive is as it was, or lost a file it had not mapped, or was evicted. */
  ghost predicate Trimmed(was: seq<Archive>, now: seq<Archive>, pass: Pass) {
    |now| == |was| &&
    forall i :: 0 <= i < |now| ==>
      || KeptOrEvicted(was[i], now[i], i, pass.deletable)
      || (!was[i].view && was[i].file.Some? && i in pass.gone
          && now[i] == was[i].(file := None, queue := Unmark(was[i].queue)))
  }

  lemma TrimsCompose(was: seq<Archive>, mid: seq<Archive>, now: seq<Archive>, pass: Pass)
    requires |now| == |mid| == |was|
    requires forall i :: 0 <= i < |was| ==>
               mid[i] == was[i]
               || (!was[i].view && was[i].file.Some? && i in pass.gone
                   && mid[i] == was[i].(file := None, queue := Unmark(was[i].queue)))
    requires forall i :: 0 <= i < |now| ==> KeptOrEvicted(mid[i], now[i], i, pass.deletable)
    ensures Trimmed(was, now, pass)
    ensures forall i :: 0 <= i < |was| && was[i].flight == [] ==> now[i].flight == []
  {
    hide Unmark;
  }

  /** The same payloads and charges, wherever their bytes are. */
  ghost predicate SameEntries(was: seq<Entry>, now: seq<Entry>) {
    |now| == |was| &&
    forall k :: 0 <= k < |was| ==>
      now[k].off == was[k].off && now[k].size == was[k].size && now[k].charge == was[k].charge
  }

  /** Nothing happened to what is queued, nor to what decides how it will be written. */
  ghost predicate Waits(was: Archive, now: Archive) {
    && SameEntries(was.queue, now.queue) && now.flight == was.flight && now.buffered == was.buffered
    && now.view == was.view && now.invalid == was.invalid
  }

  ghost predicate AllWait(was: seq<Archive>, now: seq<Archive>) {
    |now| == |was| && forall i :: 0 <= i < |was| && was[i].queue != [] ==> Waits(was[i], now[i])
  }

  /** An archive with nothing queued is as it was, or without a file; it is, if it was
      condemned and its file could be deleted. */
  ghost predicate Idles(a: Archive, b: Archive, retires: bool) {
    && (b == a || (b.file.None? && !b.view && b == a.(file := None, view := false, invalid := b.invalid)))
    && (retires && a.invalid && a.buffered == {} ==> b.file.None? && !b.view && !b.invalid)
  }

  ghost predicate AllIdle(was: seq<Archive>, now: seq<Archive>, retirable: set<nat>) {
    |now| == |was| &&
    forall i :: 0 <= i < |was| && was[i].queue == [] ==> Idles(was[i], now[i], i in retirable)
  }

  lemma IdleSpelled(was: seq<Archive>, now: seq<Archive>, retirable: set<nat>)
    requires AllIdle(was, now, retirable)
    ensures forall i :: 0 <= i < |was| && was[i].queue == [] ==>
              var a, b := was[i], now[i];
              && (b == a || (b.file.None? && !b.view
                             && b == a.(file := None, view := false, invalid := b.invalid)))
              && (i in retirable && a.invalid && a.buffered == {} ==> b.file.None? && !b.view && !b.invalid)
  {}

  /** A flush passes them by. */
  lemma IdleEnds(was: seq<Archive>, mid: seq<Archive>, taken: seq<Archive>, flushed: seq<Archive>,
                 now: seq<Archive>, fortunes: nat -> Fortune, weather: Weather)
    requires AllIdle(was, mid, weather.retirable) && |taken| == |mid| == |flushed|
    requires forall i :: 0 <= i < |was| ==> was[i].flight == []
    requires forall i :: 0 <= i < |mid| && mid[i].queue == [] ==> taken[i] == mid[i]
    requires forall i :: 0 <= i < |mid| ==> Fated(taken[i], flushed[i], fortunes(i))
    requires now == flushed || Trimmed(flushed, now, weather.after)
    ensures AllIdle(was, now, weather.retirable)
  {
    forall i | 0 <= i < |was| && was[i].queue == []
      ensures Idles(was[i], now[i], i in weather.retirable)
    {
      assert Idles(was[i], mid[i], i in weather.retirable) && Fated(taken[i], flushed[i], fortunes(i));
      UnmarkIsSame([], was[i].queue);
      hide SameEntries, Waits, Unmark, Offsets;
    }
  }

  lemma TrimAndRetire(was: seq<Archive>, mid: seq<Archive>, now: seq<Archive>, pass: Pass, retirable: set<nat>)
    requires Trimmed(was, mid, pass) && |now| == |mid|
    requires forall i :: 0 <= i < |mid| ==>
               now[i] == if mid[i].invalid && mid[i].queue == [] && mid[i].buffered == {} && i in retirable
                         then mid[i].(file := None, view := false, invalid := false) else mid[i]
    ensures AllIdle(was, now, retirable)
  {
    forall i | 0 <= i < |was| && was[i].queue == []
      ensures Idles(was[i], now[i], i in retirable)
    {
      UnmarkIsSame([], was[i].queue);
    }
  }

  lemma TrimKeepsWaiting(was: seq<Archive>, now: seq<Archive>, pass: Pass)
    requires Trimmed(was, now, pass)
    requires forall i :: 0 <= i < |was| && was[i].queue != [] ==> was[i].buffered != {}
    ensures AllWait(was, now)
  {
  }

  /** What became of one flight. */
  ghost predicate Fated(a: Archive, b: Archive, f: Fortune) {
    var invalid := a.invalid || (f.fails && a.view);
    if a.flight == [] then b == a
    else if !f.loadActive && f.written && f.mapped && (a.reset || !invalid) then
      && b.queue == a.queue && b.buffered == a.buffered - Offsets(a.flight) && b.view && b.file.Some? && !b.invalid
    else if f.outOfMemory then
      && |b.queue| == |a.queue| && b.buffered == a.buffered - Offsets(a.flight)
    else
      SameEntries(a.queue + a.flight, b.queue) && b.buffered == a.buffered
  }

  /** What became of one queue. */
  ghost predicate EndsAs(a: Archive, b: Archive, i: nat, f: Fortune, weather: Weather, cap: nat) {
    if !f.loadActive && f.written && f.mapped && (a.invalid || !a.view || i in weather.stale || !f.fails) then
      && b.queue == [] && b.buffered == {} && !b.invalid
      && (if b.view then b.file.Some?
          else b.file.None? && cap > 0 && !weather.loadAfter && i in weather.after.deletable)
    else if f.outOfMemory then
      b.queue == [] && b.buffered == {}
    else
      SameEntries(a.queue, b.queue) && b.buffered == a.buffered
  }

  lemma TrimmedAt(was: seq<Archive>, now: seq<Archive>, pass: Pass, i: nat)
    requires Trimmed(was, now, pass) && i < |was|
    ensures KeptOrEvicted(was[i], now[i], i, pass.deletable)
            || (!was[i].view && now[i] == was[i].(file := None, queue := Unmark(was[i].queue)))
  {}

  lemma WaitsAt(was: seq<Archive>, now: seq<Archive>, i: nat)
    requires AllWait(was, now) && i < |was| && was[i].queue != []
    ensures Waits(was[i], now[i]) && now[i].queue != []
  {}

  lemma WaitingIsSame(was: seq<Archive>, now: seq<Archive>)
    requires AllWait(was, now)
    ensures forall i :: 0 <= i < |was| && was[i].queue != [] ==>
              SameEntries(was[i].queue, now[i].queue) && now[i].buffered == was[i].buffered
  {}

  lemma EndsSpelled(was: seq<Archive>, now: seq<Archive>, fortunes: nat -> Fortune, weather: Weather, cap: nat)
    requires |was| == |now| && !weather.planFails
    requires forall i :: 0 <= i < |was| && was[i].queue != [] ==>
               EndsAs(was[i], now[i], i, fortunes(i), weather, cap)
    ensures forall i :: 0 <= i < |was| && was[i].queue != [] ==>
              var a, b, f := was[i], now[i], fortunes(i);
              if !f.loadActive && f.written && f.mapped
                 && (a.invalid || !a.view || i in weather.stale || !f.fails) then
                && b.queue == [] && b.buffered == {} && !b.invalid
                && (if b.view then b.file.Some?
                    else b.file.None? && cap > 0 && !weather.loadAfter && i in weather.after.deletable)
              else if f.outOfMemory then
                b.queue == [] && b.buffered == {}
              else
                SameEntries(a.queue, b.queue) && b.buffered == a.buffered
  {}

  /** From the queue over the flight to its fate. */
  lemma FlightEnds(a: Archive, mid: Archive, taken: Archive, b: Archive, i: nat, f: Fortune,
                   weather: Weather, cap: nat)
    requires a.queue != [] && Waits(a, mid)
    requires taken == mid.(queue := [], flight := mid.queue, wrote := false,
                           reset := mid.invalid || !mid.view || i in weather.stale)
    requires taken.buffered == Offsets(taken.queue) + Offsets(taken.flight)
    requires Fated(taken, b, f)
    ensures EndsAs(a, b, i, f, weather, cap)
  {
    NoOffsets();
    hide Offsets;
    assert taken.queue + taken.flight == taken.flight;
  }

  /** And on to the last eviction pass. */
  lemma FateOf(a: Archive, mid: Archive, taken: Archive, flushed: Archive, b: Archive, i: nat, f: Fortune,
               weather: Weather, cap: nat)
    requires a.queue != [] && a.buffered != {} && a.flight == [] && Waits(a, mid)
    requires taken == mid.(queue := [], flight := mid.queue, wrote := false,
                           reset := mid.invalid || !mid.view || i in weather.stale)
    requires taken.buffered == Offsets(taken.queue) + Offsets(taken.flight)
    requires Fated(taken, flushed, f)
    requires b == flushed
             || (cap > 0 && !weather.loadAfter
                 && (KeptOrEvicted(flushed, b, i, weather.after.deletable)
                     || (!flushed.view && b == flushed.(file := None, queue := Unmark(flushed.queue)))))
    ensures EndsAs(a, b, i, f, weather, cap)
  {
    hide Offsets, Fated, Waits, EndsAs, KeptOrEvicted, Unmark;
    FlightEnds(a, mid, taken, flushed, i, f, weather, cap);
    if b != flushed {
      TrimEnds(a, flushed, b, i, f, weather, cap);
    }
  }

  lemma TrimEnds(a: Archive, flushed: Archive, b: Archive, i: nat, f: Fortune, weather: Weather, cap: nat)
    requires a.buffered != {} && EndsAs(a, flushed, i, f, weather, cap) && cap > 0 && !weather.loadAfter
    requires KeptOrEvicted(flushed, b, i, weather.after.deletable)
             || (!flushed.view && b == flushed.(file := None, queue := Unmark(flushed.queue)))
    ensures EndsAs(a, b, i, f, weather, cap)
  {
    UnmarkIsSame(a.queue, flushed.queue);
    hide Unmark, SameEntries;
  }

  lemma UnmarkIsSame(was: seq<Entry>, now: seq<Entry>)
    ensures SameEntries(was, now) ==> SameEntries(was, Unmark(now))
    ensures now == [] ==> Unmark(now) == []
  {}

  lemma NoOffsets()
    ensures Offsets([]) == {}
  {}

  /** Offsets that are written already cannot be skipped in addition. */
  lemma {:induction false} SkipsUnwritten(es: seq<Entry>, skipped: set<nat>, found: set<nat>)
    requires forall e <- es :: e.written || e.off in found <==> e.written || e.off in skipped
    ensures AppendedSizes(es, found) == AppendedSizes(es, skipped)
  {
    if es != [] {
      var m := |es| - 1;
      assert forall e <- es[..m] :: e in es;
      assert es[m] in es;
      SkipsUnwritten(es[..m], skipped, found);
    }
  }

  /** The skipped offsets of entries that are not written already. */
  method UnwrittenOf(es: seq<Entry>, skipped: set<nat>) returns (found: set<nat>)
    requires DistinctOffsets(es)
    ensures AppendedSizes(es, found) == AppendedSizes(es, skipped)
    ensures |MarkWritten(es, found)| == |es| && forall e <- es :: e.off in found ==> !e.written
    ensures forall k :: 0 <= k < |es| ==>
              MarkWritten(es, found)[k] == es[k].(written := es[k].written || es[k].off !in skipped)
  {
    var written := set e | e in es && e.written :: e.off;
    found := skipped - written;
    forall k | 0 <= k < |es| && !es[k].written ensures es[k].off !in written {
      forall e | e in es && e.written ensures e.off != es[k].off {
        var j :| 0 <= j < |es| && es[j] == e;
      }
    }
    SkipsUnwritten(es, skipped, found);
  }

  /** A file write and its bytes: whole with header and index, or the missing entries. */
  ghost predicate Wrote(a: Archive, b: Archive, whole: bool, skipped: set<nat>) {
    && b == a.(flight := b.flight, file := b.file, wrote := true)
    && |b.flight| == |a.flight| && Offsets(b.flight) == Offsets(a.flight)
    && (forall k :: 0 <= k < |b.flight| ==>
          b.flight[k] == a.flight[k].(written := whole || a.flight[k].written || a.flight[k].off !in skipped))
    && (whole || a.file.Some?)
    && b.file == Some(if whole then 44 + 20 * a.entryCount + SumOver(a.flight, SizeOf)
                      else a.file.value + AppendedSizes(a.flight, skipped))
  }

  lemma WroteWhole(a: Archive, skipped: set<nat>)
    requires DistinctOffsets(a.flight)
    ensures Wrote(a, a.(flight := MarkWritten(a.flight, {}), wrote := true,
                        file := Some(44 + 20 * a.entryCount + SumOver(a.flight, SizeOf))), true, skipped)
  {
    MarkOffsets(a.flight, {});
  }

  lemma WroteMore(a: Archive, skipped: set<nat>, found: set<nat>)
    requires DistinctOffsets(a.flight) && a.file.Some?
    requires AppendedSizes(a.flight, found) == AppendedSizes(a.flight, skipped)
    requires forall k :: 0 <= k < |a.flight| ==>
               MarkWritten(a.flight, found)[k]
               == a.flight[k].(written := a.flight[k].written || a.flight[k].off !in skipped)
    ensures Wrote(a, a.(flight := MarkWritten(a.flight, found), wrote := true,
                        file := Some(a.file.value + AppendedSizes(a.flight, found))), false, skipped)
  {
    MarkOffsets(a.flight, found);
  }

  /** Adds up the cache files a directory scan finds. */
  method ScanFiles(archives: seq<Archive>, strays: nat) returns (total: nat)
    ensures total == SumOver(archives, FileBytes) + strays
  {
    total := strays;
    for k := 0 to |archives|
      invariant total == SumOver(archives[..k], FileBytes) + strays
    {
      assert archives[..k + 1][..k] == archives[..k];
      total := total + FileBytes(archives[k]);
    }
    assert archives[..|archives|] == archives;
  }

  /** Takes the offsets of a flight out of the buffer and adds up what it was charged,
      in all and beyond its payloads. */
  method Release(flight: seq<Entry>, buffered: set<nat>)
      returns (left: set<nat>, charges: nat, excess: nat)
    ensures left == buffered - Offsets(flight)
    ensures charges == SumOver(flight, ChargeOf) && excess == SumOver(flight, Excess)
  {
    left, charges, excess := buffered, 0, 0;
    for k := 0 to |flight|
      invariant left == buffered - Offsets(flight[..k])
      invariant charges == SumOver(flight[..k], ChargeOf) && excess == SumOver(flight[..k], Excess)
    {
      PrefixGrows(flight, k);
      var e := flight[k];
      left := left - {e.off};
      charges := charges + e.charge;
      if e.charge > e.size {
        excess := excess + (e.charge - e.size);
      }
    }
    assert flight[..|flight|] == flight;
  }

  lemma PrefixGrows(es: seq<Entry>, k: nat)
    requires k < |es|
    ensures es[..k + 1] == es[..k] + [es[k]]
    ensures SumOver(es[..k + 1], ChargeOf) == SumOver(es[..k], ChargeOf) + es[k].charge
    ensures SumOver(es[..k + 1], Excess) == SumOver(es[..k], Excess) + Excess(es[k])
    ensures Offsets(es[..k + 1]) == Offsets(es[..k]) + {es[k].off}
  {
    assert es[..k + 1][..k] == es[..k];
    forall off | off in Offsets(es[..k]) + {es[k].off} ensures off in Offsets(es[..k + 1]) {
      if off in Offsets(es[..k]) {
        var i :| 0 <= i < k && es[..k][i].off == off;
        assert es[..k + 1][i].off == off;
      } else {
        assert es[..k + 1][k].off == off;
      }
    }
  }
}
