/** The cache size limit and the eviction headroom (Skyrim/src/CacheLimitPolicy.h;
    the demand handling of RecordDecompressed and EnforceSizeLimit in DecompCache.cpp). */
module CacheLimit {
  import opened Basics
  import opened ByteCodec

  const MAX_U64: nat := TWO64 - 1
  const BYTES_PER_MIB: nat := 1024 * 1024

  datatype LimitMode = Unavailable | Automatic | Configured | Clamped
  datatype Decision = Decision(effectiveBytes: U64, mode: LimitMode)

  /** The machine sum, clamped instead of wrapped. */
  function AddSaturating(lhs: U64, rhs: U64): (r: U64)
    ensures r == Min(lhs + rhs, MAX_U64)
  {
    if rhs > MAX_U64 - lhs then MAX_U64 else lhs + rhs
  }

  function MiBToBytesSaturating(mib: U64): (r: U64)
    ensures r == Min(mib * BYTES_PER_MIB, MAX_U64)
  {
    if mib > MAX_U64 / BYTES_PER_MIB then MAX_U64 else mib * BYTES_PER_MIB
  }

  function RequiredHeadroom(cap: U64, pending: U64, bytes: U64): U64 {
    Min(cap, AddSaturating(pending, bytes))
  }

  function EvictionTarget(cap: U64, headroom: U64): U64 { cap - Min(headroom, cap) }

  function Decide(configuredMiB: U64, physicalBytes: U64): Decision {
    var ceiling := physicalBytes / 4;
    var configured := MiBToBytesSaturating(configuredMiB);
    if ceiling == 0 then Decision(0, Unavailable)
    else if configuredMiB == 0 then Decision(ceiling, Automatic)
    else Decision(Min(configured, ceiling), if configured > ceiling then Clamped else Configured)
  }

  /** The limit never passes a quarter of the memory, is positive whenever it is
      available, is that quarter when nothing is configured, and otherwise follows the
      configured number of MiB exactly, as if the product could not overflow, until the
      quarter clamps it. */
  lemma DecideIsTheBoundedWish(configuredMiB: U64, physicalBytes: U64)
    ensures var d := Decide(configuredMiB, physicalBytes);
            && 4 * d.effectiveBytes <= physicalBytes
            && (d.mode.Unavailable? <==> physicalBytes < 4)
            && (d.mode.Unavailable? <==> d.effectiveBytes == 0)
            && (physicalBytes >= 4 && configuredMiB == 0 ==>
                  d.mode.Automatic? && d.effectiveBytes == physicalBytes / 4)
            && (physicalBytes >= 4 && configuredMiB > 0 ==>
                  && (d.mode.Clamped? <==> configuredMiB * BYTES_PER_MIB > physicalBytes / 4)
                  && (d.mode.Configured? <==> configuredMiB * BYTES_PER_MIB <= physicalBytes / 4)
                  && d.effectiveBytes == Min(configuredMiB * 1_048_576, physicalBytes / 4))
  {
  }

  /** The disk-cap half of the admission test. */
  predicate FitsCap(cap: U64, total: U64, pending: U64, bytes: U64) {
    cap != 0 && total < cap && pending <= cap - total && bytes <= cap - total - pending
  }

  /** Once the files are down to the target of a recorded demand, the rejected entry fits
      beside the bytes that were pending, exactly when it could ever fit beside them. */
  lemma MetDemandFitsIff(cap: U64, total: U64, pending: U64, bytes: U64)
    requires 0 < bytes
    requires total <= EvictionTarget(cap, RequiredHeadroom(cap, pending, bytes))
    ensures FitsCap(cap, total, pending, bytes) <==> pending + bytes <= cap
  {
  }

  /** A target above that of the demand is not enough: the headroom is the least that
      guarantees the admission. */
  lemma HeadroomIsLeast(cap: U64, pending: U64, bytes: U64, headroom: U64)
    requires 0 < bytes && pending + bytes <= cap
    ensures (forall total: U64 :: total <= EvictionTarget(cap, headroom) ==> FitsCap(cap, total, pending, bytes))
            <==> RequiredHeadroom(cap, pending, bytes) <= Min(headroom, cap)
  {
    var edge := EvictionTarget(cap, headroom);
    if forall total: U64 :: total <= EvictionTarget(cap, headroom) ==> FitsCap(cap, total, pending, bytes) {
      assert FitsCap(cap, edge, pending, bytes);
    }
  }

  // -------------------------------------------- which demands can be dropped

  /** `m_requiredHeadroom` and the demand taken over by a running eviction pass. */
  datatype Headroom = Headroom(cap: U64, required: U64, running: bool, requested: U64)

  datatype Event =
    /** A recorder raises the demand; its compare-and-swap loop ends in one write. */
    | Demand(bytes: U64)
    /** A pass takes the demand over. */
    | Begin
    /** The pass ends with this many bytes in all cache files. */
    | End(total: U64)
    /** A load starts; the pass gives up. */
    | GiveUp
    /** An exception ends the pass, and the demand it took over is not put back. */
    | Throw

  predicate Possible(h: Headroom, e: Event) {
    match e
    case Demand(_) => true
    case Begin => !h.running
    case End(_) => h.running
    case GiveUp => h.running
    case Throw => h.running
  }

  function Next(h: Headroom, e: Event): Headroom {
    match e
    case Demand(bytes) => h.(required := Max(h.required, bytes))
    case Begin => h.(required := 0, running := true, requested := h.required)
    case End(total) =>
      if total <= EvictionTarget(h.cap, h.requested) then h.(running := false)
      else h.(required := Max(h.required, h.requested), running := false)
    case GiveUp => h.(required := Max(h.required, h.requested), running := false)
    case Throw => h.(running := false)
  }

  predicate Runs(h: Headroom, run: seq<Event>)
    decreases |run|
  {
    run == [] || (Possible(h, run[0]) && Runs(Next(h, run[0]), run[1..]))
  }

  function Replay(h: Headroom, run: seq<Event>): Headroom
    requires Runs(h, run)
    decreases |run|
  {
    if run == [] then h else Replay(Next(h, run[0]), run[1..])
  }

  /** The demand still waits, or a pass is working on at least that much. */
  predicate Standing(h: Headroom, bytes: U64) {
    bytes <= h.required || (h.running && bytes <= h.requested)
  }

  /** Some pass of the run ended at or under the target of this demand. */
  predicate Met(cap: U64, run: seq<Event>, bytes: U64) {
    exists k :: 0 <= k < |run| && run[k].End? && run[k].total <= EvictionTarget(cap, bytes)
  }

  /** Some pass of the run threw when no waiting demand covered this one. */
  predicate Lost(h: Headroom, run: seq<Event>, bytes: U64)
    requires Runs(h, run)
    decreases |run|
  {
    run != [] && ((run[0].Throw? && h.required < bytes) || Lost(Next(h, run[0]), run[1..], bytes))
  }

  /** A throw loses exactly the demands above those that were recorded meanwhile. */
  lemma ThrowLosesExactly(h: Headroom, bytes: U64)
    requires h.running && Standing(h, bytes)
    ensures Standing(Next(h, Throw), bytes) <==> bytes <= h.required
  {
  }

  /** A demand arises only from a recorder, and goes only with a pass that ends at or under
      its own target, or throws, when nothing recorded meanwhile covers it. */
  lemma StandsIff(h: Headroom, e: Event, bytes: U64)
    requires Possible(h, e)
    ensures Standing(Next(h, e), bytes) <==>
              || (e.Demand? && bytes <= e.bytes)
              || (&& Standing(h, bytes)
                  && (e.Throw? ==> bytes <= h.required)
                  && (e.End? ==> bytes <= h.required || h.cap - Min(h.requested, h.cap) < e.total))
  {
  }

  /** A demand stands until a pass meets it or throws away what it took over. */
  lemma {:induction false} StandingUntilMet(h: Headroom, run: seq<Event>, bytes: U64)
    requires Runs(h, run) && Standing(h, bytes)
    ensures Standing(Replay(h, run), bytes) || Met(h.cap, run, bytes) || Lost(h, run, bytes)
    decreases |run|
  {
    if run != [] {
      var g := Next(h, run[0]);
      if Standing(g, bytes) {
        StandingUntilMet(g, run[1..], bytes);
        if Met(h.cap, run[1..], bytes) {
          var k :| 0 <= k < |run[1..]| && run[1..][k].End?
                   && run[1..][k].total <= EvictionTarget(h.cap, bytes);
          assert run[k + 1] == run[1..][k];
        }
      } else if run[0].Throw? {
        ThrowLosesExactly(h, bytes);
      } else {
        assert run[0].End? && run[0].total <= EvictionTarget(h.cap, bytes);
      }
    }
  }

  /** Whatever recorders, passes and loads do, and in whatever order, a rejected admission
      stays demanded until some pass has made room for it, or has thrown while no later
      demand covered it; that room is enough whenever the entry can fit beside the pending
      bytes at all. */
  lemma DemandIsNeverDropped(h: Headroom, before: seq<Event>, run: seq<Event>, pending: U64, bytes: U64)
    requires 0 < bytes && Runs(h, before)
    requires Runs(Next(Replay(h, before), Demand(RequiredHeadroom(h.cap, pending, bytes))), run)
    ensures var demand := RequiredHeadroom(h.cap, pending, bytes);
            var s := Next(Replay(h, before), Demand(demand));
            || Standing(Replay(s, run), demand)
            || Lost(s, run, demand)
            || exists k :: 0 <= k < |run| && run[k].End? && run[k].total <= EvictionTarget(h.cap, demand)
                           && (pending + bytes <= h.cap <==> FitsCap(h.cap, run[k].total, pending, bytes))
  {
    var demand := RequiredHeadroom(h.cap, pending, bytes);
    ReplayKeepsCap(h, before);
    var s := Next(Replay(h, before), Demand(demand));
    StandingUntilMet(s, run, demand);
    if Met(h.cap, run, demand) {
      var k :| 0 <= k < |run| && run[k].End? && run[k].total <= EvictionTarget(h.cap, demand);
      MetDemandFitsIff(h.cap, run[k].total, pending, bytes);
    }
  }

  /** An exception in the pass that has taken over the only demand: it is gone for good. */
  lemma ThrowDropsADemand()
    ensures var h := Headroom(100, 0, false, 0);
            var run := [Demand(60), Begin, Throw];
            && Runs(h, run) && !Met(h.cap, run, 60)
            && Standing(Replay(h, run[..1]), 60) && !Standing(Replay(h, run), 60)
  {
    var h := Headroom(100, 0, false, 0);
    var run := [Demand(60), Begin, Throw];
    var h1 := Next(h, Demand(60));
    var h2 := Next(h1, Begin);
    One(h2, Throw, []);
    One(h1, Begin, [Throw]);
    One(h, Demand(60), [Begin, Throw]);
    One(h, Demand(60), []);
    assert run == [Demand(60)] + [Begin, Throw] && [Begin, Throw] == [Begin] + [Throw] && run[..1] == [Demand(60)];
  }

  lemma One(h: Headroom, e: Event, run: seq<Event>)
    requires Possible(h, e)
    ensures Runs(Next(h, e), run) ==> Runs(h, [e] + run) && Replay(h, [e] + run) == Replay(Next(h, e), run)
  {
    assert ([e] + run)[1..] == run;
  }

  lemma {:induction false} ReplayKeepsCap(h: Headroom, run: seq<Event>)
    requires Runs(h, run)
    ensures Replay(h, run).cap == h.cap
    decreases |run|
  {
    if run != [] {
      ReplayKeepsCap(Next(h, run[0]), run[1..]);
    }
  }
}
