/** Cloning a hooked stream (HookedCompDoClone in Skyrim/src/Hooks.cpp). The stock clone
    copies the decompressor's position, which is stale once the parent is served from
    cache; the clone must continue where the caller of the parent is. */
module StreamClone {
  import opened Basics
  import opened StreamState
  import opened CompressedStream

  /** What can go wrong around a clone. */
  datatype Mishaps = Mishaps(
    /** The stock clone yields no stream. */
    noClone: bool,
    /** The parent's side state cannot be looked up. */
    lookupFails: bool,
    /** The clone's identity or state cannot be created. */
    createFails: bool,
    /** The clone's state cannot be published. */
    publishFails: bool)

  predicate SamePayload(a: StreamIdentity, b: StreamIdentity) {
    a.archive == b.archive && a.startOffset == b.startOffset && a.totalSize == b.totalSize
  }

  /** The side state a clone starts with, if one can be made. */
  method InheritState(parent: HookedStream, copy: NativeStream, identity: StreamIdentity, synchronized: bool)
      returns (inherited: CompressedStreamState)
    requires parent.Valid() && parent.state != null && parent.state.cursorKnown
    requires copy.Valid() && copy.payload == parent.native.payload
    requires (parent.Cached() && !synchronized) || copy.pos == parent.Position()
    ensures fresh(inherited) && inherited.Valid(copy.payload) && inherited.accountedCaptureBytes == 0
    ensures inherited.cacheData == if && identity.archive == parent.state.identity.archive
                                      && identity.startOffset == parent.state.identity.startOffset
                                      && identity.totalSize == parent.state.identity.totalSize
                                   then parent.state.cacheData else None
    ensures inherited.cacheData.Some? ==> inherited.logicalCursor == parent.Position()
    ensures inherited.cacheData.None? && (parent.Cached() ==> synchronized) ==>
              (inherited.cursorKnown ==> inherited.logicalCursor == copy.pos)
    ensures var same := && identity.archive == parent.state.identity.archive
                        && identity.startOffset == parent.state.identity.startOffset
                        && identity.totalSize == parent.state.identity.totalSize;
            && inherited.identity == identity && inherited.logicalCursor == parent.Position()
            && (inherited.cursorKnown <==> same || synchronized)
            && inherited.cacheLookupAttempted == (same && parent.state.cacheLookupAttempted)
            && inherited.captureStatus
               == if inherited.cursorKnown && parent.state.logicalCursor == 0 then Empty else Invalid
  {
    var state := parent.state;
    inherited := new CompressedStreamState(identity, state.logicalCursor);
    inherited.captureStatus := if state.logicalCursor == 0 then Empty else Invalid;
    if SamePayload(identity, state.identity) {
      inherited.cacheLookupAttempted := state.cacheLookupAttempted;
      inherited.cacheData := state.cacheData;
    } else if !synchronized {
      inherited.cursorKnown := false;
      inherited.captureStatus := Invalid;
    }
  }

  /** The clone of a stream whose position is known. */
  method CloneKnown(parent: HookedStream, copy: NativeStream, cloneIdentity: StreamIdentity, m: Mishaps)
      returns (clone: HookedStream?, ghost synchronized: bool)
    requires parent.Valid() && parent.state != null && parent.state.cursorKnown && !m.lookupFails
    requires copy != parent.native && copy.Valid()
    requires copy.payload == parent.native.payload && copy.pos == parent.native.pos
    modifies copy
    ensures clone == null <==>
              && parent.Cached() && !synchronized
              && (m.createFails
                  || cloneIdentity.archive != parent.state.identity.archive
                  || cloneIdentity.startOffset != parent.state.identity.startOffset
                  || cloneIdentity.totalSize != parent.state.identity.totalSize)
    ensures clone != null ==>
              && fresh(clone) && clone.Valid() && clone.log == [] && clone.budget == parent.budget
              && (clone.state != null ==> fresh(clone.state))
              && clone.native == copy && copy.payload == parent.native.payload
              && clone.Position() == if parent.Cached() && m.publishFails && !synchronized then parent.native.pos
                                     else parent.Position()
    ensures clone != null ==>
              && (clone.state == null <==> m.createFails || m.publishFails)
              && (clone.Cached() <==>
                    && parent.Cached() && clone.state != null
                    && cloneIdentity.archive == parent.state.identity.archive
                    && cloneIdentity.startOffset == parent.state.identity.startOffset
                    && cloneIdentity.totalSize == parent.state.identity.totalSize)
    ensures copy.pos == if parent.Cached() && synchronized then parent.Position() else parent.native.pos
  {
    hide HonestLog, Honest, Unhooked;
    var state := parent.state;
    var inSync := true;
    if state.cacheData.Some? {
      var ok, position, _ := copy.Seek(state.logicalCursor, Origin(R.Begin));
      inSync := ok && position == state.logicalCursor;
    }
    synchronized := inSync;
    var inherited: CompressedStreamState? := null;
    if !m.createFails {
      inherited := InheritState(parent, copy, cloneIdentity, inSync);
    }
    if state.cacheData.Some? && !inSync && (inherited == null || inherited.cacheData.None?) {
      return null, synchronized;
    }
    clone := new HookedStream.Cloned(copy, parent.budget, if m.publishFails then null else inherited);
  }

  /** The clone, if one is handed out, continues exactly where the parent's caller is,
      through the same cached payload or through a decompressor moved there, unless it
      strands: the parent is served from cache, and its state was not consulted, or the
      clone's was lost after the decompressor could not be moved. A stranded clone stands at
      the parent's decompressor position. A clone that can do neither is dropped. The parent
      is not disturbed. */
  method DoClone(parent: HookedStream, parentIdentity: StreamIdentity, cloneIdentity: StreamIdentity, m: Mishaps)
      returns (clone: HookedStream?, ghost synchronized: bool)
    requires parent.Valid()
    modifies parent`state, parent.native`pos
    ensures parent.Valid() && parent.native.pos == old(parent.native.pos)
    ensures parent.Position() == old(parent.Position()) && parent.Cached() == old(parent.Cached())
    ensures parent.log == old(parent.log)
    ensures old(parent.state) != null ==> parent.state == old(parent.state)
    ensures clone == null <==>
              || m.noClone
              || (parent.Cached() && !m.lookupFails && !synchronized
                  && (m.createFails
                      || cloneIdentity.archive != parent.state.identity.archive
                      || cloneIdentity.startOffset != parent.state.identity.startOffset
                      || cloneIdentity.totalSize != parent.state.identity.totalSize))
    ensures clone != null ==>
              && fresh(clone) && clone.Valid() && clone.log == [] && clone.budget == parent.budget
              && (clone.state != null ==> fresh(clone.state))
              && fresh(clone.native) && clone.native.payload == parent.native.payload
    ensures clone != null ==>
              clone.Position() == if parent.Cached() && (m.lookupFails || (m.publishFails && !synchronized))
                                  then parent.native.pos else parent.Position()
    ensures clone != null && parent.Cached() ==>
              && (clone.state == null <==> m.lookupFails || m.createFails || m.publishFails)
              && (clone.Cached() <==>
                    && clone.state != null
                    && cloneIdentity.archive == parent.state.identity.archive
                    && cloneIdentity.startOffset == parent.state.identity.startOffset
                    && cloneIdentity.totalSize == parent.state.identity.totalSize)
    ensures clone != null ==>
              clone.native.pos == if parent.Cached() && !m.lookupFails && synchronized then parent.Position()
                                  else parent.native.pos
  {
    hide HonestLog, Honest, Unhooked;
    synchronized := true;
    if !m.lookupFails {
      parent.GetOrCreateState(parentIdentity);
    }
    var state := parent.state;
    if m.noClone {
      return null, true;
    }
    var copy := new NativeStream(parent.native.payload, parent.native.pos);
    if m.lookupFails || !state.cursorKnown {
      clone := new HookedStream(copy, parent.budget);
    } else {
      clone, synchronized := CloneKnown(parent, copy, cloneIdentity, m);
    }
  }

  lemma CachedIsFree(stream: HookedStream)
    requires stream.Sound() && stream.Cached()
    ensures stream.budget.used == stream.others && stream.state.cursorKnown
  {}

  /** One byte from a stream served from cache, then one from a clone of it. */
  method ReadBoth(parent: HookedStream, clone: HookedStream, identity: StreamIdentity, around: Surroundings)
      returns (fromParent: Outcome, fromClone: Outcome)
    requires parent.Valid() && parent.Cached()
    requires clone.Valid() && clone.Position() < |clone.native.payload| && clone.budget == parent.budget
    requires clone != parent && clone.native != parent.native && clone.state != parent.state
    requires clone.native.payload == parent.native.payload
    requires parent.Trusted(around.found, identity.totalSize) && !around.unusable && !around.faults
    modifies parent, parent.state, parent.native, parent.budget, clone, clone.state, clone.native
    ensures fromParent == Unhooked(old(parent.native.payload), old(parent.Position()), Read(1, true)).0
    ensures Delivers(fromClone, old(parent.native.payload)[old(clone.Position())])
  {
    hide HonestLog, CompressedStreamState.Valid, Unhooked;
    ghost var at := clone.Position();
    CachedIsFree(parent);
    fromParent := NextByte(parent, identity, around);
    CachedIsFree(parent);
    assert clone.Position() == at && clone.Valid();
    fromClone := AnyByte(clone, identity, around.(found := None));
  }

  method AnyByte(stream: HookedStream, identity: StreamIdentity, around: Surroundings)
      returns (outcome: Outcome)
    requires stream.Valid() && stream.Position() < |stream.native.payload|
    requires around.found.None? && !around.unusable && !around.faults
    modifies stream`log, stream`state, stream.state, stream.native`pos, stream.budget
    ensures Delivers(outcome, old(stream.native.payload)[old(stream.Position())])
  {
    if stream.state != null && stream.state.cacheData.Some? {
      CachedIsFree(stream);
    }
    hide HonestLog, Honest, CompressedStreamState.Valid, Unhooked, HookedStream.Sound, Delivers;
    var answer, _ := stream.DoRead(1, true, identity, around);
    outcome := answer;
    HonestPrior(stream.native.payload, stream.start, stream.log, stream.Position());
    HonestByte(stream.native.payload, stream.log[|stream.log| - 1]);
  }

  method NextByte(stream: HookedStream, identity: StreamIdentity, around: Surroundings) returns (outcome: Outcome)
    requires stream.Valid() && stream.WillServe(identity, around)
    requires stream.Trusted(around.found, identity.totalSize) && !around.unusable && !around.faults
    modifies stream`log, stream`state, stream.state, stream.native`pos, stream.budget
    ensures stream.Valid() && stream.Cached() && stream.native.pos == old(stream.native.pos)
    ensures stream.AsUnhooked(Read(1, true), outcome)
    ensures stream.state == old(stream.state) || fresh(stream.state)
  {
    hide HonestLog, Honest, Unhooked;
    var answer, _ := stream.DoRead(1, true, identity, around);
    outcome := answer;
  }

  /** A parent that served one of its two bytes from cache, so that its decompressor still
      stands at zero, is cloned. If its side state cannot be found, or the clone's cannot be
      published after the copy failed to seek, the clone repeats the first byte where the
      parent goes on with the second. */
  method CloneStrands(publishes: bool)
      returns (fromParent: Outcome, fromClone: Outcome, ghost synchronized: bool)
    ensures fromParent == Bytes([8])
    ensures publishes || !synchronized ==> Delivers(fromClone, 7)
    ensures !publishes && synchronized ==> Delivers(fromClone, 8)
  {
    hide HonestLog, UnhookedRun, CompressedStreamState.Valid;
    TwoBytesUnhooked();
    var parent, identity, around := TwoBytes();
    var _ := NextByte(parent, identity, around);
    var m := Mishaps(false, publishes, false, !publishes);
    var clone;
    clone, synchronized := DoClone(parent, identity, parent.state.identity, m);
    fromParent, fromClone := ReadBoth(parent, clone, identity, around);
  }
}
