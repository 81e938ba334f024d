/**
 How many origin calls the stampede protocol lets through for one key: which
 claims hold for every interleaving, and which need the assumption that no waiter
 locks a mutex before the caller that put it in the map does.
 */
module StampedeSingleFlight {
  import opened CacheTypes
  import opened Stampede
  import opened StampedeSafety

  /** The action is not a failing backend operation of a caller for `key`. */
  predicate Reliable(s: State, a: Action, key: Key) {
    IsCallerAction(a) && a.c in s.callers && s.callers[a.c].key == Some(key) ==>
      match a
      case Lookup(_, err) => !err
      case LookAgain(_, err) => !err
      case Check(_, err) => !err
      case Store(_, err) => !err
      case _ => true
  }

  /** A waiter takes the mutex of a caller that has put it in the map but not locked it yet. */
  predicate Overtakes(s: State, a: Action, key: Key) {
    && a.LockWait? && a.c in s.callers && s.callers[a.c].pc.Waiting? && s.callers[a.c].key == Some(key)
    && var lock := s.callers[a.c].pc.lock;
       lock < |s.born| && s.born[lock].0 in s.callers && s.callers[s.born[lock].0].pc == Inserted(lock)
  }

  lemma {:induction false} CallsGrow(p: Policy, s: State, acts: seq<Action>)
    requires Runs(p, s, acts)
    ensures s.calls <= After(p, s, acts).calls
    decreases |acts|
  {
    if acts != [] { CallsGrow(p, Do(p, s, acts[0]), acts[1..]); }
  }

  // ---------------------------------------------------------------------
  // Every interleaving: a stored, fresh entry ends guarded fetching
  // ---------------------------------------------------------------------

  ghost predicate NoneAboutToFetch(s: State, key: Key) {
    forall c :: c in s.callers && s.callers[c].key == Some(key) && s.callers[c].pc.Fetch? ==> s.callers[c].pc.guard.None?
  }

  /** `key` reads Fresh now and after each of `acts`, and the reads of its callers succeed. */
  ghost predicate FreshThroughout(p: Policy, s: State, acts: seq<Action>, key: Key)
    requires Runs(p, s, acts)
    decreases |acts|
  {
    && FreshAt(p, s, key)
    && (acts != [] ==> Reliable(s, acts[0], key) && FreshThroughout(p, Do(p, s, acts[0]), acts[1..], key))
  }

  lemma FreshIsNotFetched(p: Policy, s: State, a: Action, key: Key)
    requires IsCallerAction(a) && Enabled(p, s, a) && s.callers[a.c].key == Some(key)
    requires FreshAt(p, s, key) && Reliable(s, a, key) && CallerOk(p, s.callers[a.c])
    ensures NextPc(p, s, a).Fetch? ==> NextPc(p, s, a).guard.None?
  {
  }

  lemma FetchersOnly(p: Policy, s: State, a: Action, key: Key)
    requires Enabled(p, s, a) && NoneAboutToFetch(s, key)
    ensures var calls := Do(p, s, a).calls;
            calls == s.calls || (|calls| == |s.calls| + 1 && (calls[|s.calls|].key == Some(key) ==> !calls[|s.calls|].guarded))
  {
  }

  lemma NoneAboutToFetchStep(p: Policy, s: State, a: Action, key: Key)
    requires Enabled(p, s, a) && NoneAboutToFetch(s, key) && FreshAt(p, s, key) && Reliable(s, a, key)
    requires CallersOk(p, s)
    ensures NoneAboutToFetch(Do(p, s, a), key)
    ensures var calls := Do(p, s, a).calls;
            calls == s.calls || (|calls| == |s.calls| + 1 && (calls[|s.calls|].key == Some(key) ==> !calls[|s.calls|].guarded))
  {
    Frame(p, s, a);
    if IsCallerAction(a) && s.callers[a.c].key == Some(key) { FreshIsNotFetched(p, s, a, key); }
    FetchersOnly(p, s, a, key);
  }

  lemma {:induction false} NoGuardedCallWhileFresh(p: Policy, s: State, acts: seq<Action>, key: Key)
    requires Inv(p, s) && Runs(p, s, acts) && NoneAboutToFetch(s, key) && FreshThroughout(p, s, acts, key)
    ensures s.calls <= After(p, s, acts).calls
    ensures forall i :: |s.calls| <= i < |After(p, s, acts).calls| && After(p, s, acts).calls[i].key == Some(key) ==>
              !After(p, s, acts).calls[i].guarded
    decreases |acts|
  {
    if acts != [] {
      InvStep(p, s, acts[0]);
      NoneAboutToFetchStep(p, s, acts[0], key);
      NoGuardedCallWhileFresh(p, Do(p, s, acts[0]), acts[1..], key);
    }
  }

  lemma OwnerExcludesFetching(p: Policy, s: State, c: Tid, key: Key)
    requires Inv(p, s) && OwnerOf(s, c, key) && !s.callers[c].pc.Fetch?
    ensures NoneAboutToFetch(s, key)
  {
    forall d | d in s.callers && s.callers[d].key == Some(key) && s.callers[d].pc.Fetch?
      ensures s.callers[d].pc.guard.None?
    {
      if OwnerOf(s, d, key) { OneOwner(p, s, c, d, key); }
    }
  }

  lemma StoringExcludesFetching(p: Policy, s: State, c: Tid, key: Key)
    requires Inv(p, s) && c in s.callers && s.callers[c].key == Some(key)
    requires s.callers[c].pc.Storing? && s.callers[c].pc.guard.Some?
    ensures Enabled(p, s, Store(c, false)) && NoneAboutToFetch(Do(p, s, Store(c, false)), key)
  {
    assert CallerOk(p, s.callers[c]);
    OwnerExcludesFetching(p, s, c, key);
    StoreMovesOn(p, s, c, key);
  }

  lemma StoreMovesOn(p: Policy, s: State, c: Tid, key: Key)
    requires Enabled(p, s, Store(c, false)) && NoneAboutToFetch(s, key)
    ensures NoneAboutToFetch(Do(p, s, Store(c, false)), key)
  {
    Frame(p, s, Store(c, false));
  }

  /** Once a guarded fetch has stored an entry, and for as long as the key reads Fresh, no
      further guarded origin call for that key starts -- in any interleaving, from any
      reachable state. */
  lemma NoGuardedCallAfterStore(p: Policy, s: State, c: Tid, key: Key, acts: seq<Action>)
    requires Reachable(p, s) && c in s.callers && s.callers[c].key == Some(key)
    requires s.callers[c].pc.Storing? && s.callers[c].pc.guard.Some? && Enabled(p, s, Store(c, false))
    requires Runs(p, Do(p, s, Store(c, false)), acts)
    requires FreshThroughout(p, Do(p, s, Store(c, false)), acts, key)
    ensures var t := After(p, Do(p, s, Store(c, false)), acts);
            && s.calls <= t.calls
            && forall i :: |s.calls| <= i < |t.calls| && t.calls[i].key == Some(key) ==> !t.calls[i].guarded
  {
    ReachableInv(p, s);
    StoringExcludesFetching(p, s, c, key);
    InvStep(p, s, Store(c, false));
    NoGuardedCallWhileFresh(p, Do(p, s, Store(c, false)), acts, key);
  }

  // ---------------------------------------------------------------------
  // Every interleaving: at most one guarded call
  // ---------------------------------------------------------------------

  ghost predicate Calls(s: State, i: int, key: Key) { 0 <= i < |s.calls| && s.calls[i].key == Some(key) }

  ghost predicate GuardedCall(s: State, i: int, key: Key) { Calls(s, i, key) && s.calls[i].guarded }

  ghost predicate AtMostOneGuardedCall(s: State, key: Key) {
    forall i, j :: GuardedCall(s, i, key) && GuardedCall(s, j, key) ==> i == j
  }

  ghost predicate AtMostOneCall(s: State, key: Key) {
    forall i, j :: Calls(s, i, key) && Calls(s, j, key) ==> i == j
  }

  /** Once some Primary guard for `key` has been given up, the key reads Fresh. */
  ghost predicate Settled(p: Policy, s: State, key: Key) { key in s.dropped ==> FreshAt(p, s, key) }

  ghost predicate GuardOk(s: State, pc: Pc, key: Key) {
    match pc
    case Fetch(guard) => guard.Some? ==> key !in s.dropped && forall i :: !GuardedCall(s, i, key)
    case Releasing(_, _) => key in s.dropped
    case Removing(_, _) => key in s.dropped
    case _ => true
  }

  ghost predicate OneGuarded(s: State, key: Key) {
    && AtMostOneGuardedCall(s, key)
    && (forall i :: GuardedCall(s, i, key) ==> key in s.dropped || FetchingGuarded(s, s.calls[i].tid, key))
    && (forall c :: c in s.callers && s.callers[c].key == Some(key) ==> GuardOk(s, s.callers[c].pc, key))
  }

  lemma OneOwner(p: Policy, s: State, c: Tid, d: Tid, key: Key)
    requires Inv(p, s) && OwnerOf(s, c, key) && OwnerOf(s, d, key)
    ensures c == d
  {
  }

  lemma CallsNext(p: Policy, s: State, a: Action, key: Key)
    requires Inv(p, s) && Enabled(p, s, a)
    ensures s.calls <= Do(p, s, a).calls
    ensures forall i :: Calls(Do(p, s, a), i, key) && !Calls(s, i, key) ==>
              && i == |s.calls| && a.StartCall? && s.callers[a.c].key == Some(key)
              && Do(p, s, a).calls[i] == Call(a.c, Some(key), s.callers[a.c].pc.guard.Some?)
  {
  }

  lemma DropperOwns(p: Policy, s: State, a: Action)
    requires IsCallerAction(a) && Enabled(p, s, a) && NextPc(p, s, a).Releasing?
    ensures Owns(s.callers[a.c].pc).Some?
  {
  }

  /** Only the owner of the map entry starts a guarded call for `key` or begins to drop its guard. */
  lemma OnlyOwnersAct(p: Policy, s: State, a: Action, key: Key)
    requires Inv(p, s) && Enabled(p, s, a)
    ensures s.dropped <= Do(p, s, a).dropped && s.calls <= Do(p, s, a).calls
    ensures forall i :: Calls(Do(p, s, a), i, key) && !Calls(s, i, key) ==>
              && i == |s.calls| && a.StartCall? && s.callers[a.c].key == Some(key)
              && Do(p, s, a).calls[i] == Call(a.c, Some(key), s.callers[a.c].pc.guard.Some?)
    ensures key in Do(p, s, a).dropped && key !in s.dropped ==> IsCallerAction(a) && OwnerOf(s, a.c, key)
  {
    CallsNext(p, s, a, key);
    if IsCallerAction(a) && NextPc(p, s, a).Releasing? { DropperOwns(p, s, a); }
  }

  /** While one caller owns the entry of `key`, the others leave its guarded calls and drops alone. */
  lemma OthersLeaveAlone(p: Policy, s: State, a: Action, key: Key, c: Tid)
    requires Inv(p, s) && Enabled(p, s, a) && OwnerOf(s, c, key) && (IsCallerAction(a) ==> a.c != c)
    ensures key in Do(p, s, a).dropped ==> key in s.dropped
    ensures forall i :: GuardedCall(Do(p, s, a), i, key) ==> GuardedCall(s, i, key)
  {
    OnlyOwnersAct(p, s, a, key);
    assert IsCallerAction(a) ==> !OwnerOf(s, a.c, key) by {
      if IsCallerAction(a) && OwnerOf(s, a.c, key) { OneOwner(p, s, a.c, c, key); }
    }
  }

  lemma NoGuardedCallYet(p: Policy, s: State, c: Tid, key: Key)
    requires Inv(p, s) && OneGuarded(s, key) && key !in s.dropped
    requires OwnerOf(s, c, key) && s.callers[c].pc.DoubleCheck?
    ensures forall i :: !GuardedCall(s, i, key)
  {
    forall i
      ensures !GuardedCall(s, i, key)
    {
      if GuardedCall(s, i, key) { OneOwner(p, s, s.calls[i].tid, c, key); }
    }
  }

  lemma FetchingMissed(p: Policy, s: State, a: Action, key: Key)
    requires Enabled(p, s, a) && Reliable(s, a, key) && a.Check? && s.callers[a.c].key == Some(key)
    requires NextPc(p, s, a).Fetch?
    ensures !FreshAt(p, s, key)
  {
  }

  lemma CheckerOk(p: Policy, s: State, a: Action, key: Key)
    requires Inv(p, s) && OneGuarded(s, key) && Settled(p, s, key)
    requires Enabled(p, s, a) && Reliable(s, a, key) && a.Check? && s.callers[a.c].key == Some(key)
    requires NextPc(p, s, a).Fetch?
    ensures key !in NextDropped(p, s, a) && forall i :: !GuardedCall(Do(p, s, a), i, key)
  {
    FetchingMissed(p, s, a, key);
    NoGuardedCallYet(p, s, a.c, key);
    OtherKeysCall(p, s, a, key);
  }

  lemma OtherKeysCall(p: Policy, s: State, a: Action, key: Key)
    requires Enabled(p, s, a) && (a.StartCall? ==> s.callers[a.c].key != Some(key))
    ensures forall i :: Calls(Do(p, s, a), i, key) ==> Calls(s, i, key) && Do(p, s, a).calls[i] == s.calls[i]
  {
  }

  lemma OnlyCheckersFetch(p: Policy, s: State, a: Action)
    requires IsCallerAction(a) && Enabled(p, s, a) && NextPc(p, s, a).Fetch? && NextPc(p, s, a).guard.Some?
    ensures a.Check?
  {
  }

  lemma RemoverReleases(p: Policy, s: State, a: Action)
    requires IsCallerAction(a) && Enabled(p, s, a) && NextPc(p, s, a).Removing?
    ensures s.callers[a.c].pc.Releasing?
  {
  }

  lemma MoverOk(p: Policy, s: State, a: Action, key: Key)
    requires Inv(p, s) && OneGuarded(s, key) && Settled(p, s, key) && Enabled(p, s, a) && Reliable(s, a, key)
    requires IsCallerAction(a) && s.callers[a.c].key == Some(key)
    ensures GuardOk(Do(p, s, a), NextPc(p, s, a), key)
  {
    assert GuardOk(s, s.callers[a.c].pc, key);
    match NextPc(p, s, a)
    case Fetch(guard) =>
      if guard.Some? {
        OnlyCheckersFetch(p, s, a);
        CheckerOk(p, s, a, key);
      }
    case Removing(_, _) => RemoverReleases(p, s, a);
    case _ =>
  }

  lemma GuardOkKept(s: State, t: State, pc: Pc, key: Key)
    requires GuardOk(s, pc, key) && s.dropped <= t.dropped
    requires Owns(pc).Some? ==> key in t.dropped ==> key in s.dropped
    requires Owns(pc).Some? ==> forall i :: GuardedCall(t, i, key) ==> GuardedCall(s, i, key)
    ensures GuardOk(t, pc, key)
  {
  }

  lemma OthersOk(p: Policy, s: State, a: Action, key: Key, c: Tid)
    requires Inv(p, s) && OneGuarded(s, key) && Enabled(p, s, a)
    requires c in s.callers && s.callers[c].key == Some(key) && (IsCallerAction(a) ==> a.c != c)
    ensures GuardOk(Do(p, s, a), s.callers[c].pc, key)
  {
    assert s.dropped <= NextDropped(p, s, a);
    if OwnerOf(s, c, key) { OthersLeaveAlone(p, s, a, key, c); }
    GuardOkKept(s, Do(p, s, a), s.callers[c].pc, key);
  }

  lemma FetchingStays(p: Policy, s: State, a: Action, key: Key, c: Tid)
    requires Enabled(p, s, a) && FetchingGuarded(s, c, key)
    ensures key in Do(p, s, a).dropped || FetchingGuarded(Do(p, s, a), c, key)
  {
    Frame(p, s, a);
  }

  lemma NewCallOk(p: Policy, s: State, a: Action, key: Key, i: nat)
    requires Inv(p, s) && OneGuarded(s, key) && Enabled(p, s, a)
    requires GuardedCall(Do(p, s, a), i, key) && !GuardedCall(s, i, key)
    ensures i == |s.calls| && FetchingGuarded(Do(p, s, a), a.c, key) && Do(p, s, a).calls[i].tid == a.c
    ensures forall j :: !GuardedCall(s, j, key)
  {
    OnlyOwnersAct(p, s, a, key);
    assert GuardOk(s, s.callers[a.c].pc, key);
  }

  lemma GuardedCallsStep(p: Policy, s: State, a: Action, key: Key, i: nat)
    requires Inv(p, s) && OneGuarded(s, key) && Enabled(p, s, a) && GuardedCall(Do(p, s, a), i, key)
    ensures key in Do(p, s, a).dropped || FetchingGuarded(Do(p, s, a), Do(p, s, a).calls[i].tid, key)
    ensures forall j :: GuardedCall(Do(p, s, a), j, key) ==> i == j
  {
    OnlyOwnersAct(p, s, a, key);
    if !GuardedCall(s, i, key) {
      NewCallOk(p, s, a, key, i);
    } else if FetchingGuarded(s, s.calls[i].tid, key) {
      FetchingStays(p, s, a, key, s.calls[i].tid);
    }
    forall j | GuardedCall(Do(p, s, a), j, key)
      ensures i == j
    {
      if !GuardedCall(s, j, key) { NewCallOk(p, s, a, key, j); }
    }
  }

  lemma OneGuardedStep(p: Policy, s: State, a: Action, key: Key)
    requires Inv(p, s) && OneGuarded(s, key) && Settled(p, s, key) && Enabled(p, s, a) && Reliable(s, a, key)
    ensures OneGuarded(Do(p, s, a), key)
  {
    var t := Do(p, s, a);
    Frame(p, s, a);
    forall c | c in t.callers && t.callers[c].key == Some(key)
      ensures GuardOk(t, t.callers[c].pc, key)
    {
      if IsCallerAction(a) && a.c == c { MoverOk(p, s, a, key); } else { OthersOk(p, s, a, key, c); }
    }
    forall i | GuardedCall(t, i, key)
      ensures key in t.dropped || FetchingGuarded(t, t.calls[i].tid, key)
      ensures forall j :: GuardedCall(t, j, key) ==> i == j
    {
      GuardedCallsStep(p, s, a, key, i);
    }
  }

  // ---------------------------------------------------------------------
  // No unguarded call, when nobody overtakes
  // ---------------------------------------------------------------------

  ghost predicate StillOwned(s: State, lock: int)
    requires 0 <= lock < |s.born|
  {
    s.born[lock].0 in s.callers && Owns(s.callers[s.born[lock].0].pc) == Some(lock)
  }

  ghost predicate WaiterOk(s: State, pc: Pc, key: Key) {
    match pc
    case Woken(_) => key in s.dropped
    case Reread => key in s.dropped
    case Reenter => false
    case Fetch(guard) => guard.Some?
    case _ => true
  }

  ghost predicate NoneUnguarded(s: State, key: Key) {
    && (forall i :: Calls(s, i, key) ==> s.calls[i].guarded)
    && (forall c :: c in s.callers && s.callers[c].key == Some(key) ==> WaiterOk(s, s.callers[c].pc, key))
    && (forall lock :: 0 <= lock < |s.born| && s.born[lock].1 == key ==> key in s.dropped || StillOwned(s, lock))
  }

  lemma OwnedIsHeld(p: Policy, s: State, lock: nat)
    requires Inv(p, s) && lock < |s.born| && StillOwned(s, lock)
    ensures lock in s.held || s.callers[s.born[lock].0].pc == Inserted(lock)
  {
    var pc := s.callers[s.born[lock].0].pc;
    assert Holds(pc) == Some(lock) || pc == Inserted(lock);
  }

  lemma LockWaitMeansDropped(p: Policy, s: State, a: Action, key: Key)
    requires Inv(p, s) && NoneUnguarded(s, key) && Enabled(p, s, a) && a.LockWait? && s.callers[a.c].key == Some(key)
    requires !Overtakes(s, a, key)
    ensures key in s.dropped
  {
    var lock := s.callers[a.c].pc.lock;
    assert s.born[lock].1 == key;
    if StillOwned(s, lock) { OwnedIsHeld(p, s, lock); }
  }

  lemma WaiterOkStep(p: Policy, s: State, a: Action, key: Key)
    requires Inv(p, s) && NoneUnguarded(s, key) && Settled(p, s, key)
    requires Enabled(p, s, a) && Reliable(s, a, key) && !Overtakes(s, a, key)
    requires IsCallerAction(a) && s.callers[a.c].key == Some(key)
    ensures WaiterOk(Do(p, s, a), NextPc(p, s, a), key)
  {
    assert WaiterOk(s, s.callers[a.c].pc, key);
    match NextPc(p, s, a)
    case Woken(_) => LockWaitMeansDropped(p, s, a, key);
    case Reread => assert a.GiveBack?;
    case Reenter => DroppedIsNotReentered(p, s, a, key);
    case Fetch(_) => GuardedOnly(p, s, a, key);
    case _ =>
  }

  lemma DroppedIsNotReentered(p: Policy, s: State, a: Action, key: Key)
    requires IsCallerAction(a) && Enabled(p, s, a) && s.callers[a.c].key == Some(key)
    requires Settled(p, s, key) && Reliable(s, a, key) && WaiterOk(s, s.callers[a.c].pc, key)
    ensures !NextPc(p, s, a).Reenter?
  {
  }

  lemma GuardedOnly(p: Policy, s: State, a: Action, key: Key)
    requires IsCallerAction(a) && Enabled(p, s, a) && s.callers[a.c].key == Some(key)
    requires WaiterOk(s, s.callers[a.c].pc, key) && NextPc(p, s, a).Fetch?
    ensures NextPc(p, s, a).guard.Some?
  {
  }

  lemma StillOwnedStays(p: Policy, s: State, a: Action, key: Key, lock: nat)
    requires Inv(p, s) && Enabled(p, s, a) && lock < |s.born| && s.born[lock].1 == key
    requires key in s.dropped || StillOwned(s, lock)
    requires a.Remove? && s.callers[a.c].key == Some(key) ==> key in s.dropped
    ensures s.born <= Do(p, s, a).born
    ensures key in Do(p, s, a).dropped || StillOwned(Do(p, s, a), lock)
  {
    assert s.dropped <= NextDropped(p, s, a) && s.born <= NextBorn(p, s, a);
    if key !in s.dropped {
      OwnerStays(p, s, a, key, lock);
    }
  }

  lemma OwnerStays(p: Policy, s: State, a: Action, key: Key, lock: nat)
    requires MapInv(s) && Enabled(p, s, a) && lock < |s.born| && s.born[lock].1 == key && StillOwned(s, lock)
    requires !(a.Remove? && s.callers[a.c].key == Some(key))
    ensures s.born[lock].0 in NextCallers(p, s, a) && Owns(NextCallers(p, s, a)[s.born[lock].0].pc) == Some(lock)
  {
    var o := s.born[lock].0;
    assert OwnsEntry(s, o);
    assert EntryOwned(s, s.callers[o].key.value);
    if IsCallerAction(a) && a.c == o { OwnsNext(p, s, a); }
  }

  lemma LocksStillOwned(p: Policy, s: State, a: Action, key: Key, lock: nat)
    requires Inv(p, s) && OneGuarded(s, key) && NoneUnguarded(s, key) && Enabled(p, s, a)
    requires lock < |Do(p, s, a).born| && Do(p, s, a).born[lock].1 == key
    ensures key in Do(p, s, a).dropped || StillOwned(Do(p, s, a), lock)
  {
    if a.Remove? && s.callers[a.c].key == Some(key) { assert GuardOk(s, s.callers[a.c].pc, key); }
    if lock < |s.born| { StillOwnedStays(p, s, a, key, lock); } else { OwnsNext(p, s, a); }
  }

  lemma CallsStayGuarded(p: Policy, s: State, a: Action, key: Key)
    requires Inv(p, s) && NoneUnguarded(s, key) && Enabled(p, s, a)
    ensures forall i :: Calls(Do(p, s, a), i, key) ==> Do(p, s, a).calls[i].guarded
  {
    OnlyOwnersAct(p, s, a, key);
    assert a.StartCall? && s.callers[a.c].key == Some(key) ==> WaiterOk(s, s.callers[a.c].pc, key);
  }

  lemma WaiterOkKept(s: State, t: State, pc: Pc, key: Key)
    requires WaiterOk(s, pc, key) && s.dropped <= t.dropped
    ensures WaiterOk(t, pc, key)
  {
  }

  lemma NoneUnguardedStep(p: Policy, s: State, a: Action, key: Key)
    requires Inv(p, s) && OneGuarded(s, key) && NoneUnguarded(s, key) && Settled(p, s, key)
    requires Enabled(p, s, a) && Reliable(s, a, key) && !Overtakes(s, a, key)
    ensures NoneUnguarded(Do(p, s, a), key)
  {
    var t := Do(p, s, a);
    CallsStayGuarded(p, s, a, key);
    Frame(p, s, a);
    forall c | c in t.callers && t.callers[c].key == Some(key)
      ensures WaiterOk(t, t.callers[c].pc, key)
    {
      if IsCallerAction(a) && a.c == c { WaiterOkStep(p, s, a, key); } else { WaiterOkKept(s, t, t.callers[c].pc, key); }
    }
    forall lock | 0 <= lock < |t.born| && t.born[lock].1 == key
      ensures key in t.dropped || StillOwned(t, lock)
    {
      LocksStillOwned(p, s, a, key, lock);
    }
  }

  // ---------------------------------------------------------------------
  // Whole runs
  // ---------------------------------------------------------------------

  /** Along `acts` the backend operations of the callers of `key` succeed and the key reads
      Fresh from the first dropped guard on; nobody overtakes an owner of `key` unless
      `overtaking` allows it. */
  ghost predicate SettledRun(p: Policy, s: State, acts: seq<Action>, key: Key, overtaking: bool)
    requires Runs(p, s, acts)
    decreases |acts|
  {
    && Settled(p, s, key)
    && (acts != [] ==>
          && Reliable(s, acts[0], key) && (overtaking || !Overtakes(s, acts[0], key))
          && SettledRun(p, Do(p, s, acts[0]), acts[1..], key, overtaking))
  }

  lemma {:induction false} OneFlightAlways(p: Policy, s: State, acts: seq<Action>, key: Key, overtaking: bool)
    requires Inv(p, s) && Runs(p, s, acts) && SettledRun(p, s, acts, key, overtaking)
    requires OneGuarded(s, key) && (!overtaking ==> NoneUnguarded(s, key))
    ensures OneGuarded(After(p, s, acts), key)
    ensures !overtaking ==> NoneUnguarded(After(p, s, acts), key)
    decreases |acts|
  {
    if acts != [] {
      InvStep(p, s, acts[0]);
      OneGuardedStep(p, s, acts[0], key);
      if !overtaking { NoneUnguardedStep(p, s, acts[0], key); }
      OneFlightAlways(p, Do(p, s, acts[0]), acts[1..], key, overtaking);
    }
  }

  /** The promise of the stampede lock, provided the key reads Fresh once the first guard is
      given up.  In every interleaving at most one guarded origin call for the key happens;
      if moreover no waiter overtakes, at most one origin call for it happens at all. */
  lemma SingleFlight(p: Policy, s: State, acts: seq<Action>, key: Key, overtaking: bool)
    requires Init(s) && Runs(p, s, acts) && SettledRun(p, s, acts, key, overtaking)
    ensures AtMostOneGuardedCall(After(p, s, acts), key)
    ensures !overtaking ==> AtMostOneCall(After(p, s, acts), key)
  {
    OneFlightAlways(p, s, acts, key, overtaking);
    var t := After(p, s, acts);
    assert !overtaking ==> forall i :: Calls(t, i, key) ==> GuardedCall(t, i, key);
  }

  // ---------------------------------------------------------------------
  // The same promise from conditions on the environment alone
  // ---------------------------------------------------------------------

  /** The action does not evict `key`, does not fail or cancel a call for it, and brings
      such a call only responses that are stored. */
  ghost predicate Benign(p: Policy, s: State, a: Action, key: Key) {
    && a != Evict(key)
    && Reliable(s, a, key)
    && (IsCallerAction(a) && a.c in s.callers && s.callers[a.c].key == Some(key) ==>
          && !a.Abort?
          && (a.Respond? ==> p.mayStore(a.resp) && Keepable(p, a.resp)))
  }

  /** The action stores something under `key`. */
  predicate Stores(s: State, a: Action, key: Key) {
    || (a.Refresh? && a.key == key)
    || (a.Store? && !a.err && a.c in s.callers && s.callers[a.c].key == Some(key))
  }

  /** Whatever was held for `key` at the start: no eviction, failure or cancellation touches
      it, its origin responses are storable, and once it has read Fresh or was stored
      (`warm`), it reads Fresh.  Overtaking is excluded unless `overtaking` says otherwise. */
  ghost predicate SteadyRun(p: Policy, s: State, acts: seq<Action>, key: Key, warm: bool, overtaking: bool)
    requires Runs(p, s, acts)
    decreases |acts|
  {
    && (warm ==> FreshAt(p, s, key))
    && (acts != [] ==>
          && Benign(p, s, acts[0], key) && (overtaking || !Overtakes(s, acts[0], key))
          && SteadyRun(p, Do(p, s, acts[0]), acts[1..], key, FreshAt(p, s, key) || Stores(s, acts[0], key), overtaking))
  }

  /** A guard for `key` is given up only when the key reads Fresh or was just stored. */
  lemma DropperIsWarm(p: Policy, s: State, a: Action, key: Key)
    requires IsCallerAction(a) && Enabled(p, s, a) && Benign(p, s, a, key) && s.callers[a.c].key == Some(key)
    ensures NextPc(p, s, a).Releasing? ==> FreshAt(p, s, key) || Stores(s, a, key)
  {
  }

  lemma {:induction false} SteadySettles(p: Policy, s: State, acts: seq<Action>, key: Key, warm: bool, overtaking: bool)
    requires Runs(p, s, acts) && SteadyRun(p, s, acts, key, warm, overtaking) && (key in s.dropped ==> warm)
    ensures SettledRun(p, s, acts, key, overtaking)
    decreases |acts|
  {
    if acts != [] {
      var a := acts[0];
      if IsCallerAction(a) && s.callers[a.c].key == Some(key) { DropperIsWarm(p, s, a, key); }
      SteadySettles(p, Do(p, s, a), acts[1..], key, FreshAt(p, s, key) || Stores(s, a, key), overtaking);
    }
  }

  /** Whatever the key held at the start -- nothing, or an entry that is fresh, stale or
      expired: without eviction, failure or cancellation, and with storable responses that
      stay Fresh, at most one guarded origin call is made for it, and with nobody overtaking
      at most one origin call at all. */
  lemma SingleFlightWhenSteady(p: Policy, s: State, acts: seq<Action>, key: Key, overtaking: bool)
    requires Init(s) && Runs(p, s, acts) && SteadyRun(p, s, acts, key, false, overtaking)
    ensures AtMostOneGuardedCall(After(p, s, acts), key)
    ensures !overtaking ==> AtMostOneCall(After(p, s, acts), key)
  {
    SteadySettles(p, s, acts, key, false, overtaking);
    SingleFlight(p, s, acts, key, overtaking);
  }
}
