/**
 What every interleaving of the stampede protocol keeps: who owns a lock-map
 entry, who holds a mutex, and what each caller has seen.
 */
module StampedeSafety {
  import opened CacheTypes
  import opened Stampede

  /** The mutex a caller has put in the lock map and not yet removed. */
  function Owns(pc: Pc): Option<LockId> {
    match pc
    case Inserted(lock) => Some(lock)
    case DoubleCheck(lock) => Some(lock)
    case Fetch(guard) => guard
    case InFlight(guard) => guard
    case Storing(guard, _) => guard
    case Releasing(lock, _) => Some(lock)
    case Removing(lock, _) => Some(lock)
    case _ => None
  }

  /** The mutex a caller has locked. */
  function Holds(pc: Pc): Option<LockId> {
    match pc
    case Woken(lock) => Some(lock)
    case Unlocking(lock, _) => Some(lock)
    case Inserted(_) => None
    case _ => Owns(pc)
  }

  /** The mutex a caller is blocked on. */
  function Awaits(pc: Pc): Option<LockId> {
    match pc
    case Waiting(lock) => Some(lock)
    case Inserted(lock) => Some(lock)
    case _ => None
  }

  ghost predicate OwnerOf(s: State, c: Tid, key: Key) {
    c in s.callers && s.callers[c].key == Some(key) && Owns(s.callers[c].pc).Some?
  }

  ghost predicate FetchingGuarded(s: State, c: Tid, key: Key) {
    && c in s.callers && s.callers[c].key == Some(key)
    && (s.callers[c].pc.InFlight? || s.callers[c].pc.Storing?) && s.callers[c].pc.guard.Some?
  }

  // ---------------------------------------------------------------------
  // Invariants
  // ---------------------------------------------------------------------

  /** Each entry of the lock map belongs to the caller that allocated its mutex, and conversely. */
  ghost predicate MapInv(s: State) {
    && (forall key :: key in s.locks ==> EntryOwned(s, key))
    && (forall c :: c in s.callers && Owns(s.callers[c].pc).Some? ==> OwnsEntry(s, c))
  }

  ghost predicate EntryOwned(s: State, key: Key)
    requires key in s.locks
  {
    var lock := s.locks[key];
    && lock < |s.born| && s.born[lock].1 == key
    && OwnerOf(s, s.born[lock].0, key) && Owns(s.callers[s.born[lock].0].pc) == Some(lock)
  }

  ghost predicate OwnsEntry(s: State, c: Tid)
    requires c in s.callers && Owns(s.callers[c].pc).Some?
  {
    var lock := Owns(s.callers[c].pc).value;
    && s.callers[c].key.Some? && s.callers[c].key.value in s.locks
    && s.locks[s.callers[c].key.value] == lock && lock < |s.born| && s.born[lock].0 == c
  }

  /** A mutex is locked exactly by the caller whose program point holds it. */
  ghost predicate HeldInv(s: State) {
    && (forall lock :: lock in s.held ==>
          s.held[lock] in s.callers && Holds(s.callers[s.held[lock]].pc) == Some(lock))
    && (forall c :: c in s.callers && Holds(s.callers[c].pc).Some? ==>
          Holds(s.callers[c].pc).value in s.held && s.held[Holds(s.callers[c].pc).value] == c)
  }

  /** A waiter waits for a mutex that was allocated for its own key. */
  ghost predicate WaitInv(s: State) { forall c :: c in s.callers ==> WaitsOk(s, c) }

  ghost predicate WaitsOk(s: State, c: Tid)
    requires c in s.callers
  {
    s.callers[c].pc.Waiting? || s.callers[c].pc.Woken? ==>
      s.callers[c].pc.lock < |s.born| && s.callers[c].key == Some(s.born[s.callers[c].pc.lock].1)
  }

  const WAITED: seq<Event> := [Looked(Expired), Occupied, Awaited, Looked(Expired)]

  /** How a caller can have become Primary: at once, or after one wait and a fruitless second look. */
  ghost predicate BecamePrimary(log: seq<Event>) {
    (exists v: HitState :: !v.Fresh? && log == [Looked(v), Vacant]) || log == WAITED + [Vacant]
  }

  ghost predicate PrimaryMissed(log: seq<Event>) {
    |log| > 0 && log[|log| - 1].Looked? && !log[|log| - 1].verdict.Fresh? && BecamePrimary(log[..|log| - 1])
  }

  ghost predicate FetchLog(key: Option<Key>, guarded: bool, log: seq<Event>) {
    if key.None? then !guarded && log == []
    else if guarded then PrimaryMissed(log)
    else log == WAITED + [Occupied]
  }

  ghost predicate CallLog(key: Option<Key>, guarded: bool, log: seq<Event>) {
    |log| > 0 && log[|log| - 1] == Called(guarded) && FetchLog(key, guarded, log[..|log| - 1])
  }

  /** The fresh look of a Primary that then need not call the origin. */
  ghost predicate PrimaryFound(log: seq<Event>) {
    |log| > 0 && log[|log| - 1] == Looked(Fresh) && BecamePrimary(log[..|log| - 1])
  }

  /** What a caller has seen when it is answered: an origin call for the origin's response; for
      a cached one a fresh look, a stale look at an occupied key, a second look after a wait that
      was not Expired, or the fresh look of a Primary. */
  ghost predicate AnswerLog(key: Option<Key>, out: Outcome, log: seq<Event>) {
    match out
    case Failed => true
    case FromOrigin(_) => exists guarded: bool :: CallLog(key, guarded, log)
    case FromCache(hit) =>
      && key.Some?
      && (|| (log == [Looked(Fresh)] && hit.isFresh)
          || (log == [Looked(Stale), Occupied] && !hit.isFresh)
          || log == [Looked(Expired), Occupied, Awaited, Looked(if hit.isFresh then Fresh else Stale)]
          || (PrimaryFound(log) && hit.isFresh))
  }

  /** What a caller has seen, as a function of where it is. */
  ghost predicate CallerOk(p: Policy, caller: Caller) {
    var log := caller.log;
    match caller.pc
    case Start => log == []
    case Enter(stale) =>
      && caller.key.Some? && log == [Looked(if stale.Some? then Stale else Expired)]
      && (stale.Some? ==> !stale.value.isFresh)
    case Inserted(_) => caller.key.Some? && BecamePrimary(log)
    case Waiting(_) => caller.key.Some? && log == [Looked(Expired), Occupied]
    case Woken(_) => caller.key.Some? && log == [Looked(Expired), Occupied, Awaited]
    case Reread => caller.key.Some? && log == [Looked(Expired), Occupied, Awaited]
    case Reenter => caller.key.Some? && log == WAITED
    case DoubleCheck(_) => caller.key.Some? && BecamePrimary(log)
    case Fetch(guard) => FetchLog(caller.key, guard.Some?, log)
    case InFlight(guard) => CallLog(caller.key, guard.Some?, log)
    case Storing(guard, resp) => caller.key.Some? && CallLog(caller.key, guard.Some?, log) && Keepable(p, resp)
    case Releasing(_, out) => caller.key.Some? && AnswerLog(caller.key, out, log)
    case Removing(_, out) => caller.key.Some? && AnswerLog(caller.key, out, log)
    case Unlocking(_, out) => caller.key.Some? && AnswerLog(caller.key, out, log)
    case Done(out) => AnswerLog(caller.key, out, log)
  }

  ghost predicate CallersOk(p: Policy, s: State) {
    forall c :: c in s.callers ==> CallerOk(p, s.callers[c])
  }

  ghost predicate Inv(p: Policy, s: State) {
    MapInv(s) && HeldInv(s) && WaitInv(s) && CallersOk(p, s)
  }

  // ---------------------------------------------------------------------
  // One step, seen through `Owns` and `Holds`
  // ---------------------------------------------------------------------

  ghost predicate OnlyMoved(s: State, t: State, c: Tid) {
    && c in s.callers && t.callers.Keys == s.callers.Keys && t.callers[c].key == s.callers[c].key
    && (forall d :: d in s.callers && d != c ==> t.callers[d] == s.callers[d])
  }

  ghost predicate MapMove(s: State, t: State, c: Tid) {
    && OnlyMoved(s, t, c)
    && var had, has := Owns(s.callers[c].pc), Owns(t.callers[c].pc);
       || (t.locks == s.locks && t.born == s.born && has == had)
       || (&& s.callers[c].key.Some? && s.callers[c].key.value !in s.locks
           && had == None && has == Some(|s.born|)
           && t.locks == s.locks[s.callers[c].key.value := |s.born|]
           && t.born == s.born + [(c, s.callers[c].key.value)])
       || (&& s.callers[c].key.Some? && had.Some? && has == None
           && t.locks == s.locks - {s.callers[c].key.value} && t.born == s.born)
  }

  ghost predicate HeldMove(s: State, t: State, c: Tid) {
    && OnlyMoved(s, t, c)
    && var had, has := Holds(s.callers[c].pc), Holds(t.callers[c].pc);
       || (t.held == s.held && has == had)
       || (had == None && has.Some? && has.value !in s.held && t.held == s.held[has.value := c])
       || (had.Some? && has == None && t.held == s.held - {had.value})
  }

  lemma Frame(p: Policy, s: State, a: Action)
    requires Enabled(p, s, a)
    ensures IsCallerAction(a) ==> OnlyMoved(s, Do(p, s, a), a.c)
    ensures !IsCallerAction(a) ==> Do(p, s, a).callers == s.callers
  {
  }

  lemma OwnsNext(p: Policy, s: State, a: Action)
    requires IsCallerAction(a) && Enabled(p, s, a) && MapInv(s)
    ensures Owns(NextPc(p, s, a)) ==
            if Inserts(s, a) then Some(|s.born|) else if a.Remove? then None else Owns(s.callers[a.c].pc)
  {
    match a
    case Compare(_) => assert Owns(s.callers[a.c].pc).Some? ==> OwnsEntry(s, a.c);
    case EnterMap(_) => OwnsFromMap(p, s, a);
    case ReenterMap(_) => OwnsFromMap(p, s, a);
    case Lookup(_, _) => OwnsWaiting(p, s, a);
    case LookAgain(_, _) => OwnsWaiting(p, s, a);
    case LockWait(_) => OwnsWaiting(p, s, a);
    case GiveBack(_) => OwnsWaiting(p, s, a);
    case _ => OwnsGuarded(p, s, a);
  }

  lemma OwnsFromMap(p: Policy, s: State, a: Action)
    requires (a.EnterMap? || a.ReenterMap?) && Enabled(p, s, a)
    ensures Owns(NextPc(p, s, a)) == if Inserts(s, a) then Some(|s.born|) else None
    ensures Owns(s.callers[a.c].pc) == None
  {
  }

  lemma OwnsWaiting(p: Policy, s: State, a: Action)
    requires (a.Lookup? || a.LookAgain? || a.LockWait? || a.GiveBack?) && Enabled(p, s, a)
    ensures Owns(s.callers[a.c].pc) == Owns(NextPc(p, s, a)) == None
  {
  }

  lemma OwnsGuarded(p: Policy, s: State, a: Action)
    requires IsCallerAction(a) && Enabled(p, s, a) && !a.Compare? && !a.EnterMap? && !a.ReenterMap?
    requires !a.Lookup? && !a.LookAgain? && !a.LockWait? && !a.GiveBack?
    ensures Owns(NextPc(p, s, a)) == if a.Remove? then None else Owns(s.callers[a.c].pc)
  {
  }

  lemma MapMoves(p: Policy, s: State, a: Action)
    requires IsCallerAction(a) && Enabled(p, s, a) && MapInv(s)
    ensures MapMove(s, Do(p, s, a), a.c)
  {
    OwnsNext(p, s, a);
  }

  lemma HoldsNext(p: Policy, s: State, a: Action)
    requires IsCallerAction(a) && Enabled(p, s, a)
    ensures var had, has := Holds(s.callers[a.c].pc), Holds(NextPc(p, s, a));
            if a.LockOwn? || a.LockWait? then had == None && has == Some(s.callers[a.c].pc.lock)
            else if a.GiveBack? || a.Unlock? then had == Some(s.callers[a.c].pc.lock) && has == None
            else has == had
  {
  }

  lemma HeldMoves(p: Policy, s: State, a: Action)
    requires IsCallerAction(a) && Enabled(p, s, a)
    ensures HeldMove(s, Do(p, s, a), a.c)
  {
    Frame(p, s, a);
    HoldsNext(p, s, a);
  }

  // ---------------------------------------------------------------------
  // Preservation
  // ---------------------------------------------------------------------

  lemma MapInvKept(s: State, t: State, c: Tid)
    requires MapInv(s) && MapMove(s, t, c)
    ensures MapInv(t)
  {
    forall d | d in t.callers && Owns(t.callers[d].pc).Some?
      ensures OwnsEntry(t, d)
    {
      assert d != c ==> OwnsEntry(s, d);
    }
    forall key | key in t.locks
      ensures EntryOwned(t, key)
    {
      assert key in s.locks ==> EntryOwned(s, key);
    }
  }

  lemma HeldInvKept(s: State, t: State, c: Tid)
    requires HeldInv(s) && HeldMove(s, t, c)
    ensures HeldInv(t)
  {
  }

  /** The caller that `a` leaves in place of `a.c`. */
  function Next(p: Policy, s: State, a: Action): Caller
    requires IsCallerAction(a) && Enabled(p, s, a)
  {
    s.callers[a.c].(pc := NextPc(p, s, a), log := s.callers[a.c].log + Seen(p, s, a))
  }

  lemma NextOkEarly(p: Policy, s: State, a: Action)
    requires IsCallerAction(a) && Enabled(p, s, a) && CallerOk(p, s.callers[a.c])
    requires a.Lookup? || a.EnterMap? || a.LockOwn? || a.LockWait? || a.GiveBack? || a.LookAgain? || a.ReenterMap?
    ensures CallerOk(p, Next(p, s, a))
  {
  }

  lemma NextOkCheck(p: Policy, s: State, a: Action)
    requires a.Check? && Enabled(p, s, a) && CallerOk(p, s.callers[a.c])
    ensures CallerOk(p, Next(p, s, a))
  {
    var log := s.callers[a.c].log + Seen(p, s, a);
    assert log[..|log| - 1] == s.callers[a.c].log;
  }

  lemma NextOkCall(p: Policy, s: State, a: Action)
    requires a.StartCall? && Enabled(p, s, a) && CallerOk(p, s.callers[a.c])
    ensures CallerOk(p, Next(p, s, a))
  {
    var log := s.callers[a.c].log + Seen(p, s, a);
    assert log[..|log| - 1] == s.callers[a.c].log;
  }

  lemma NextOkAnswer(p: Policy, s: State, a: Action)
    requires (a.Respond? || a.Store?) && Enabled(p, s, a) && CallerOk(p, s.callers[a.c])
    ensures CallerOk(p, Next(p, s, a))
  {
    assert s.callers[a.c].log + [] == s.callers[a.c].log;
  }

  lemma NextOkDrop(p: Policy, s: State, a: Action)
    requires (a.Compare? || a.Remove? || a.Unlock?) && Enabled(p, s, a) && CallerOk(p, s.callers[a.c])
    ensures CallerOk(p, Next(p, s, a))
  {
    assert s.callers[a.c].log + Seen(p, s, a) == s.callers[a.c].log;
  }

  lemma NextOkAbort(p: Policy, s: State, a: Action)
    requires a.Abort? && Enabled(p, s, a) && CallerOk(p, s.callers[a.c])
    ensures CallerOk(p, Next(p, s, a))
  {
  }

  lemma NextOk(p: Policy, s: State, a: Action)
    requires IsCallerAction(a) && Enabled(p, s, a) && CallerOk(p, s.callers[a.c])
    ensures CallerOk(p, Next(p, s, a))
  {
    match a
    case Check(_, _) => NextOkCheck(p, s, a);
    case StartCall(_) => NextOkCall(p, s, a);
    case Respond(_, _) => NextOkAnswer(p, s, a);
    case Store(_, _) => NextOkAnswer(p, s, a);
    case Compare(_) => NextOkDrop(p, s, a);
    case Remove(_) => NextOkDrop(p, s, a);
    case Unlock(_) => NextOkDrop(p, s, a);
    case Abort(_) => NextOkAbort(p, s, a);
    case _ => NextOkEarly(p, s, a);
  }

  lemma CallerOkStep(p: Policy, s: State, a: Action)
    requires Enabled(p, s, a) && CallersOk(p, s)
    ensures CallersOk(p, Do(p, s, a))
  {
    Frame(p, s, a);
    if IsCallerAction(a) { NextOk(p, s, a); }
  }

  lemma WaitsNext(p: Policy, s: State, a: Action)
    requires IsCallerAction(a) && Enabled(p, s, a)
    requires NextPc(p, s, a).Waiting? || NextPc(p, s, a).Woken?
    ensures if a.EnterMap? then s.callers[a.c].key.Some? && s.callers[a.c].key.value in s.locks
                                && NextPc(p, s, a) == Waiting(s.locks[s.callers[a.c].key.value])
            else s.callers[a.c].pc == Waiting(NextPc(p, s, a).lock)
  {
  }

  lemma WaitInvStep(p: Policy, s: State, a: Action)
    requires Enabled(p, s, a) && WaitInv(s) && MapInv(s)
    ensures WaitInv(Do(p, s, a))
  {
    Frame(p, s, a);
    assert s.born <= NextBorn(p, s, a);
    forall c | c in s.callers
      ensures WaitsOk(Do(p, s, a), c)
    {
      assert WaitsOk(s, c);
      if IsCallerAction(a) && a.c == c && (NextPc(p, s, a).Waiting? || NextPc(p, s, a).Woken?) {
        WaitsNext(p, s, a);
        assert a.EnterMap? ==> EntryOwned(s, s.callers[c].key.value);
      }
    }
  }

  lemma InvStep(p: Policy, s: State, a: Action)
    requires Enabled(p, s, a) && Inv(p, s)
    ensures Inv(p, Do(p, s, a))
  {
    CallerOkStep(p, s, a);
    WaitInvStep(p, s, a);
    if IsCallerAction(a) {
      MapMoves(p, s, a);
      HeldMoves(p, s, a);
      MapInvKept(s, Do(p, s, a), a.c);
      HeldInvKept(s, Do(p, s, a), a.c);
    }
  }

  lemma {:induction false} InvAlways(p: Policy, s: State, acts: seq<Action>)
    requires Inv(p, s) && Runs(p, s, acts)
    ensures Inv(p, After(p, s, acts))
    decreases |acts|
  {
    if acts != [] {
      InvStep(p, s, acts[0]);
      InvAlways(p, Do(p, s, acts[0]), acts[1..]);
    }
  }

  /** The states some interleaving leads to. */
  ghost predicate Reachable(p: Policy, t: State) {
    exists s, acts :: Init(s) && Runs(p, s, acts) && After(p, s, acts) == t
  }

  lemma ReachableInv(p: Policy, t: State)
    requires Reachable(p, t)
    ensures Inv(p, t)
  {
    var s, acts :| Init(s) && Runs(p, s, acts) && After(p, s, acts) == t;
    InvAlways(p, s, acts);
  }
}
