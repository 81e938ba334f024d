/**
 Lock-map ownership, mutual exclusion, freedom from deadlock and the bound on
 work, for every run of the stampede protocol.
 */
module StampedeTheorems {
  import opened CacheTypes
  import opened Stampede
  import opened StampedeSafety

  /** A key is in the lock map exactly while one caller is between its vacant insert and
      its removal, and the map holds that caller's mutex. */
  lemma LockMapOwnership(p: Policy, t: State, key: Key)
    requires Reachable(p, t)
    ensures key in t.locks <==> exists c :: OwnerOf(t, c, key)
    ensures forall c, d :: OwnerOf(t, c, key) && OwnerOf(t, d, key) ==> c == d
    ensures forall c :: OwnerOf(t, c, key) ==> key in t.locks && Owns(t.callers[c].pc) == Some(t.locks[key])
  {
    ReachableInv(p, t);
  }

  /** The check in `drop` always finds the caller's own mutex, and nobody replaces it
      between that check and the unconditional removal, which takes no entry of another caller. */
  lemma DropFindsItsOwnLock(p: Policy, t: State, c: Tid)
    requires Reachable(p, t)
    requires c in t.callers && (t.callers[c].pc.Releasing? || t.callers[c].pc.Removing?)
    ensures var me := t.callers[c];
            && me.key.Some? && me.key.value in t.locks && t.locks[me.key.value] == me.pc.lock
            && (me.pc.Releasing? ==> NextPc(p, t, Compare(c)).Removing?)
            && (me.pc.Removing? ==> forall d, k :: d != c && OwnerOf(t, d, k) ==> k in NextLocks(p, t, Remove(c)))
  {
    ReachableInv(p, t);
    assert CallerOk(p, t.callers[c]);
  }

  /** Two origin calls made under a Primary guard for one key are never in progress together. */
  lemma GuardedFetchesDisjoint(p: Policy, t: State, key: Key, c: Tid, d: Tid)
    requires Reachable(p, t)
    requires FetchingGuarded(t, c, key) && FetchingGuarded(t, d, key)
    ensures c == d
  {
    ReachableInv(p, t);
  }

  // ---------------------------------------------------------------------
  // Who calls the origin without a guard
  // ---------------------------------------------------------------------

  predicate PastCall(pc: Pc) {
    pc.InFlight? || pc.Storing? || pc.Releasing? || pc.Removing? || pc.Unlocking? || pc.Done?
  }

  /** Every recorded origin call is explained by what its caller saw. */
  ghost predicate CallsExplained(s: State) {
    forall i :: 0 <= i < |s.calls| ==> Explained(s, s.calls[i])
  }

  ghost predicate Explained(s: State, call: Call) {
    && call.tid in s.callers && s.callers[call.tid].key == call.key
    && PastCall(s.callers[call.tid].pc) && CallLog(call.key, call.guarded, s.callers[call.tid].log)
  }

  lemma PastCallStays(p: Policy, s: State, a: Action)
    requires IsCallerAction(a) && Enabled(p, s, a) && PastCall(s.callers[a.c].pc)
    ensures PastCall(NextPc(p, s, a)) && Seen(p, s, a) == []
  {
  }

  lemma OldCallStays(p: Policy, s: State, a: Action, call: Call)
    requires Enabled(p, s, a) && Explained(s, call)
    ensures Explained(Do(p, s, a), call)
  {
    Frame(p, s, a);
    if IsCallerAction(a) && a.c == call.tid {
      PastCallStays(p, s, a);
      assert s.callers[a.c].log + [] == s.callers[a.c].log;
    }
  }

  lemma NewCallExplained(p: Policy, s: State, a: Action)
    requires a.StartCall? && Enabled(p, s, a) && CallersOk(p, s)
    ensures Explained(Do(p, s, a), Call(a.c, s.callers[a.c].key, s.callers[a.c].pc.guard.Some?))
  {
    NextOkCall(p, s, a);
  }

  lemma CallsExplainedStep(p: Policy, s: State, a: Action)
    requires Enabled(p, s, a) && Inv(p, s) && CallsExplained(s)
    ensures CallsExplained(Do(p, s, a))
  {
    forall i | 0 <= i < |NextCalls(p, s, a)|
      ensures Explained(Do(p, s, a), NextCalls(p, s, a)[i])
    {
      if i < |s.calls| { OldCallStays(p, s, a, s.calls[i]); } else { NewCallExplained(p, s, a); }
    }
  }

  lemma {:induction false} CallsExplainedAlways(p: Policy, s: State, acts: seq<Action>)
    requires Inv(p, s) && CallsExplained(s) && Runs(p, s, acts)
    ensures CallsExplained(After(p, s, acts))
    decreases |acts|
  {
    if acts != [] {
      InvStep(p, s, acts[0]);
      CallsExplainedStep(p, s, acts[0]);
      CallsExplainedAlways(p, Do(p, s, acts[0]), acts[1..]);
    }
  }

  lemma SeenBeforeCall(key: Option<Key>, guarded: bool, log: seq<Event>)
    requires key.Some? && CallLog(key, guarded, log)
    ensures if guarded then exists seen :: log == seen + [Called(true)] && PrimaryMissed(seen)
            else log == [Looked(Expired), Occupied, Awaited, Looked(Expired), Occupied, Called(false)]
  {
    assert log == log[..|log| - 1] + [Called(guarded)];
  }

  /** A keyed origin call without a guard is made only by a caller that looked and found
      nothing usable, found the key occupied, waited, looked again and found nothing
      usable, and found the key occupied again; a keyed call with a guard only by a
      caller whose last look, taken as Primary, was not fresh. */
  lemma WhyTheOriginIsCalled(p: Policy, t: State, i: nat)
    requires Reachable(p, t) && i < |t.calls| && t.calls[i].key.Some?
    ensures t.calls[i].tid in t.callers && t.callers[t.calls[i].tid].key == t.calls[i].key
    ensures var log := t.callers[t.calls[i].tid].log;
            if t.calls[i].guarded then
              exists seen :: log == seen + [Called(true)] && PrimaryMissed(seen)
            else
              log == [Looked(Expired), Occupied, Awaited, Looked(Expired), Occupied, Called(false)]
  {
    var s, acts :| Init(s) && Runs(p, s, acts) && After(p, s, acts) == t;
    CallsExplainedAlways(p, s, acts);
    assert Explained(t, t.calls[i]);
    SeenBeforeCall(t.calls[i].key, t.calls[i].guarded, t.callers[t.calls[i].tid].log);
  }

  // ---------------------------------------------------------------------
  // One call per caller
  // ---------------------------------------------------------------------

  ghost predicate OnceEach(s: State) {
    forall i, j :: 0 <= i < |s.calls| && 0 <= j < |s.calls| && s.calls[i].tid == s.calls[j].tid ==> i == j
  }

  lemma OnceEachStep(p: Policy, s: State, a: Action)
    requires Enabled(p, s, a) && CallsExplained(s) && OnceEach(s)
    ensures OnceEach(Do(p, s, a))
  {
    if a.StartCall? {
      forall i | 0 <= i < |s.calls|
        ensures s.calls[i].tid != a.c
      {
        assert Explained(s, s.calls[i]);
      }
    }
    assert OnceEach(s) && NextCalls(p, s, a) == Do(p, s, a).calls;
  }

  /** Along any run no caller calls the origin twice, and callers and their keys stay. */
  lemma {:induction false} CalledOnce(p: Policy, s: State, acts: seq<Action>)
    requires Inv(p, s) && CallsExplained(s) && OnceEach(s) && Runs(p, s, acts)
    ensures CallsExplained(After(p, s, acts)) && OnceEach(After(p, s, acts))
    ensures After(p, s, acts).callers.Keys == s.callers.Keys
    ensures forall c :: c in s.callers ==> After(p, s, acts).callers[c].key == s.callers[c].key
    decreases |acts|
  {
    if acts != [] {
      InvStep(p, s, acts[0]);
      CallsExplainedStep(p, s, acts[0]);
      OnceEachStep(p, s, acts[0]);
      Frame(p, s, acts[0]);
      CalledOnce(p, Do(p, s, acts[0]), acts[1..]);
    }
  }

  // ---------------------------------------------------------------------
  // Deadlock freedom
  // ---------------------------------------------------------------------

  /** An action of caller `c` that needs nothing but the state of `c`. */
  function Own(s: State, c: Tid): Action
    requires c in s.callers && Awaits(s.callers[c].pc).None? && !s.callers[c].pc.Done?
  {
    match s.callers[c].pc
    case Start => Lookup(c, false)
    case Enter(_) => EnterMap(c)
    case Woken(_) => GiveBack(c)
    case Reread => LookAgain(c, false)
    case Reenter => ReenterMap(c)
    case DoubleCheck(_) => Check(c, false)
    case Fetch(_) => StartCall(c)
    case InFlight(_) => Respond(c, Response(200, HTTP_11, [], []))
    case Storing(_, _) => Store(c, false)
    case Releasing(_, _) => Compare(c)
    case Removing(_, _) => Remove(c)
    case Unlocking(_, _) => Unlock(c)
  }

  lemma OwnEnabled(p: Policy, s: State, c: Tid)
    requires Inv(p, s) && c in s.callers && Awaits(s.callers[c].pc).None? && !s.callers[c].pc.Done?
    ensures IsCallerAction(Own(s, c)) && !Own(s, c).Abort? && Enabled(p, s, Own(s, c))
  {
    assert CallerOk(p, s.callers[c]);
  }

  ghost predicate CanProceed(p: Policy, s: State) {
    exists a :: IsCallerAction(a) && !a.Abort? && Enabled(p, s, a)
  }

  lemma UnfinishedCanProceed(p: Policy, t: State, c: Tid)
    requires Inv(p, t) && c in t.callers && !t.callers[c].pc.Done?
    ensures CanProceed(p, t)
  {
    var wanted := Awaits(t.callers[c].pc);
    if wanted.None? {
      OwnEnabled(p, t, c);
    } else if wanted.value in t.held {
      OwnEnabled(p, t, t.held[wanted.value]);
    } else {
      assert Enabled(p, t, if t.callers[c].pc.Waiting? then LockWait(c) else LockOwn(c));
    }
  }

  lemma AllDoneIsClean(p: Policy, t: State)
    requires Inv(p, t) && forall c :: c in t.callers ==> t.callers[c].pc.Done?
    ensures t.locks == map[] && t.held == map[]
  {
    forall key
      ensures key !in t.locks
    {
      if key in t.locks { EntryNeedsOwner(t, key); }
    }
  }

  lemma EntryNeedsOwner(t: State, key: Key)
    requires MapInv(t) && key in t.locks
    ensures exists c :: c in t.callers && !t.callers[c].pc.Done?
  {
    assert EntryOwned(t, key);
  }

  lemma NoHoldAndWait(pc: Pc)
    ensures Awaits(pc).None? || Holds(pc).None?
  {
  }

  lemma AllDoneCannotProceed(p: Policy, t: State)
    requires forall c :: c in t.callers ==> t.callers[c].pc.Done?
    ensures !CanProceed(p, t)
  {
  }

  /** No caller waits for one mutex while it holds another, and while any caller is
      unfinished some caller can take a step that is neither cancellation nor failure.
      Hence when nobody can move everyone is done, no entry is left in the lock map and
      no mutex is left locked. */
  lemma NoDeadlock(p: Policy, t: State)
    requires Reachable(p, t)
    ensures forall c :: c in t.callers ==> Awaits(t.callers[c].pc).None? || Holds(t.callers[c].pc).None?
    ensures CanProceed(p, t) <==> exists c :: c in t.callers && !t.callers[c].pc.Done?
    ensures !CanProceed(p, t) ==> t.locks == map[] && t.held == map[]
  {
    ReachableInv(p, t);
    forall c | c in t.callers
      ensures Awaits(t.callers[c].pc).None? || Holds(t.callers[c].pc).None?
    {
      NoHoldAndWait(t.callers[c].pc);
    }
    if c :| c in t.callers && !t.callers[c].pc.Done? {
      UnfinishedCanProceed(p, t, c);
    } else {
      AllDoneCannotProceed(p, t);
      AllDoneIsClean(p, t);
    }
  }

  // ---------------------------------------------------------------------
  // A free environment
  // ---------------------------------------------------------------------

  /** Nothing is taken for granted of the environment: time passes and entries are evicted at any
      point, auto-refresh stores any response within bounds, and the origin answers anything. */
  lemma AnythingCanHappen(p: Policy, s: State, d: nat, key: Key, tags: seq<Tag>, resp: Response, c: Tid)
    requires p.maxBody.Some? ==> |resp.body| <= p.maxBody.value
    requires p.minBody.Some? ==> |resp.body| >= p.minBody.value
    requires p.ttlFor(resp.status).Some? && p.ttlFor(resp.status).value > 0
    ensures Enabled(p, s, Tick(d)) && Enabled(p, s, Evict(key)) && Enabled(p, s, Refresh(key, tags, resp))
    ensures c in s.callers && s.callers[c].pc.InFlight? ==> forall any :: Enabled(p, s, Respond(c, any))
  {
  }

  /** Every backend operation can fail where it can succeed, and a call can be cut off at each
      await but that of its own lock. */
  lemma AnythingCanFail(p: Policy, s: State, c: Tid)
    ensures Enabled(p, s, Lookup(c, true)) == Enabled(p, s, Lookup(c, false))
    ensures Enabled(p, s, LookAgain(c, true)) == Enabled(p, s, LookAgain(c, false))
    ensures Enabled(p, s, Check(c, true)) == Enabled(p, s, Check(c, false))
    ensures Enabled(p, s, Store(c, true)) == Enabled(p, s, Store(c, false))
    ensures c in s.callers ==>
              var pc := s.callers[c].pc;
              Enabled(p, s, Abort(c)) ==
              (pc.Start? || pc.Waiting? || pc.Reread? || pc.DoubleCheck? || pc.InFlight? || pc.Storing?)
  {
  }

  // ---------------------------------------------------------------------
  // Bounded work
  // ---------------------------------------------------------------------

  /** How many steps a caller can still take, how often it can still look at the lock
      map, and how often it can still wait for somebody else's mutex. */
  function Left(pc: Pc): (nat, nat, nat) {
    match pc
    case Start => (14, 2, 1)
    case Enter(_) => (13, 2, 1)
    case Waiting(_) => (12, 1, 1)
    case Woken(_) => (11, 1, 0)
    case Reread => (10, 1, 0)
    case Reenter => (9, 1, 0)
    case Inserted(_) => (8, 0, 0)
    case DoubleCheck(_) => (7, 0, 0)
    case Fetch(_) => (6, 0, 0)
    case InFlight(_) => (5, 0, 0)
    case Storing(_, _) => (4, 0, 0)
    case Releasing(_, _) => (3, 0, 0)
    case Removing(_, _) => (2, 0, 0)
    case Unlocking(_, _) => (1, 0, 0)
    case Done(_) => (0, 0, 0)
  }

  /** Steps, map accesses and waits of caller `c` in `acts`. */
  function Spent(acts: seq<Action>, c: Tid): (nat, nat, nat) {
    if acts == [] then (0, 0, 0)
    else
      var rest := Spent(acts[1..], c);
      if !IsCallerAction(acts[0]) || acts[0].c != c then rest
      else (rest.0 + 1,
            rest.1 + (if acts[0].EnterMap? || acts[0].ReenterMap? then 1 else 0),
            rest.2 + (if acts[0].LockWait? then 1 else 0))
  }

  lemma LeftShrinks(p: Policy, s: State, a: Action)
    requires IsCallerAction(a) && Enabled(p, s, a)
    ensures var before, after := Left(s.callers[a.c].pc), Left(NextPc(p, s, a));
            && after.0 < before.0
            && after.1 + (if a.EnterMap? || a.ReenterMap? then 1 else 0) <= before.1
            && after.2 + (if a.LockWait? then 1 else 0) <= before.2
  {
  }

  /** Whatever the others do, a call takes at most fourteen steps, looks at the lock map at
      most twice and waits for somebody else's mutex at most once. */
  lemma {:induction false} BoundedWork(p: Policy, s: State, acts: seq<Action>, c: Tid)
    requires Runs(p, s, acts) && c in s.callers
    ensures c in After(p, s, acts).callers
    ensures var spent, before, after := Spent(acts, c), Left(s.callers[c].pc), Left(After(p, s, acts).callers[c].pc);
            spent.0 + after.0 <= before.0 <= 14 && spent.1 + after.1 <= before.1 <= 2 && spent.2 + after.2 <= before.2 <= 1
    decreases |acts|
  {
    if acts != [] {
      Frame(p, s, acts[0]);
      if IsCallerAction(acts[0]) && acts[0].c == c { LeftShrinks(p, s, acts[0]); }
      BoundedWork(p, Do(p, s, acts[0]), acts[1..], c);
    }
  }
}
