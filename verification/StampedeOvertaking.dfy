/**
 The window between the map insert and the mutex lock of `acquire_handle`: taking
 both in one step closes it, and a waiter that slips into it can always bring a
 second origin call.
 */
module StampedeOvertaking {
  import opened CacheTypes
  import opened Stampede
  import opened StampedeSafety
  import opened StampedeSingleFlight

  // ---------------------------------------------------------------------
  // Insert and lock as one step
  // ---------------------------------------------------------------------

  /** Every insert into the lock map is immediately followed by the lock of the new mutex. */
  ghost predicate Fused(p: Policy, s: State, acts: seq<Action>)
    requires Runs(p, s, acts)
    decreases |acts|
  {
    acts == [] || (
      && (Inserts(s, acts[0]) ==> |acts| > 1 && acts[1] == LockOwn(acts[0].c))
      && Fused(p, Do(p, s, acts[0]), acts[1..]))
  }

  /** Nobody is between insert and lock, except the caller whose lock comes next. */
  ghost predicate NoneInserted(s: State, acts: seq<Action>) {
    forall c :: c in s.callers && s.callers[c].pc.Inserted? ==> acts != [] && acts[0] == LockOwn(c)
  }

  lemma NoneInsertedStep(p: Policy, s: State, acts: seq<Action>)
    requires acts != [] && Runs(p, s, acts) && Fused(p, s, acts) && NoneInserted(s, acts)
    ensures NoneInserted(Do(p, s, acts[0]), acts[1..])
    ensures !acts[0].LockOwn? ==> forall c :: c in s.callers ==> !s.callers[c].pc.Inserted?
  {
    Frame(p, s, acts[0]);
  }

  ghost predicate NobodyOvertakes(p: Policy, s: State, acts: seq<Action>, key: Key)
    requires Runs(p, s, acts)
    decreases |acts|
  {
    acts == [] || (!Overtakes(s, acts[0], key) && NobodyOvertakes(p, Do(p, s, acts[0]), acts[1..], key))
  }

  lemma {:induction false} FusedNeverOvertakes(p: Policy, s: State, acts: seq<Action>, key: Key)
    requires Runs(p, s, acts) && Fused(p, s, acts) && NoneInserted(s, acts)
    ensures NobodyOvertakes(p, s, acts, key)
    decreases |acts|
  {
    if acts != [] {
      NoneInsertedStep(p, s, acts);
      FusedNeverOvertakes(p, Do(p, s, acts[0]), acts[1..], key);
    }
  }

  lemma {:induction false} SettledWithoutOvertaking(p: Policy, s: State, acts: seq<Action>, key: Key)
    requires Runs(p, s, acts) && SettledRun(p, s, acts, key, true) && NobodyOvertakes(p, s, acts, key)
    ensures SettledRun(p, s, acts, key, false)
    decreases |acts|
  {
    if acts != [] { SettledWithoutOvertaking(p, Do(p, s, acts[0]), acts[1..], key); }
  }

  /** With the insert and the lock fused into one step, a run in which the key reads Fresh
      from the first dropped guard on calls the origin at most once for it, whatever the
      interleaving and whatever the key held at the start. */
  lemma FusedSingleFlight(p: Policy, s: State, acts: seq<Action>, key: Key)
    requires Init(s) && Runs(p, s, acts) && Fused(p, s, acts) && SettledRun(p, s, acts, key, true)
    ensures AtMostOneCall(After(p, s, acts), key)
  {
    FusedNeverOvertakes(p, s, acts, key);
    SettledWithoutOvertaking(p, s, acts, key);
    SingleFlight(p, s, acts, key, false);
  }

  /** The same from conditions on the environment alone. */
  lemma FusedSingleFlightWhenSteady(p: Policy, s: State, acts: seq<Action>, key: Key)
    requires Init(s) && Runs(p, s, acts) && Fused(p, s, acts) && SteadyRun(p, s, acts, key, false, true)
    ensures AtMostOneCall(After(p, s, acts), key)
  {
    SteadySettles(p, s, acts, key, false, true);
    FusedSingleFlight(p, s, acts, key);
  }

  // ---------------------------------------------------------------------
  // What an overtaking waiter can bring about
  // ---------------------------------------------------------------------

  /** The waiter `c` takes the mutex, finds nothing, finds the key occupied and calls the origin. */
  function WaiterFirst(c: Tid): seq<Action> {
    [LockWait(c), GiveBack(c), LookAgain(c, false), ReenterMap(c), StartCall(c)]
  }

  /** Then the owner `o` gets its mutex, finds nothing either and calls the origin too. */
  function OwnerNext(o: Tid): seq<Action> { [LockOwn(o), Check(o, false), StartCall(o)] }

  lemma TwoSteps(p: Policy, s: State, a: Action, b: Action)
    requires Enabled(p, s, a) && Enabled(p, Do(p, s, a), b)
    ensures Runs(p, s, [a, b]) && After(p, s, [a, b]) == Do(p, Do(p, s, a), b)
  {
    var s1 := Do(p, s, a);
    assert [a, b][1..] == [b] && [b][1..] == [];
    assert Runs(p, Do(p, s1, b), []);
    assert Runs(p, s1, [b]) && After(p, s1, [b]) == Do(p, s1, b);
  }

  lemma ThreeSteps(p: Policy, s: State, a: Action, b: Action, c: Action)
    requires Enabled(p, s, a) && Enabled(p, Do(p, s, a), b) && Enabled(p, Do(p, Do(p, s, a), b), c)
    ensures Runs(p, s, [a, b, c]) && After(p, s, [a, b, c]) == Do(p, Do(p, Do(p, s, a), b), c)
  {
    assert [a, b, c][1..] == [b, c];
    TwoSteps(p, Do(p, s, a), b, c);
  }

  /** `s` is a state where `c` waits for the mutex that `o` has inserted but not locked,
      and the key reads neither Fresh nor Stale. */
  ghost predicate Overtakable(p: Policy, s: State, c: Tid, o: Tid, key: Key) {
    && c in s.callers && o in s.callers && c != o
    && s.callers[c].key == Some(key) && s.callers[o].key == Some(key) && key in s.locks
    && s.callers[c].pc.Waiting? && s.callers[o].pc == Inserted(s.callers[c].pc.lock)
    && s.callers[c].pc.lock !in s.held
    && Verdict(p, s, key, false).Expired?
  }

  lemma WaiterLooks(p: Policy, s: State, c: Tid, o: Tid, key: Key) returns (t: State)
    requires Overtakable(p, s, c, o, key)
    ensures Enabled(p, s, LockWait(c)) && Enabled(p, Do(p, s, LockWait(c)), GiveBack(c))
    ensures Enabled(p, Do(p, Do(p, s, LockWait(c)), GiveBack(c)), LookAgain(c, false))
    ensures t == Do(p, Do(p, Do(p, s, LockWait(c)), GiveBack(c)), LookAgain(c, false))
    ensures c in t.callers && t.callers == s.callers[c := t.callers[c]] && t.callers[c].pc == Reenter && t.callers[c].key == Some(key)
    ensures t.calls == s.calls && t.locks == s.locks && s.callers[c].pc.lock !in t.held
    ensures Verdict(p, t, key, false).Expired?
  {
    var s1 := Do(p, s, LockWait(c));
    var s2 := Do(p, s1, GiveBack(c));
    t := Do(p, s2, LookAgain(c, false));
  }

  lemma WaiterFetches(p: Policy, s: State, c: Tid, key: Key) returns (t: State)
    requires c in s.callers && s.callers[c].pc == Reenter && s.callers[c].key == Some(key) && key in s.locks
    ensures Enabled(p, s, ReenterMap(c)) && Enabled(p, Do(p, s, ReenterMap(c)), StartCall(c))
    ensures t == Do(p, Do(p, s, ReenterMap(c)), StartCall(c))
    ensures c in t.callers && t.callers == s.callers[c := t.callers[c]] && t.held == s.held
    ensures t.calls == s.calls + [Call(c, Some(key), false)] && t.table == s.table && t.clock == s.clock
  {
    var s1 := Do(p, s, ReenterMap(c));
    t := Do(p, s1, StartCall(c));
  }

  lemma WaiterCalls(p: Policy, s: State, c: Tid, o: Tid, key: Key) returns (t: State)
    requires Overtakable(p, s, c, o, key)
    ensures Runs(p, s, WaiterFirst(c)) && t == After(p, s, WaiterFirst(c))
    ensures c in t.callers && t.callers == s.callers[c := t.callers[c]] && s.callers[c].pc.lock !in t.held
    ensures t.calls == s.calls + [Call(c, Some(key), false)] && Verdict(p, t, key, false).Expired?
  {
    var u := WaiterLooks(p, s, c, o, key);
    t := WaiterFetches(p, u, c, key);
    var xs, ys := [LockWait(c), GiveBack(c), LookAgain(c, false)], [ReenterMap(c), StartCall(c)];
    ThreeSteps(p, s, LockWait(c), GiveBack(c), LookAgain(c, false));
    TwoSteps(p, u, ReenterMap(c), StartCall(c));
    RunsJoin(p, s, xs, ys);
    assert WaiterFirst(c) == xs + ys;
  }

  lemma OwnerCalls(p: Policy, s: State, o: Tid, key: Key) returns (t: State)
    requires o in s.callers && s.callers[o].key == Some(key) && s.callers[o].pc.Inserted?
    requires s.callers[o].pc.lock !in s.held && Verdict(p, s, key, false).Expired?
    ensures Runs(p, s, OwnerNext(o)) && t == After(p, s, OwnerNext(o))
    ensures t.calls == s.calls + [Call(o, Some(key), true)]
  {
    var s1 := Do(p, s, LockOwn(o));
    var s2 := Do(p, s1, Check(o, false));
    t := Do(p, s2, StartCall(o));
    ThreeSteps(p, s, LockOwn(o), Check(o, false), StartCall(o));
  }

  lemma {:induction false} RunsJoin(p: Policy, s: State, xs: seq<Action>, ys: seq<Action>)
    requires Runs(p, s, xs) && Runs(p, After(p, s, xs), ys)
    ensures Runs(p, s, xs + ys) && After(p, s, xs + ys) == After(p, After(p, s, xs), ys)
    decreases |xs|
  {
    if xs == [] {
      assert xs + ys == ys;
    } else {
      RunsJoin(p, Do(p, s, xs[0]), xs[1..], ys);
      assert (xs + ys)[1..] == xs[1..] + ys;
    }
  }

  /** The converse of `SingleFlight`: wherever a waiter can overtake and the key reads neither
      Fresh nor Stale, eight steps without any error, eviction, cancellation or passage of
      time lead to two origin calls for the key, the second one guarded. */
  lemma OvertakingCanCallTwice(p: Policy, s: State, c: Tid, o: Tid, key: Key)
    requires Overtakable(p, s, c, o, key)
    ensures Enabled(p, s, LockWait(c))
    ensures var acts := WaiterFirst(c) + OwnerNext(o);
            && Runs(p, s, acts)
            && After(p, s, acts).calls == s.calls + [Call(c, Some(key), false), Call(o, Some(key), true)]
  {
    var t := WaiterCalls(p, s, c, o, key);
    var u := OwnerCalls(p, t, o, key);
    RunsJoin(p, s, WaiterFirst(c), OwnerNext(o));
  }
}
