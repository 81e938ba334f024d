/**
 Exactly when the stampede lock keeps its promise of one origin call per key: which
 starting states allow a steady run with two calls, and which do not.
 */
module StampedeExact {
  import opened CacheTypes
  import opened Stampede
  import opened StampedeSafety
  import opened StampedeTheorems
  import opened StampedeSingleFlight
  import opened StampedeOvertaking

  ghost predicate CallerFor(s: State, c: Tid, key: Key) { c in s.callers && s.callers[c].key == Some(key) }

  /** At most one caller asks for `key`. */
  ghost predicate Lone(s: State, key: Key) {
    forall c, d :: CallerFor(s, c, key) && CallerFor(s, d, key) ==> c == d
  }

  // ---------------------------------------------------------------------
  // One caller, or a key that reads Fresh
  // ---------------------------------------------------------------------

  lemma LoneCallsOnce(p: Policy, s: State, acts: seq<Action>, key: Key)
    requires Init(s) && Runs(p, s, acts) && Lone(s, key)
    ensures AtMostOneCall(After(p, s, acts), key)
  {
    CalledOnce(p, s, acts);
    var t := After(p, s, acts);
    forall i, j | Calls(t, i, key) && Calls(t, j, key)
      ensures i == j
    {
      assert Explained(t, t.calls[i]) && Explained(t, t.calls[j]);
      assert CallerFor(s, t.calls[i].tid, key) && CallerFor(s, t.calls[j].tid, key);
    }
  }

  /** The callers of `key` have not begun or are done, and none of them called the origin. */
  ghost predicate Untouched(s: State, key: Key) {
    && (forall c :: CallerFor(s, c, key) ==> s.callers[c].pc.Start? || s.callers[c].pc.Done?)
    && (forall i :: !Calls(s, i, key))
  }

  lemma UntouchedStep(p: Policy, s: State, a: Action, key: Key)
    requires Enabled(p, s, a) && Untouched(s, key) && FreshAt(p, s, key) && Benign(p, s, a, key)
    ensures Untouched(Do(p, s, a), key)
  {
    Frame(p, s, a);
    if IsCallerAction(a) && CallerFor(s, a.c, key) { FreshIsServed(p, s, a, key); }
    OtherKeysCall(p, s, a, key);
  }

  lemma FreshIsServed(p: Policy, s: State, a: Action, key: Key)
    requires IsCallerAction(a) && Enabled(p, s, a) && CallerFor(s, a.c, key)
    requires s.callers[a.c].pc.Start? || s.callers[a.c].pc.Done?
    requires FreshAt(p, s, key) && Benign(p, s, a, key)
    ensures NextPc(p, s, a).Done? && NextCalls(p, s, a) == s.calls
  {
  }

  lemma {:induction false} FreshCallsNever(p: Policy, s: State, acts: seq<Action>, key: Key)
    requires Runs(p, s, acts) && Untouched(s, key) && FreshAt(p, s, key) && SteadyRun(p, s, acts, key, true, true)
    ensures AtMostOneCall(After(p, s, acts), key)
    decreases |acts|
  {
    if acts != [] {
      UntouchedStep(p, s, acts[0], key);
      FreshCallsNever(p, Do(p, s, acts[0]), acts[1..], key);
    }
  }

  // ---------------------------------------------------------------------
  // Two callers and a key that does not read Fresh
  // ---------------------------------------------------------------------

  /** What the race leaves alone while `key` reads neither Fresh nor Stale. */
  ghost predicate Moves(p: Policy, s: State, t: State, c: Tid, key: Key) {
    && OnlyMoved(s, t, c) && t.held == s.held && t.calls == s.calls && Verdict(p, t, key, false).Expired?
  }

  lemma Misses(p: Policy, s: State, c: Tid, key: Key)
    requires CallerFor(s, c, key) && s.callers[c].pc.Start? && Verdict(p, s, key, false).Expired?
    ensures Enabled(p, s, Lookup(c, false))
    ensures var t := Do(p, s, Lookup(c, false));
            Moves(p, s, t, c, key) && t.callers[c].pc == Enter(None) && t.locks == s.locks
  {
    Frame(p, s, Lookup(c, false));
  }

  lemma FindsVacant(p: Policy, s: State, o: Tid, key: Key)
    requires CallerFor(s, o, key) && s.callers[o].pc.Enter? && key !in s.locks && Verdict(p, s, key, false).Expired?
    ensures Enabled(p, s, EnterMap(o))
    ensures var t := Do(p, s, EnterMap(o));
            Moves(p, s, t, o, key) && key in t.locks && t.callers[o].pc == Inserted(t.locks[key])
  {
    Frame(p, s, EnterMap(o));
  }

  lemma FindsOccupied(p: Policy, s: State, c: Tid, key: Key)
    requires CallerFor(s, c, key) && s.callers[c].pc == Enter(None) && key in s.locks && Verdict(p, s, key, false).Expired?
    ensures Enabled(p, s, EnterMap(c))
    ensures var t := Do(p, s, EnterMap(c));
            Moves(p, s, t, c, key) && t.locks == s.locks && t.callers[c].pc == Waiting(s.locks[key])
  {
    Frame(p, s, EnterMap(c));
  }

  /** `o` and `c` miss; `o` fills the vacant entry, and `c` finds it occupied. */
  function Approach(c: Tid, o: Tid): seq<Action> {
    [Lookup(o, false), Lookup(c, false)] + [EnterMap(o), EnterMap(c)]
  }

  lemma BothApproach(p: Policy, s: State, c: Tid, o: Tid, key: Key)
    requires c != o && CallerFor(s, c, key) && CallerFor(s, o, key)
    requires s.callers[c].pc.Start? && s.callers[o].pc.Start? && s.locks == map[] && s.held == map[]
    requires Verdict(p, s, key, false).Expired?
    ensures Runs(p, s, Approach(c, o)) && Overtakable(p, After(p, s, Approach(c, o)), c, o, key)
    ensures After(p, s, Approach(c, o)).calls == s.calls
  {
    Misses(p, s, o, key);
    var s1 := Do(p, s, Lookup(o, false));
    Misses(p, s1, c, key);
    var s2 := Do(p, s1, Lookup(c, false));
    FindsVacant(p, s2, o, key);
    var s3 := Do(p, s2, EnterMap(o));
    FindsOccupied(p, s3, c, key);
    TwoSteps(p, s, Lookup(o, false), Lookup(c, false));
    TwoSteps(p, s2, EnterMap(o), EnterMap(c));
    RunsJoin(p, s, [Lookup(o, false), Lookup(c, false)], [EnterMap(o), EnterMap(c)]);
  }

  function Race(c: Tid, o: Tid): seq<Action> { Approach(c, o) + (WaiterFirst(c) + OwnerNext(o)) }

  lemma RaceCallsTwice(p: Policy, s: State, c: Tid, o: Tid, key: Key)
    requires c != o && CallerFor(s, c, key) && CallerFor(s, o, key)
    requires s.callers[c].pc.Start? && s.callers[o].pc.Start? && s.locks == map[] && s.held == map[]
    requires Verdict(p, s, key, false).Expired?
    ensures Runs(p, s, Race(c, o))
    ensures After(p, s, Race(c, o)).calls == s.calls + [Call(c, Some(key), false), Call(o, Some(key), true)]
  {
    BothApproach(p, s, c, o, key);
    OvertakingCanCallTwice(p, After(p, s, Approach(c, o)), c, o, key);
    RunsJoin(p, s, Approach(c, o), WaiterFirst(c) + OwnerNext(o));
  }

  /** Nothing fails, nothing is stored and no time passes. */
  predicate Plain(a: Action) {
    match a
    case Lookup(_, err) => !err
    case LookAgain(_, err) => !err
    case Check(_, err) => !err
    case EnterMap(_) => true
    case ReenterMap(_) => true
    case LockOwn(_) => true
    case LockWait(_) => true
    case GiveBack(_) => true
    case StartCall(_) => true
    case _ => false
  }

  lemma PlainKeepsExpired(p: Policy, s: State, a: Action, key: Key)
    requires Enabled(p, s, a) && Plain(a) && Verdict(p, s, key, false).Expired?
    ensures Verdict(p, Do(p, s, a), key, false).Expired? && Benign(p, s, a, key) && !Stores(s, a, key)
  {
  }

  lemma {:induction false} PlainIsSteady(p: Policy, s: State, acts: seq<Action>, key: Key)
    requires Runs(p, s, acts) && Verdict(p, s, key, false).Expired? && forall i :: 0 <= i < |acts| ==> Plain(acts[i])
    ensures SteadyRun(p, s, acts, key, false, true)
    decreases |acts|
  {
    if acts != [] {
      assert Plain(acts[0]);
      PlainKeepsExpired(p, s, acts[0], key);
      PlainIsSteady(p, Do(p, s, acts[0]), acts[1..], key);
    }
  }

  /** Time after which an entry held for `key` is outlived. */
  function Outlived(s: State, key: Key): Action { Tick(if key in s.table then s.table[key].staleUntil + 1 else 0) }

  /** Two callers of a key that does not read Fresh: once a held entry is outlived they can
      both call the origin, although nothing is evicted, fails or is cancelled. */
  lemma TwoCallsFrom(p: Policy, s: State, c: Tid, o: Tid, key: Key)
    requires Init(s) && c != o && CallerFor(s, c, key) && CallerFor(s, o, key) && !FreshAt(p, s, key)
    ensures var acts := [Outlived(s, key)] + Race(c, o);
            && Runs(p, s, acts) && SteadyRun(p, s, acts, key, false, true)
            && !AtMostOneCall(After(p, s, acts), key)
  {
    var s1 := Do(p, s, Outlived(s, key));
    var acts := [Outlived(s, key)] + Race(c, o);
    assert acts[1..] == Race(c, o);
    RaceCallsTwice(p, s1, c, o, key);
    PlainIsSteady(p, s1, Race(c, o), key);
    var t := After(p, s1, Race(c, o));
    assert Calls(t, 0, key) && Calls(t, 1, key);
  }

  // ---------------------------------------------------------------------
  // The exact condition
  // ---------------------------------------------------------------------

  /** From an idle start, every steady run calls the origin at most once for `key` if and
      only if the key reads Fresh at the start or no two callers ask for it. */
  lemma SingleFlightExactly(p: Policy, s: State, key: Key)
    requires Init(s)
    ensures (forall acts :: Runs(p, s, acts) && SteadyRun(p, s, acts, key, false, true) ==>
               AtMostOneCall(After(p, s, acts), key))
            <==> FreshAt(p, s, key) || Lone(s, key)
  {
    if FreshAt(p, s, key) || Lone(s, key) {
      forall acts | Runs(p, s, acts) && SteadyRun(p, s, acts, key, false, true)
        ensures AtMostOneCall(After(p, s, acts), key)
      {
        if Lone(s, key) { LoneCallsOnce(p, s, acts, key); } else { FreshCallsNever(p, s, acts, key); }
      }
    } else {
      var c, o :| CallerFor(s, c, key) && CallerFor(s, o, key) && c != o;
      TwoCallsFrom(p, s, c, o, key);
    }
  }

  /** Two callers, nothing stored, nothing locked. */
  function Cold(key: Key): State {
    State(0, map[], [], map[], map[], map[0 := Caller(Some(key), [], Start, []), 1 := Caller(Some(key), [], Start, [])],
          [], {})
  }

  /** Without fusing the insert and the lock the claim of `FusedSingleFlightWhenSteady` is
      false: two concurrent requests for a cold key can both reach the origin. */
  lemma TwoCallsForOneColdKey(p: Policy, key: Key)
    ensures exists s, acts :: Init(s) && Runs(p, s, acts) && SteadyRun(p, s, acts, key, false, true)
                              && !AtMostOneCall(After(p, s, acts), key)
  {
    TwoCallsFrom(p, Cold(key), 1, 0, key);
  }
}
