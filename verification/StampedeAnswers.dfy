/**
 What a call is answered: in terms of the actions of a run, and of what its caller saw.
 */
module StampedeAnswers {
  import opened CacheTypes
  import opened Stampede
  import opened StampedeSafety
  import opened StampedeRuns

  // ---------------------------------------------------------------------
  // Failures and origin responses
  // ---------------------------------------------------------------------

  ghost predicate NotAborted(past: seq<Action>, c: Tid) { Abort(c) !in past }

  ghost predicate NoResponse(past: seq<Action>, c: Tid) { forall q :: Respond(c, q) !in past }

  ghost predicate OnlyResponse(past: seq<Action>, c: Tid, resp: Response) {
    forall q :: Respond(c, q) in past <==> q == resp
  }

  ghost predicate AnsweredBy(past: seq<Action>, c: Tid, out: Outcome) {
    match out
    case Failed => Abort(c) in past
    case FromOrigin(resp) => NotAborted(past, c) && OnlyResponse(past, c, resp)
    case FromCache(_) => NotAborted(past, c) && NoResponse(past, c)
  }

  /** What has happened to a caller that is at `pc`. */
  ghost predicate Happened(past: seq<Action>, c: Tid, pc: Pc) {
    match pc
    case Storing(_, resp) => NotAborted(past, c) && OnlyResponse(past, c, resp)
    case Releasing(_, out) => AnsweredBy(past, c, out)
    case Removing(_, out) => AnsweredBy(past, c, out)
    case Unlocking(_, out) => AnsweredBy(past, c, out)
    case Done(out) => AnsweredBy(past, c, out)
    case _ => NotAborted(past, c) && NoResponse(past, c)
  }

  lemma OneMore(past: seq<Action>, a: Action, c: Tid)
    ensures Abort(c) in past + [a] <==> Abort(c) in past || a == Abort(c)
    ensures forall q :: Respond(c, q) in past + [a] <==> Respond(c, q) in past || a == Respond(c, q)
  {
  }

  lemma HappenedStays(past: seq<Action>, a: Action, c: Tid, pc: Pc)
    requires Happened(past, c, pc) && a != Abort(c) && !(a.Respond? && a.c == c)
    ensures Happened(past + [a], c, pc)
  {
    OneMore(past, a, c);
  }

  lemma AbortHappens(p: Policy, s: State, a: Action, past: seq<Action>)
    requires a.Abort? && Enabled(p, s, a)
    ensures Happened(past + [a], a.c, NextPc(p, s, a))
  {
    OneMore(past, a, a.c);
  }

  lemma ResponseHappens(p: Policy, s: State, a: Action, past: seq<Action>)
    requires a.Respond? && Enabled(p, s, a) && Happened(past, a.c, s.callers[a.c].pc)
    ensures Happened(past + [a], a.c, NextPc(p, s, a))
  {
    OneMore(past, a, a.c);
  }

  /** Any other action passes on what has happened. */
  lemma PassesOn(p: Policy, s: State, a: Action, past: seq<Action>)
    requires IsCallerAction(a) && !a.Abort? && !a.Respond? && Enabled(p, s, a) && Happened(past, a.c, s.callers[a.c].pc)
    ensures Happened(past, a.c, NextPc(p, s, a))
  {
  }

  lemma HappenedStep(p: Policy, s: State, a: Action, past: seq<Action>, c: Tid)
    requires Enabled(p, s, a) && c in s.callers && Happened(past, c, s.callers[c].pc)
    ensures c in Do(p, s, a).callers && Happened(past + [a], c, Do(p, s, a).callers[c].pc)
  {
    Frame(p, s, a);
    if !IsCallerAction(a) || a.c != c {
      HappenedStays(past, a, c, s.callers[c].pc);
    } else if a.Abort? {
      AbortHappens(p, s, a, past);
    } else if a.Respond? {
      ResponseHappens(p, s, a, past);
    } else {
      PassesOn(p, s, a, past);
      HappenedStays(past, a, c, NextPc(p, s, a));
    }
  }

  lemma {:induction false} HappenedAlways(p: Policy, s: State, acts: seq<Action>, i: nat, c: Tid)
    requires Init(s) && Runs(p, s, acts) && i <= |acts| && c in s.callers
    ensures c in StateAt(p, s, acts, i).callers && Happened(acts[..i], c, StateAt(p, s, acts, i).callers[c].pc)
  {
    if i > 0 {
      HappenedAlways(p, s, acts, i - 1, c);
      StateStep(p, s, acts, i - 1);
      HappenedStep(p, StateAt(p, s, acts, i - 1), acts[i - 1], acts[..i - 1], c);
      assert acts[..i] == acts[..i - 1] + [acts[i - 1]];
    }
  }

  /** A finished call failed if and only if it was cancelled or its origin failed; it was given
      an origin response if and only if the origin sent that one and the call was not cut off,
      whether or not the store succeeded; and in every other case it was answered from the cache. */
  lemma AnswersFollowActions(p: Policy, s: State, acts: seq<Action>, c: Tid)
    requires Init(s) && Runs(p, s, acts) && c in s.callers
    requires c in After(p, s, acts).callers && After(p, s, acts).callers[c].pc.Done?
    ensures var out := After(p, s, acts).callers[c].pc.out;
            && (out.Failed? <==> Abort(c) in acts)
            && (forall resp :: out == FromOrigin(resp) <==> Respond(c, resp) in acts && Abort(c) !in acts)
            && (out.FromCache? <==> Abort(c) !in acts && forall resp :: Respond(c, resp) !in acts)
  {
    HappenedAlways(p, s, acts, |acts|, c);
    StateEnd(p, s, acts);
    assert acts[..|acts|] == acts;
  }

  // ---------------------------------------------------------------------
  // Cached answers
  // ---------------------------------------------------------------------

  /** A backend read of caller `c` that does not fail. */
  predicate Looks(a: Action, c: Tid) { a == Lookup(c, false) || a == LookAgain(c, false) || a == Check(c, false) }

  /** In state `s` the backend gives out `hit` under `key`, and it is fresh, or stale but usable,
      at that instant. */
  predicate Usable(p: Policy, s: State, key: Key, hit: Hit) {
    && key in s.table && hit.at == s.clock && s.clock <= s.table[key].staleUntil
    && hit.read == CacheRead(s.table[key].entry, Some(s.table[key].expiresAt), Some(s.table[key].staleUntil))
    && (hit.isFresh <==> s.clock + p.refreshBefore < s.table[key].expiresAt)
    && (!hit.isFresh ==> s.clock < s.table[key].expiresAt || (p.staleWindow > 0 && s.clock < s.table[key].staleUntil))
  }

  function Carried(pc: Pc): Option<Hit> {
    match pc
    case Enter(stale) => stale
    case Releasing(_, FromCache(hit)) => Some(hit)
    case Removing(_, FromCache(hit)) => Some(hit)
    case Unlocking(_, FromCache(hit)) => Some(hit)
    case Done(FromCache(hit)) => Some(hit)
    case _ => None
  }

  /** Any hit a step hands to its caller was carried before, or read by this very action. */
  lemma CarriedStep(p: Policy, s: State, a: Action)
    requires IsCallerAction(a) && Enabled(p, s, a) && Carried(NextPc(p, s, a)).Some?
    ensures || Carried(NextPc(p, s, a)) == Carried(s.callers[a.c].pc)
            || (&& Looks(a, a.c) && s.callers[a.c].key.Some?
                && Usable(p, s, s.callers[a.c].key.value, Carried(NextPc(p, s, a)).value))
  {
  }

  /** Action `i` of the run is the look that read `hit`. */
  ghost predicate ReadAt(p: Policy, s: State, acts: seq<Action>, i: nat, c: Tid, key: Key, hit: Hit)
    requires Runs(p, s, acts)
  {
    i < |acts| && Looks(acts[i], c) && Usable(p, StateAt(p, s, acts, i), key, hit)
  }

  lemma {:induction false} CarriedWasRead(p: Policy, s: State, acts: seq<Action>, n: nat, c: Tid, hit: Hit) returns (i: nat)
    requires Init(s) && Runs(p, s, acts) && n <= |acts| && c in s.callers
    requires c in StateAt(p, s, acts, n).callers && Carried(StateAt(p, s, acts, n).callers[c].pc) == Some(hit)
    ensures i < n && s.callers[c].key.Some? && ReadAt(p, s, acts, i, c, s.callers[c].key.value, hit)
  {
    var a, before := acts[n - 1], StateAt(p, s, acts, n - 1);
    StateStep(p, s, acts, n - 1);
    CallersStay(p, s, acts, n - 1);
    Frame(p, before, a);
    if Carried(before.callers[c].pc) == Some(hit) {
      i := CarriedWasRead(p, s, acts, n - 1, c, hit);
    } else {
      CarriedStep(p, before, a);
      i := n - 1;
    }
  }

  /** A caller whose first look finds a fresh entry is answered with it, at once and for good. */
  lemma FreshLookIsAnswered(p: Policy, s: State, acts: seq<Action>, i: nat, n: nat, c: Tid, key: Key, hit: Hit)
    requires Runs(p, s, acts) && i < n <= |acts| && acts[i] == Lookup(c, false)
    requires c in s.callers && s.callers[c].key == Some(key)
    requires Usable(p, StateAt(p, s, acts, i), key, hit) && hit.isFresh
    ensures c in StateAt(p, s, acts, n).callers && StateAt(p, s, acts, n).callers[c].pc == Done(FromCache(hit))
  {
    StateStep(p, s, acts, i);
    CallersStay(p, s, acts, i);
    FreshIsDone(p, StateAt(p, s, acts, i), c, key, hit);
    DoneStays(p, s, acts, i + 1, n, c);
  }

  lemma FreshIsDone(p: Policy, s: State, c: Tid, key: Key, hit: Hit)
    requires Enabled(p, s, Lookup(c, false)) && s.callers[c].key == Some(key) && Usable(p, s, key, hit) && hit.isFresh
    ensures NextPc(p, s, Lookup(c, false)) == Done(FromCache(hit))
  {
  }

  /** Stale while revalidate: a caller whose first look finds a stale entry, and which then finds
      the key occupied, is answered with that entry without waiting. */
  lemma StaleLookIsAnswered(p: Policy, s: State, acts: seq<Action>, i: nat, j: nat, n: nat, c: Tid, key: Key, hit: Hit)
    requires Runs(p, s, acts) && i < j < n <= |acts| && acts[i] == Lookup(c, false) && acts[j] == EnterMap(c)
    requires forall k :: i < k < j ==> !(IsCallerAction(acts[k]) && acts[k].c == c)
    requires c in s.callers && s.callers[c].key == Some(key)
    requires Usable(p, StateAt(p, s, acts, i), key, hit) && !hit.isFresh
    requires key in StateAt(p, s, acts, j).locks
    ensures c in StateAt(p, s, acts, n).callers && StateAt(p, s, acts, n).callers[c].pc == Done(FromCache(hit))
  {
    StaleIsKept(p, s, acts, i, j, c, key, hit);
    StateStep(p, s, acts, j);
    CallersStay(p, s, acts, j);
    StaleIsDone(p, StateAt(p, s, acts, j), c, key, hit);
    DoneStays(p, s, acts, j + 1, n, c);
  }

  lemma StaleIsKept(p: Policy, s: State, acts: seq<Action>, i: nat, j: nat, c: Tid, key: Key, hit: Hit)
    requires Runs(p, s, acts) && i < j < |acts| && acts[i] == Lookup(c, false)
    requires forall k :: i < k < j ==> !(IsCallerAction(acts[k]) && acts[k].c == c)
    requires c in s.callers && s.callers[c].key == Some(key)
    requires Usable(p, StateAt(p, s, acts, i), key, hit) && !hit.isFresh
    ensures c in StateAt(p, s, acts, j).callers && StateAt(p, s, acts, j).callers[c].pc == Enter(Some(hit))
  {
    StateStep(p, s, acts, i);
    CallersStay(p, s, acts, i);
    StaleEnters(p, StateAt(p, s, acts, i), c, key, hit);
    Unmoved(p, s, acts, i + 1, j, c);
  }

  lemma StaleEnters(p: Policy, s: State, c: Tid, key: Key, hit: Hit)
    requires Enabled(p, s, Lookup(c, false)) && s.callers[c].key == Some(key) && Usable(p, s, key, hit) && !hit.isFresh
    ensures NextPc(p, s, Lookup(c, false)) == Enter(Some(hit))
  {
  }

  lemma StaleIsDone(p: Policy, s: State, c: Tid, key: Key, hit: Hit)
    requires Enabled(p, s, EnterMap(c)) && s.callers[c].key == Some(key) && key in s.locks && s.callers[c].pc == Enter(Some(hit))
    ensures NextPc(p, s, EnterMap(c)) == Done(FromCache(hit))
  {
  }

  /** A finished call was answered as what it saw demands. */
  lemma AnswersFollowObservations(p: Policy, t: State, c: Tid)
    requires Reachable(p, t) && c in t.callers && t.callers[c].pc.Done?
    ensures AnswerLog(t.callers[c].key, t.callers[c].pc.out, t.callers[c].log)
  {
    ReachableInv(p, t);
    assert CallerOk(p, t.callers[c]);
  }
}
