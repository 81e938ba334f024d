/**
 Runs step by step: the state before each action, and what the recorded origin calls
 are in terms of actions.
 */
module StampedeRuns {
  import opened CacheTypes
  import opened Stampede
  import opened StampedeSafety
  import opened StampedeSingleFlight

  /** The state before action `i` of the run. */
  function StateAt(p: Policy, s: State, acts: seq<Action>, i: nat): State
    requires Runs(p, s, acts) && i <= |acts|
    decreases i
  {
    if i == 0 then s else StateAt(p, Do(p, s, acts[0]), acts[1..], i - 1)
  }

  lemma {:induction false} StateStep(p: Policy, s: State, acts: seq<Action>, i: nat)
    requires Runs(p, s, acts) && i < |acts|
    ensures Enabled(p, StateAt(p, s, acts, i), acts[i])
    ensures StateAt(p, s, acts, i + 1) == Do(p, StateAt(p, s, acts, i), acts[i])
    decreases i
  {
    if i > 0 { StateStep(p, Do(p, s, acts[0]), acts[1..], i - 1); }
  }

  lemma {:induction false} StateEnd(p: Policy, s: State, acts: seq<Action>)
    requires Runs(p, s, acts)
    ensures StateAt(p, s, acts, |acts|) == After(p, s, acts)
    decreases |acts|
  {
    if acts != [] { StateEnd(p, Do(p, s, acts[0]), acts[1..]); }
  }

  lemma {:induction false} InvAt(p: Policy, s: State, acts: seq<Action>, i: nat)
    requires Runs(p, s, acts) && i <= |acts| && Inv(p, s)
    ensures Inv(p, StateAt(p, s, acts, i))
  {
    if i > 0 {
      InvAt(p, s, acts, i - 1);
      StateStep(p, s, acts, i - 1);
      InvStep(p, StateAt(p, s, acts, i - 1), acts[i - 1]);
    }
  }

  /** Callers, their keys and their tags stay. */
  lemma {:induction false} CallersStay(p: Policy, s: State, acts: seq<Action>, i: nat)
    requires Runs(p, s, acts) && i <= |acts|
    ensures StateAt(p, s, acts, i).callers.Keys == s.callers.Keys
    ensures forall c :: c in s.callers ==>
              && StateAt(p, s, acts, i).callers[c].key == s.callers[c].key
              && StateAt(p, s, acts, i).callers[c].tags == s.callers[c].tags
  {
    if i > 0 {
      CallersStay(p, s, acts, i - 1);
      StateStep(p, s, acts, i - 1);
      Frame(p, StateAt(p, s, acts, i - 1), acts[i - 1]);
    }
  }

  /** Actions of others leave a caller as it is. */
  lemma {:induction false} Unmoved(p: Policy, s: State, acts: seq<Action>, i: nat, j: nat, c: Tid)
    requires Runs(p, s, acts) && i <= j <= |acts| && c in s.callers
    requires forall k :: i <= k < j ==> !(IsCallerAction(acts[k]) && acts[k].c == c)
    ensures c in StateAt(p, s, acts, i).callers && c in StateAt(p, s, acts, j).callers
    ensures StateAt(p, s, acts, j).callers[c] == StateAt(p, s, acts, i).callers[c]
    decreases j
  {
    CallersStay(p, s, acts, i);
    CallersStay(p, s, acts, j);
    if i < j {
      Unmoved(p, s, acts, i, j - 1, c);
      StateStep(p, s, acts, j - 1);
      Frame(p, StateAt(p, s, acts, j - 1), acts[j - 1]);
    }
  }

  /** A caller that is done stays so. */
  lemma {:induction false} DoneStays(p: Policy, s: State, acts: seq<Action>, i: nat, j: nat, c: Tid)
    requires Runs(p, s, acts) && i <= j <= |acts|
    requires c in StateAt(p, s, acts, i).callers && StateAt(p, s, acts, i).callers[c].pc.Done?
    ensures c in StateAt(p, s, acts, j).callers
    ensures StateAt(p, s, acts, j).callers[c] == StateAt(p, s, acts, i).callers[c]
    decreases j
  {
    if i < j {
      DoneStays(p, s, acts, i, j - 1, c);
      StateStep(p, s, acts, j - 1);
      Frame(p, StateAt(p, s, acts, j - 1), acts[j - 1]);
    }
  }

  // ---------------------------------------------------------------------
  // Origin calls are actions
  // ---------------------------------------------------------------------

  /** How many of the actions are origin calls of callers of `key`. */
  function StartCount(s: State, acts: seq<Action>, key: Key): nat {
    if acts == [] then 0
    else
      var a := acts[0];
      (if a.StartCall? && a.c in s.callers && s.callers[a.c].key == Some(key) then 1 else 0) + StartCount(s, acts[1..], key)
  }

  function CallCount(calls: seq<Call>, key: Key): nat {
    if calls == [] then 0
    else CallCount(calls[..|calls| - 1], key) + (if calls[|calls| - 1].key == Some(key) then 1 else 0)
  }

  lemma {:induction false} SameKeysCount(s: State, t: State, acts: seq<Action>, key: Key)
    requires t.callers.Keys == s.callers.Keys && forall c :: c in s.callers ==> t.callers[c].key == s.callers[c].key
    ensures StartCount(t, acts, key) == StartCount(s, acts, key)
  {
    if acts != [] { SameKeysCount(s, t, acts[1..], key); }
  }

  lemma {:induction false} CallsAreStarts(p: Policy, s: State, acts: seq<Action>, key: Key)
    requires Runs(p, s, acts)
    ensures CallCount(After(p, s, acts).calls, key) == CallCount(s.calls, key) + StartCount(s, acts, key)
    decreases |acts|
  {
    if acts != [] {
      var t := Do(p, s, acts[0]);
      Frame(p, s, acts[0]);
      SameKeysCount(s, t, acts[1..], key);
      CallsAreStarts(p, t, acts[1..], key);
      assert acts[0].StartCall? ==> t.calls[..|t.calls| - 1] == s.calls;
    }
  }

  lemma {:induction false} NoCalls(calls: seq<Call>, key: Key)
    ensures CallCount(calls, key) == 0 <==> forall i :: 0 <= i < |calls| ==> calls[i].key != Some(key)
  {
    if calls != [] {
      var front := calls[..|calls| - 1];
      NoCalls(front, key);
      assert forall i :: 0 <= i < |front| ==> front[i] == calls[i];
    }
  }

  lemma {:induction false} FewCalls(calls: seq<Call>, key: Key)
    ensures CallCount(calls, key) <= 1 <==>
            forall i, j :: 0 <= i < |calls| && 0 <= j < |calls| && calls[i].key == calls[j].key == Some(key) ==> i == j
  {
    if calls != [] {
      var n := |calls| - 1;
      var front := calls[..n];
      FewCalls(front, key);
      NoCalls(front, key);
      assert forall i :: 0 <= i < |front| ==> front[i] == calls[i];
      if calls[n].key == Some(key) && CallCount(front, key) > 0 {
        var i :| 0 <= i < n && front[i].key == Some(key);
        assert calls[i].key == calls[n].key == Some(key);
      }
    }
  }

  /** "At most one origin call for the key" says that at most one action of the run starts one. */
  lemma OneCallIsOneStart(p: Policy, s: State, acts: seq<Action>, key: Key)
    requires Init(s) && Runs(p, s, acts)
    ensures AtMostOneCall(After(p, s, acts), key) <==> StartCount(s, acts, key) <= 1
  {
    var calls := After(p, s, acts).calls;
    CallsAreStarts(p, s, acts, key);
    FewCalls(calls, key);
    assert AtMostOneCall(After(p, s, acts), key) <==>
           forall i, j :: 0 <= i < |calls| && 0 <= j < |calls| && calls[i].key == calls[j].key == Some(key) ==> i == j by {
      assert forall i :: Calls(After(p, s, acts), i, key) <==> 0 <= i < |calls| && calls[i].key == Some(key);
    }
  }
}
