/**
 What is stored, and where a response served from the cache comes from: every stored
 entry and every cached answer is traced to the actions of the run that brought it.
 */
module StampedeProvenance {
  import opened CacheTypes
  import opened Stampede
  import opened StampedeSafety
  import opened StampedeRuns
  import opened StampedeAnswers

  // ---------------------------------------------------------------------
  // The stored part of a response
  // ---------------------------------------------------------------------

  /** `kept` has exactly the members of `all` that satisfy `f`, in their order and as often as
      they occur: `places` says where each of them stands. */
  ghost predicate KeptAt(all: seq<Header>, kept: seq<Header>, f: Header -> bool, places: seq<nat>) {
    && |places| == |kept|
    && (forall j :: 0 <= j < |kept| ==> places[j] < |all| && kept[j] == all[places[j]])
    && (forall i, j :: 0 <= i < j < |places| ==> places[i] < places[j])
    && (forall i :: 0 <= i < |all| ==> (f(all[i]) <==> i in places))
  }

  function Shifted(places: seq<nat>): seq<nat> { seq(|places|, i requires 0 <= i < |places| => places[i] + 1) }

  lemma {:induction false} AllowedAreKept(allowed: Header -> bool, headers: seq<Header>) returns (places: seq<nat>)
    ensures KeptAt(headers, AllowedOnly(allowed, headers), allowed, places)
  {
    if headers == [] {
      places := [];
    } else {
      var rest := AllowedAreKept(allowed, headers[1..]);
      var kept := AllowedOnly(allowed, headers[1..]);
      ShiftedAre(headers, kept, allowed, rest);
      if allowed(headers[0]) {
        FirstKept(headers, kept, allowed, Shifted(rest));
        places := [0] + Shifted(rest);
      } else {
        FirstSkipped(headers, kept, allowed, Shifted(rest));
        places := Shifted(rest);
        assert [] + kept == kept;
      }
    }
  }

  lemma ShiftedHas(places: seq<nat>, i: nat)
    ensures i in Shifted(places) <==> i > 0 && i - 1 in places
  {
    if i > 0 && i - 1 in places {
      var j :| 0 <= j < |places| && places[j] == i - 1;
      assert Shifted(places)[j] == i;
    }
  }

  /** `KeptAt` for all but the first member. */
  ghost predicate KeptBehind(all: seq<Header>, kept: seq<Header>, f: Header -> bool, places: seq<nat>) {
    && |places| == |kept|
    && (forall j :: 0 <= j < |kept| ==> 0 < places[j] < |all| && kept[j] == all[places[j]])
    && (forall i, j :: 0 <= i < j < |places| ==> places[i] < places[j])
    && (forall i :: 0 < i < |all| ==> (f(all[i]) <==> i in places))
  }

  lemma ShiftedAre(all: seq<Header>, kept: seq<Header>, f: Header -> bool, rest: seq<nat>)
    requires all != [] && KeptAt(all[1..], kept, f, rest)
    ensures KeptBehind(all, kept, f, Shifted(rest))
  {
    var places, tail := Shifted(rest), all[1..];
    forall j | 0 <= j < |kept|
      ensures 0 < places[j] < |all| && kept[j] == all[places[j]]
    {
      assert places[j] == rest[j] + 1 && kept[j] == tail[rest[j]];
    }
    forall i | 0 < i < |all|
      ensures f(all[i]) <==> i in Shifted(rest)
    {
      ShiftedHas(rest, i);
      assert all[i] == all[1..][i - 1];
    }
  }

  lemma FirstSkipped(all: seq<Header>, kept: seq<Header>, f: Header -> bool, places: seq<nat>)
    requires all != [] && !f(all[0]) && KeptBehind(all, kept, f, places)
    ensures KeptAt(all, kept, f, places)
  {
    assert 0 !in places;
  }

  lemma FirstKept(all: seq<Header>, kept: seq<Header>, f: Header -> bool, places: seq<nat>)
    requires all != [] && f(all[0]) && KeptBehind(all, kept, f, places)
    ensures KeptAt(all, [all[0]] + kept, f, [0] + places)
  {
    forall i | 0 <= i < |all|
      ensures f(all[i]) <==> i in [0] + places
    {
      assert i in [0] + places <==> i == 0 || i in places;
    }
  }

  /** `entry` is the part of the response that is stored: its status, version and body, the
      extracted tags unless there are none, and exactly its allowed headers. */
  ghost predicate StoredPart(p: Policy, tags: seq<Tag>, resp: Response, entry: CacheEntry) {
    && entry.status == resp.status && entry.version == resp.version && entry.body == resp.body
    && (if tags == [] then entry.tags.None? else entry.tags == Some(tags))
    && exists places :: KeptAt(resp.headers, entry.headers, p.allowed, places)
  }

  lemma ProjectIsStoredPart(p: Policy, tags: seq<Tag>, resp: Response)
    ensures StoredPart(p, tags, resp, Project(p, tags, resp))
  {
    var places := AllowedAreKept(p.allowed, resp.headers);
  }

  /** `stored` is what storing the response at time `n` leaves: a body within bounds, a non-zero
      time-to-live, the stored part, and both limits counted from `n`. */
  ghost predicate StoredAs(p: Policy, tags: seq<Tag>, resp: Response, n: nat, stored: Stored) {
    && (p.maxBody.Some? ==> |resp.body| <= p.maxBody.value)
    && (p.minBody.Some? ==> |resp.body| >= p.minBody.value)
    && p.ttlFor(resp.status).Some? && p.ttlFor(resp.status).value > 0
    && StoredPart(p, tags, resp, stored.entry)
    && stored.expiresAt == n + p.ttlFor(resp.status).value
    && stored.staleUntil == n + p.ttlFor(resp.status).value + p.staleWindow
  }

  // ---------------------------------------------------------------------
  // What one step does to the backend
  // ---------------------------------------------------------------------

  /** A store that succeeds, by a caller or by auto-refresh, puts the response under its key. */
  lemma StorePuts(p: Policy, s: State, a: Action)
    requires Enabled(p, s, a) && (a.Refresh? || (a.Store? && !a.err))
    ensures var key := if a.Refresh? then a.key else s.callers[a.c].key.value;
            var tags := if a.Refresh? then a.tags else s.callers[a.c].tags;
            var resp := if a.Refresh? then a.resp else s.callers[a.c].pc.resp;
            && key in Do(p, s, a).table && StoredAs(p, tags, resp, s.clock, Do(p, s, a).table[key])
            && forall k :: k != key ==> (k in s.table <==> k in Do(p, s, a).table)
                                        && (k in s.table ==> Do(p, s, a).table[k] == s.table[k])
  {
    if a.Refresh? {
      ProjectIsStoredPart(p, a.tags, a.resp);
    } else {
      ProjectIsStoredPart(p, s.callers[a.c].tags, s.callers[a.c].pc.resp);
    }
  }

  /** Every other step leaves what is held, except that an eviction, or a read after the stale
      limit, drops the entry of its key. */
  lemma OthersOnlyDrop(p: Policy, s: State, a: Action)
    requires Enabled(p, s, a) && !a.Refresh? && !(a.Store? && !a.err)
    ensures forall k :: k in Do(p, s, a).table ==> k in s.table && Do(p, s, a).table[k] == s.table[k]
    ensures forall k :: k in s.table && k !in Do(p, s, a).table <==>
              && k in s.table
              && (|| a == Evict(k)
                  || (&& IsCallerAction(a) && Looks(a, a.c) && s.callers[a.c].key == Some(k)
                      && s.table[k].staleUntil < s.clock))
  {
  }

  // ---------------------------------------------------------------------
  // Over runs
  // ---------------------------------------------------------------------

  /** Action `j` brought caller `c` the response it is about to store, which may be stored. */
  ghost predicate BroughtAt(p: Policy, acts: seq<Action>, j: nat, c: Tid, resp: Response) {
    j < |acts| && acts[j] == Respond(c, resp) && p.mayStore(resp)
  }

  lemma StoringStep(p: Policy, s: State, a: Action)
    requires IsCallerAction(a) && Enabled(p, s, a) && NextPc(p, s, a).Storing?
    ensures a == Respond(a.c, NextPc(p, s, a).resp) && p.mayStore(NextPc(p, s, a).resp)
  {
  }

  lemma {:induction false} StoringWasBrought(p: Policy, s: State, acts: seq<Action>, n: nat, c: Tid) returns (j: nat)
    requires Init(s) && Runs(p, s, acts) && n <= |acts|
    requires c in StateAt(p, s, acts, n).callers && StateAt(p, s, acts, n).callers[c].pc.Storing?
    ensures j < n && BroughtAt(p, acts, j, c, StateAt(p, s, acts, n).callers[c].pc.resp)
  {
    var a, before := acts[n - 1], StateAt(p, s, acts, n - 1);
    StateStep(p, s, acts, n - 1);
    Frame(p, before, a);
    if IsCallerAction(a) && a.c == c {
      StoringStep(p, before, a);
      j := n - 1;
    } else {
      j := StoringWasBrought(p, s, acts, n - 1, c);
    }
  }

  /** Action `k` of the run stored `stored` under `key`: an auto-refresh, or a caller for the key
      that was brought the response by an earlier action. */
  ghost predicate StoredBy(p: Policy, s: State, acts: seq<Action>, k: nat, key: Key, stored: Stored)
    requires Runs(p, s, acts)
  {
    && k < |acts|
    && match acts[k]
       case Refresh(key', tags, resp) => key' == key && StoredAs(p, tags, resp, StateAt(p, s, acts, k).clock, stored)
       case Store(c, err) =>
         && !err && c in s.callers && s.callers[c].key == Some(key)
         && exists j: nat, resp :: && j < k && BroughtAt(p, acts, j, c, resp)
                              && StoredAs(p, s.callers[c].tags, resp, StateAt(p, s, acts, k).clock, stored)
       case _ => false
  }

  lemma StoredByLast(p: Policy, s: State, acts: seq<Action>, k: nat, key: Key)
    requires Init(s) && Runs(p, s, acts) && k < |acts| && (acts[k].Refresh? || (acts[k].Store? && !acts[k].err))
    requires Enabled(p, StateAt(p, s, acts, k), acts[k])
    requires key == if acts[k].Refresh? then acts[k].key else StateAt(p, s, acts, k).callers[acts[k].c].key.value
    ensures key in Do(p, StateAt(p, s, acts, k), acts[k]).table
    ensures StoredBy(p, s, acts, k, key, Do(p, StateAt(p, s, acts, k), acts[k]).table[key])
  {
    var t := StateAt(p, s, acts, k);
    StorePuts(p, t, acts[k]);
    CallersStay(p, s, acts, k);
    if acts[k].Store? {
      var j := StoringWasBrought(p, s, acts, k, acts[k].c);
      assert BroughtAt(p, acts, j, acts[k].c, t.callers[acts[k].c].pc.resp);
    }
  }

  lemma HeldStep(p: Policy, s: State, acts: seq<Action>, k: nat, key: Key)
    requires Init(s) && Runs(p, s, acts) && k < |acts| && key in StateAt(p, s, acts, k + 1).table
    ensures var t, u := StateAt(p, s, acts, k), StateAt(p, s, acts, k + 1);
            || StoredBy(p, s, acts, k, key, u.table[key])
            || (key in t.table && t.table[key] == u.table[key])
  {
    var a, before := acts[k], StateAt(p, s, acts, k);
    StateStep(p, s, acts, k);
    if a.Refresh? || (a.Store? && !a.err) {
      StorePuts(p, before, a);
      if key == (if a.Refresh? then a.key else before.callers[a.c].key.value) { StoredByLast(p, s, acts, k, key); }
    } else {
      OthersOnlyDrop(p, before, a);
    }
  }

  /** Every entry the backend holds was stored by an earlier action of the run. */
  lemma {:induction false} HeldWasStored(p: Policy, s: State, acts: seq<Action>, n: nat, key: Key) returns (k: nat)
    requires Init(s) && s.table == map[] && Runs(p, s, acts) && n <= |acts| && key in StateAt(p, s, acts, n).table
    ensures k < n && StoredBy(p, s, acts, k, key, StateAt(p, s, acts, n).table[key])
  {
    HeldStep(p, s, acts, n - 1, key);
    if StoredBy(p, s, acts, n - 1, key, StateAt(p, s, acts, n).table[key]) {
      k := n - 1;
    } else {
      k := HeldWasStored(p, s, acts, n - 1, key);
    }
  }

  /** In any run from an empty backend, a response served from the cache was read by a look of
      its own call, and what was read had been stored before that by an auto-refresh of the key
      or by a caller for it, from a response that an even earlier action brought.  It is exactly
      the stored part of that response; its limits count from the storing; and when it was read
      the clock had not reached its stale limit -- nor the refresh margin before its expiry, if it
      was taken for fresh, nor its expiry, if there is no stale window. */
  lemma ServedFromTheOrigin(p: Policy, s: State, acts: seq<Action>, c: Tid) returns (i: nat, k: nat)
    requires Init(s) && s.table == map[] && Runs(p, s, acts) && c in s.callers
    requires c in After(p, s, acts).callers && After(p, s, acts).callers[c].pc.Done?
    requires After(p, s, acts).callers[c].pc.out.FromCache?
    ensures var hit := After(p, s, acts).callers[c].pc.out.hit;
            && k < i < |acts| && Looks(acts[i], c) && hit.at == StateAt(p, s, acts, i).clock
            && hit.read.expiresAt.Some? && hit.read.staleUntil.Some? && s.callers[c].key.Some?
            && StoredBy(p, s, acts, k, s.callers[c].key.value,
                        Stored(hit.read.entry, hit.read.expiresAt.value, hit.read.staleUntil.value))
            && hit.at < hit.read.staleUntil.value
            && (hit.isFresh <==> hit.at + p.refreshBefore < hit.read.expiresAt.value)
            && (p.staleWindow == 0 ==> hit.at < hit.read.expiresAt.value)
  {
    var hit := After(p, s, acts).callers[c].pc.out.hit;
    StateEnd(p, s, acts);
    i := CarriedWasRead(p, s, acts, |acts|, c, hit);
    k := HeldWasStored(p, s, acts, i, s.callers[c].key.value);
    Limits(p, s, acts, k, s.callers[c].key.value, StateAt(p, s, acts, i).table[s.callers[c].key.value]);
  }

  lemma Limits(p: Policy, s: State, acts: seq<Action>, k: nat, key: Key, stored: Stored)
    requires Runs(p, s, acts) && StoredBy(p, s, acts, k, key, stored)
    ensures stored.staleUntil == stored.expiresAt + p.staleWindow
  {
  }

  // ---------------------------------------------------------------------
  // What gets stored
  // ---------------------------------------------------------------------

  /** A response that may be stored: to a keyed request, let through by the streaming and
      `Cache-Control` rules, with a body within bounds and a non-zero time-to-live. */
  predicate ToBeStored(p: Policy, key: Option<Key>, resp: Response) {
    && key.Some? && p.mayStore(resp)
    && (p.maxBody.Some? ==> |resp.body| <= p.maxBody.value)
    && (p.minBody.Some? ==> |resp.body| >= p.minBody.value)
    && p.ttlFor(resp.status).Some? && p.ttlFor(resp.status).value > 0
  }

  /** How far a caller has come with storing. */
  ghost predicate StoreState(p: Policy, past: seq<Action>, c: Tid, caller: Caller) {
    match caller.pc
    case Storing(_, resp) => ToBeStored(p, caller.key, resp) && !TriedToStore(past, c)
    case Releasing(_, out) => StoreDone(p, past, c, caller.key, out)
    case Removing(_, out) => StoreDone(p, past, c, caller.key, out)
    case Unlocking(_, out) => StoreDone(p, past, c, caller.key, out)
    case Done(out) => StoreDone(p, past, c, caller.key, out)
    case _ => !TriedToStore(past, c)
  }

  ghost predicate TriedToStore(past: seq<Action>, c: Tid) { exists err: bool :: Store(c, err) in past }

  ghost predicate StoreDone(p: Policy, past: seq<Action>, c: Tid, key: Option<Key>, out: Outcome) {
    match out
    case Failed => true
    case FromOrigin(resp) => TriedToStore(past, c) <==> ToBeStored(p, key, resp)
    case FromCache(_) => !TriedToStore(past, c)
  }

  lemma StoreStateStays(p: Policy, past: seq<Action>, a: Action, c: Tid, caller: Caller)
    requires StoreState(p, past, c, caller) && !(a.Store? && a.c == c)
    ensures StoreState(p, past + [a], c, caller)
  {
    assert forall err: bool :: Store(c, err) in past + [a] <==> Store(c, err) in past;
  }

  lemma StoreStateMoves(p: Policy, s: State, a: Action, past: seq<Action>)
    requires IsCallerAction(a) && Enabled(p, s, a) && StoreState(p, past, a.c, s.callers[a.c])
    ensures StoreState(p, past + [a], a.c, Next(p, s, a))
  {
    if a.Store? {
      assert Store(a.c, a.err) in past + [a];
    } else {
      assert forall err: bool :: Store(a.c, err) in past + [a] <==> Store(a.c, err) in past;
    }
  }

  lemma {:induction false} StoreStateAlways(p: Policy, s: State, acts: seq<Action>, i: nat, c: Tid)
    requires Init(s) && Runs(p, s, acts) && i <= |acts| && c in s.callers
    ensures c in StateAt(p, s, acts, i).callers && StoreState(p, acts[..i], c, StateAt(p, s, acts, i).callers[c])
  {
    if i > 0 {
      var a, before := acts[i - 1], StateAt(p, s, acts, i - 1);
      StoreStateAlways(p, s, acts, i - 1, c);
      StateStep(p, s, acts, i - 1);
      Frame(p, before, a);
      assert acts[..i] == acts[..i - 1] + [a];
      if IsCallerAction(a) && a.c == c {
        StoreStateMoves(p, before, a, acts[..i - 1]);
      } else {
        StoreStateStays(p, acts[..i - 1], a, c, before.callers[c]);
      }
    }
  }

  /** A call that is answered by the origin has tried to store the response if and only if the
      request has a key and the response is one to be stored; a call answered from the cache
      has stored nothing. */
  lemma StoredExactly(p: Policy, s: State, acts: seq<Action>, c: Tid)
    requires Init(s) && Runs(p, s, acts) && c in s.callers
    requires c in After(p, s, acts).callers && After(p, s, acts).callers[c].pc.Done?
    ensures var out := After(p, s, acts).callers[c].pc.out;
            && (out.FromOrigin? ==> (TriedToStore(acts, c) <==> ToBeStored(p, s.callers[c].key, out.resp)))
            && (out.FromCache? ==> !TriedToStore(acts, c))
  {
    StoreStateAlways(p, s, acts, |acts|, c);
    StateEnd(p, s, acts);
    CallersStay(p, s, acts, |acts|);
    assert acts[..|acts|] == acts;
  }
}
