/**
 The per-key stampede protocol of `CacheService::call`, as a transition system
 over any finite set of concurrent callers.

 A step is one action of one caller, or of the environment.  The map insert and
 the mutex lock of `acquire_handle` are two separate actions, and so are the
 check, the map removal and the mutex release of a dropped guard: other callers
 may act in between.
 */
module Stampede {
  import opened CacheTypes

  type Tid = nat

  /** The identity of one allocated mutex (what `Arc::ptr_eq` compares). */
  type LockId = nat

  datatype Response = Response(status: StatusCode, version: Version, headers: seq<Header>, body: seq<Byte>)

  datatype Policy = Policy(
    ttlFor: StatusCode -> Option<nat>,
    staleWindow: nat,
    refreshBefore: nat,
    maxBody: Option<nat>,
    minBody: Option<nat>,
    allowed: Header -> bool,
    // streaming decision, pass-through of ranges and response `Cache-Control`, taken together
    mayStore: Response -> bool)

  /** A backend read that was classified at time `at` and not found expired. */
  datatype Hit = Hit(read: CacheRead, at: nat, isFresh: bool)

  datatype Outcome = FromCache(hit: Hit) | FromOrigin(resp: Response) | Failed

  datatype Pc =
    | Start                                       // before the first lookup
    | Enter(stale: Option<Hit>)                   // about to look at the lock map
    | Inserted(lock: LockId)                      // filled a vacant entry, own mutex not locked yet
    | Waiting(lock: LockId)                       // found it occupied, awaiting that mutex
    | Woken(lock: LockId)                         // got that mutex, about to give it back
    | Reread                                      // about to look up again
    | Reenter                                     // about to look at the lock map again
    | DoubleCheck(lock: LockId)                   // Primary: about to re-read the key
    | Fetch(guard: Option<LockId>)                // about to call the origin
    | InFlight(guard: Option<LockId>)             // origin call running
    | Storing(guard: Option<LockId>, resp: Response)
    | Releasing(lock: LockId, out: Outcome)       // drop: compare the map entry
    | Removing(lock: LockId, out: Outcome)        // drop: remove the map entry
    | Unlocking(lock: LockId, out: Outcome)       // drop: release the mutex
    | Done(out: Outcome)

  /** What a caller has observed so far, in order. */
  datatype Event =
    | Looked(verdict: HitState)
    | Vacant
    | Occupied
    | Awaited
    | Called(guarded: bool)

  datatype Caller = Caller(key: Option<Key>, tags: seq<Tag>, pc: Pc, log: seq<Event>)

  datatype Call = Call(tid: Tid, key: Option<Key>, guarded: bool)

  datatype State = State(
    clock: nat,
    locks: map<Key, LockId>,         // the shared lock map
    born: seq<(Tid, Key)>,           // who allocated each mutex, for which key
    held: map<LockId, Tid>,          // locked mutexes
    table: Table,                    // the backend
    callers: map<Tid, Caller>,
    calls: seq<Call>,                // origin calls started by callers
    dropped: set<Key>)               // keys for which some Primary guard began to drop

  datatype Action =
    | Lookup(c: Tid, err: bool)
    | EnterMap(c: Tid)
    | LockOwn(c: Tid)
    | LockWait(c: Tid)
    | GiveBack(c: Tid)
    | LookAgain(c: Tid, err: bool)
    | ReenterMap(c: Tid)
    | Check(c: Tid, err: bool)
    | StartCall(c: Tid)
    | Respond(c: Tid, resp: Response)
    | Store(c: Tid, err: bool)
    | Compare(c: Tid)
    | Remove(c: Tid)
    | Unlock(c: Tid)
    | Abort(c: Tid)                  // origin error, or the call dropped at an await point
    | Tick(d: nat)
    | Evict(key: Key)
    | Refresh(key: Key, tags: seq<Tag>, resp: Response)  // auto-refresh stores on its own

  predicate IsCallerAction(a: Action) { !a.Tick? && !a.Evict? && !a.Refresh? }

  // ---------------------------------------------------------------------
  // Decisions
  // ---------------------------------------------------------------------

  /** The checks on body size and time-to-live that every stored response passed. */
  predicate Keepable(p: Policy, resp: Response) {
    && (p.maxBody.Some? ==> |resp.body| <= p.maxBody.value)
    && (p.minBody.Some? ==> |resp.body| >= p.minBody.value)
    && p.ttlFor(resp.status).Some? && p.ttlFor(resp.status).value > 0
  }

  function AllowedOnly(allowed: Header -> bool, headers: seq<Header>): seq<Header> {
    if headers == [] then []
    else (if allowed(headers[0]) then [headers[0]] else []) + AllowedOnly(allowed, headers[1..])
  }

  /** The part of a response that is stored. */
  function Project(p: Policy, tags: seq<Tag>, resp: Response): CacheEntry {
    CacheEntry(resp.status, resp.version, AllowedOnly(p.allowed, resp.headers), resp.body,
               if tags == [] then None else Some(tags))
  }

  function Keep(p: Policy, s: State, key: Key, tags: seq<Tag>, resp: Response): Table
    requires Keepable(p, resp)
  {
    AfterSet(s.table, key, Project(p, tags, resp), p.ttlFor(resp.status).value, p.staleWindow, s.clock)
  }

  function Verdict(p: Policy, s: State, key: Key, err: bool): HitState {
    var r := Found(s.table, key, s.clock);
    if err || r.None? then Expired else Classify(r.value, p.staleWindow, p.refreshBefore, s.clock)
  }

  predicate FreshAt(p: Policy, s: State, key: Key) { Verdict(p, s, key, false).Fresh? }

  // ---------------------------------------------------------------------
  // Transitions
  // ---------------------------------------------------------------------

  predicate Enabled(p: Policy, s: State, a: Action) {
    && (IsCallerAction(a) ==> a.c in s.callers)
    && (match a
        case Lookup(c, _) => s.callers[c].pc.Start?
        case EnterMap(c) => s.callers[c].pc.Enter? && s.callers[c].key.Some?
        case LockOwn(c) => s.callers[c].pc.Inserted? && s.callers[c].pc.lock !in s.held
        case LockWait(c) => s.callers[c].pc.Waiting? && s.callers[c].pc.lock !in s.held
        case GiveBack(c) => s.callers[c].pc.Woken?
        case LookAgain(c, _) => s.callers[c].pc.Reread? && s.callers[c].key.Some?
        case ReenterMap(c) => s.callers[c].pc.Reenter? && s.callers[c].key.Some?
        case Check(c, _) => s.callers[c].pc.DoubleCheck? && s.callers[c].key.Some?
        case StartCall(c) => s.callers[c].pc.Fetch?
        case Respond(c, _) => s.callers[c].pc.InFlight?
        case Store(c, _) =>
          s.callers[c].pc.Storing? && s.callers[c].key.Some? && Keepable(p, s.callers[c].pc.resp)
        case Compare(c) => s.callers[c].pc.Releasing? && s.callers[c].key.Some?
        case Remove(c) => s.callers[c].pc.Removing? && s.callers[c].key.Some?
        case Unlock(c) => s.callers[c].pc.Unlocking?
        case Abort(c) => AtAwait(s.callers[c].pc)
        case Tick(_) => true
        case Evict(_) => true
        case Refresh(_, _, resp) => Keepable(p, resp))
  }

  /** The await points at which a call can be cancelled, or end in an origin error.
      The one inside `acquire_handle` (at `Inserted`) is excluded. */
  predicate AtAwait(pc: Pc) {
    pc.Start? || pc.Waiting? || pc.Reread? || pc.DoubleCheck? || pc.InFlight? || pc.Storing?
  }

  /** Where a fetch goes once it ends with `out`: a guard, if there is one, starts to drop. */
  function Leave(guard: Option<LockId>, out: Outcome): Pc {
    if guard.Some? then Releasing(guard.value, out) else Done(out)
  }

  /** What the backend holds under `key`, as a hit classified now. */
  function HitNow(s: State, key: Key, isFresh: bool): Hit
    requires Found(s.table, key, s.clock).Some?
  {
    Hit(Found(s.table, key, s.clock).value, s.clock, isFresh)
  }

  /** Where a caller's action takes it. */
  function NextPc(p: Policy, s: State, a: Action): Pc
    requires IsCallerAction(a) && Enabled(p, s, a)
  {
    var me := s.callers[a.c];
    match a
    case Lookup(_, err) =>
      if me.key.None? then Fetch(None)
      else
        (match Verdict(p, s, me.key.value, err)
         case Fresh => Done(FromCache(HitNow(s, me.key.value, true)))
         case Stale => Enter(Some(HitNow(s, me.key.value, false)))
         case Expired => Enter(None))
    case EnterMap(_) =>
      if me.key.value !in s.locks then Inserted(|s.born|)
      else if me.pc.stale.Some? then Done(FromCache(me.pc.stale.value))
      else Waiting(s.locks[me.key.value])
    case LockOwn(_) => DoubleCheck(me.pc.lock)
    case LockWait(_) => Woken(me.pc.lock)
    case GiveBack(_) => Reread
    case LookAgain(_, err) =>
      var v := Verdict(p, s, me.key.value, err);
      if v.Expired? then Reenter else Done(FromCache(HitNow(s, me.key.value, v.Fresh?)))
    case ReenterMap(_) => if me.key.value !in s.locks then Inserted(|s.born|) else Fetch(None)
    case Check(_, err) =>
      if Verdict(p, s, me.key.value, err).Fresh?
      then Leave(Some(me.pc.lock), FromCache(HitNow(s, me.key.value, true)))
      else Fetch(Some(me.pc.lock))
    case StartCall(_) => InFlight(me.pc.guard)
    case Respond(_, resp) =>
      if me.key.Some? && p.mayStore(resp) && Keepable(p, resp) then Storing(me.pc.guard, resp)
      else Leave(me.pc.guard, FromOrigin(resp))
    case Store(_, _) => Leave(me.pc.guard, FromOrigin(me.pc.resp))
    case Compare(_) =>
      if me.key.value in s.locks && s.locks[me.key.value] == me.pc.lock
      then Removing(me.pc.lock, me.pc.out)
      else Unlocking(me.pc.lock, me.pc.out)
    case Remove(_) => Unlocking(me.pc.lock, me.pc.out)
    case Unlock(_) => Done(me.pc.out)
    case Abort(_) =>
      (match me.pc
       case DoubleCheck(lock) => Leave(Some(lock), Failed)
       case InFlight(guard) => Leave(guard, Failed)
       case Storing(guard, _) => Leave(guard, Failed)
       case _ => Done(Failed))
  }

  /** What a caller's action lets it observe. */
  function Seen(p: Policy, s: State, a: Action): seq<Event>
    requires IsCallerAction(a) && Enabled(p, s, a)
  {
    var me := s.callers[a.c];
    match a
    case Lookup(_, err) => if me.key.None? then [] else [Looked(Verdict(p, s, me.key.value, err))]
    case LookAgain(_, err) => [Looked(Verdict(p, s, me.key.value, err))]
    case Check(_, err) => [Looked(Verdict(p, s, me.key.value, err))]
    case EnterMap(_) => [if me.key.value in s.locks then Occupied else Vacant]
    case ReenterMap(_) => [if me.key.value in s.locks then Occupied else Vacant]
    case LockWait(_) => [Awaited]
    case StartCall(_) => [Called(me.pc.guard.Some?)]
    case _ => []
  }

  /** `Entry::Vacant`: the action allocates a mutex and puts it in the map. */
  predicate Inserts(s: State, a: Action)
    requires (a.EnterMap? || a.ReenterMap?) ==> a.c in s.callers
  {
    (a.EnterMap? || a.ReenterMap?) && s.callers[a.c].key.Some? && s.callers[a.c].key.value !in s.locks
  }

  function NextLocks(p: Policy, s: State, a: Action): map<Key, LockId>
    requires Enabled(p, s, a)
  {
    if Inserts(s, a) then s.locks[s.callers[a.c].key.value := |s.born|]
    else if a.Remove? then s.locks - {s.callers[a.c].key.value}
    else s.locks
  }

  function NextBorn(p: Policy, s: State, a: Action): seq<(Tid, Key)>
    requires Enabled(p, s, a)
  {
    if Inserts(s, a) then s.born + [(a.c, s.callers[a.c].key.value)] else s.born
  }

  function NextHeld(p: Policy, s: State, a: Action): map<LockId, Tid>
    requires Enabled(p, s, a)
  {
    if a.LockOwn? || a.LockWait? then s.held[s.callers[a.c].pc.lock := a.c]
    else if a.GiveBack? || a.Unlock? then s.held - {s.callers[a.c].pc.lock}
    else s.held
  }

  function NextTable(p: Policy, s: State, a: Action): Table
    requires Enabled(p, s, a)
  {
    match a
    case Evict(key) => s.table - {key}
    case Refresh(key, tags, resp) => Keep(p, s, key, tags, resp)
    case Store(c, false) => Keep(p, s, s.callers[c].key.value, s.callers[c].tags, s.callers[c].pc.resp)
    case Lookup(c, false) =>
      if s.callers[c].key.Some? then AfterGet(s.table, s.callers[c].key.value, s.clock) else s.table
    case LookAgain(c, false) => AfterGet(s.table, s.callers[c].key.value, s.clock)
    case Check(c, false) => AfterGet(s.table, s.callers[c].key.value, s.clock)
    case _ => s.table
  }

  function NextCallers(p: Policy, s: State, a: Action): map<Tid, Caller>
    requires Enabled(p, s, a)
  {
    if !IsCallerAction(a) then s.callers
    else s.callers[a.c := s.callers[a.c].(pc := NextPc(p, s, a), log := s.callers[a.c].log + Seen(p, s, a))]
  }

  function NextCalls(p: Policy, s: State, a: Action): seq<Call>
    requires Enabled(p, s, a)
  {
    if a.StartCall? then s.calls + [Call(a.c, s.callers[a.c].key, s.callers[a.c].pc.guard.Some?)] else s.calls
  }

  function NextDropped(p: Policy, s: State, a: Action): set<Key>
    requires Enabled(p, s, a)
  {
    if IsCallerAction(a) && s.callers[a.c].key.Some? && NextPc(p, s, a).Releasing?
    then s.dropped + {s.callers[a.c].key.value} else s.dropped
  }

  function Do(p: Policy, s: State, a: Action): State
    requires Enabled(p, s, a)
  {
    State(
      if a.Tick? then s.clock + a.d else s.clock,
      NextLocks(p, s, a),
      NextBorn(p, s, a),
      NextHeld(p, s, a),
      NextTable(p, s, a),
      NextCallers(p, s, a),
      NextCalls(p, s, a),
      NextDropped(p, s, a))
  }

  /** Callers that have not begun, an empty lock map, no locked mutex; any backend content and time. */
  ghost predicate Init(s: State) {
    && s.locks == map[] && s.born == [] && s.held == map[]
    && s.calls == [] && s.dropped == {}
    && (forall c :: c in s.callers ==> s.callers[c].pc == Start && s.callers[c].log == [])
  }

  predicate Runs(p: Policy, s: State, acts: seq<Action>)
    decreases |acts|
  {
    acts == [] || (Enabled(p, s, acts[0]) && Runs(p, Do(p, s, acts[0]), acts[1..]))
  }

  function After(p: Policy, s: State, acts: seq<Action>): State
    requires Runs(p, s, acts)
    decreases |acts|
  {
    if acts == [] then s else After(p, Do(p, s, acts[0]), acts[1..])
  }
}
