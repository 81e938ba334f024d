/**
 The values shared by every component: cached entries, timed reads, and the
 pure decisions taken on them.

 Time is a natural number of ticks since the earliest representable instant.
 Byte strings are sequences of integers below 256.
 */
module CacheTypes {

  datatype Option<+T> = None | Some(value: T)

  type Byte = x: int | 0 <= x < 256

  type StatusCode = x: int | 100 <= x <= 999 witness 200

  type Key = string

  type Tag = string

  type Header = (seq<Byte>, seq<Byte>)

  datatype Version = HTTP_09 | HTTP_10 | HTTP_11 | HTTP_2 | HTTP_3

  datatype CacheEntry = CacheEntry(
    status: StatusCode,
    version: Version,
    headers: seq<Header>,
    body: seq<Byte>,
    tags: Option<seq<Tag>>)

  datatype CacheRead = CacheRead(entry: CacheEntry, expiresAt: Option<nat>, staleUntil: Option<nat>)

  // ---------------------------------------------------------------------
  // Freshness (`classify_hit`)
  // ---------------------------------------------------------------------

  datatype HitState = Fresh | Stale | Expired {
    function Age(): nat {
      match this
      case Fresh => 0
      case Stale => 1
      case Expired => 2
    }
  }

  function Classify(hit: CacheRead, staleWindow: nat, refreshBefore: nat, now: nat): HitState {
    if hit.expiresAt.Some? && hit.expiresAt.value > now then
      if refreshBefore > 0 then
        // `checked_sub` underflows exactly when the threshold would precede time zero
        if hit.expiresAt.value >= refreshBefore then
          if now >= hit.expiresAt.value - refreshBefore then Stale else Fresh
        else Stale
      else Fresh
    else if staleWindow > 0 && hit.staleUntil.Some? && hit.staleUntil.value > now then Stale
    else Expired
  }

  /** Time only ages an entry: Fresh, then Stale, then Expired, never backwards; and
      an entry counts as fresh over exactly one initial interval of time. */
  lemma ClassifyOnlyAges(hit: CacheRead, staleWindow: nat, refreshBefore: nat, t: nat, u: nat)
    requires t <= u
    ensures Classify(hit, staleWindow, refreshBefore, t).Age() <= Classify(hit, staleWindow, refreshBefore, u).Age()
    ensures Classify(hit, staleWindow, refreshBefore, t).Fresh? <==>
            hit.expiresAt.Some? && t + refreshBefore < hit.expiresAt.value
  {
  }

  /** When exactly an entry is Fresh, Stale or Expired, in times alone. */
  lemma ClassifyExactly(hit: CacheRead, staleWindow: nat, refreshBefore: nat, t: nat)
    ensures var state := Classify(hit, staleWindow, refreshBefore, t);
            var alive := hit.expiresAt.Some? && t < hit.expiresAt.value;
            var early := hit.expiresAt.Some? && t + refreshBefore < hit.expiresAt.value;
            var within := staleWindow > 0 && hit.staleUntil.Some? && t < hit.staleUntil.value;
            && (state == Fresh <==> early)
            && (state == Stale <==> !early && (alive || within))
            && (state == Expired <==> !alive && !within)
  {
  }

  /** The life of an entry stored at `n`: Fresh until the refresh margin before the end of its
      time-to-live, then Stale to the end of the stale window, then Expired. */
  lemma Lifetime(entry: CacheEntry, n: nat, ttl: nat, staleWindow: nat, refreshBefore: nat, t: nat)
    ensures var state := Classify(CacheRead(entry, Some(n + ttl), Some(n + ttl + staleWindow)), staleWindow, refreshBefore, t);
            && (state == Fresh <==> t + refreshBefore < n + ttl)
            && (state == Stale <==> n + ttl <= t + refreshBefore && t < n + ttl + staleWindow)
            && (state == Expired <==> n + ttl + staleWindow <= t)
  {
  }

  // ---------------------------------------------------------------------
  // The key/value part of the in-memory backend
  // ---------------------------------------------------------------------

  datatype Stored = Stored(entry: CacheEntry, expiresAt: nat, staleUntil: nat)

  type Table = map<Key, Stored>

  /** What `get` returns: nothing once the clock has passed `staleUntil`. */
  function Found(table: Table, key: Key, now: nat): Option<CacheRead> {
    if key in table && now <= table[key].staleUntil
    then Some(CacheRead(table[key].entry, Some(table[key].expiresAt), Some(table[key].staleUntil)))
    else None
  }

  /** The table `get` leaves behind: an outlived entry is dropped. */
  function AfterGet(table: Table, key: Key, now: nat): Table {
    if key in table && now > table[key].staleUntil then table - {key} else table
  }

  /** The table `set` leaves behind; a zero time-to-live stores nothing. */
  function AfterSet(table: Table, key: Key, entry: CacheEntry, ttl: nat, staleFor: nat, now: nat): Table {
    if ttl == 0 then table else table[key := Stored(entry, now + ttl, now + ttl + staleFor)]
  }
}
