/**
 The in-memory backend: a table of entries and the tag index beside it, with the
 bulk invalidations every backend inherits.  Time is a parameter of each call, and
 the store may evict entries on its own.
 */
module MemoryBackend {
  import opened CacheTypes
  import opened Tags

  function TagsOf(entry: CacheEntry): seq<Tag> { if entry.tags.Some? then entry.tags.value else [] }

  /** The keys listed under some tag of `tags`. */
  ghost function Under(forward: map<Tag, set<Key>>, tags: set<Tag>): (keys: set<Key>)
    ensures forall k :: k in keys <==> exists t :: t in tags && k in Row(forward, t)
  {
    set t, k | t in tags && k in Row(forward, t) :: k
  }

  /** One more tag adds the keys of its row that are not listed yet. */
  lemma UnderMore(before: map<Tag, set<Key>>, now: map<Tag, set<Key>>, tags: seq<Tag>, tag: Tag)
    requires Row(now, tag) == Row(before, tag) - Under(before, Elements(tags))
    ensures Under(before, Elements(tags + [tag])) == Under(before, Elements(tags)) + Row(now, tag)
  {
    assert Elements(tags + [tag]) == Elements(tags) + {tag};
    forall k
      ensures k in Under(before, Elements(tags + [tag])) <==> k in Under(before, Elements(tags)) || k in Row(before, tag)
    {
      if k in Row(before, tag) { assert tag in Elements(tags + [tag]); }
      if k in Under(before, Elements(tags)) {
        var t :| t in Elements(tags) && k in Row(before, t);
        assert t in Elements(tags + [tag]);
      }
    }
  }

  /** Dropping two disjoint sets of keys one after the other. */
  lemma DropMore(table: Table, f: map<Tag, set<Key>>, g: map<Tag, set<Key>>, h: map<Tag, set<Key>>, a: set<Key>, b: set<Key>)
    requires Cleared(f, g, a) && Cleared(g, h, b)
    ensures table - a - b == table - (a + b)
    ensures Cleared(f, h, a + b)
    ensures a !! b ==> |a + b| == |a| + |b|
  {
  }

  /** The entries of `table` whose tags the index misses are none. */
  ghost predicate Covered(table: Table, forward: map<Tag, set<Key>>) {
    forall k, t :: k in table && t in TagsOf(table[k].entry) ==> k in Row(forward, t)
  }

  /** Once its row is empty, no stored entry carries a tag. */
  lemma NoneCarries(table: Table, before: map<Tag, set<Key>>, forward: map<Tag, set<Key>>, gone: set<Key>, tag: Tag)
    requires Covered(table, forward) && Cleared(before, forward, gone) && Row(before, tag) <= gone
    ensures forall k :: k in table ==> tag !in TagsOf(table[k].entry)
  {
    assert Row(forward, tag) == {};
  }

  class InMemoryBackend {
    var table: Table
    const tagIndex: TagIndex

    /** The index covers the tags of every stored entry; it may say more. */
    ghost predicate Valid()
      reads this, tagIndex
    {
      tagIndex.Valid() && Covered(table, tagIndex.forward)
    }

    constructor ()
      ensures Valid() && table == map[] && fresh(tagIndex)
      ensures forall k, t :: !tagIndex.Tagged(k, t)
    {
      table := map[];
      tagIndex := new TagIndex();
    }

    method Get(key: Key, now: nat) returns (r: Option<CacheRead>)
      requires Valid()
      modifies this
      ensures Valid()
      ensures r == Found(old(table), key, now) && table == AfterGet(old(table), key, now)
    {
      if key !in table { return None; }
      var stored := table[key];
      if now > stored.staleUntil {
        table := table - {key};
        return None;
      }
      return Some(CacheRead(stored.entry, Some(stored.expiresAt), Some(stored.staleUntil)));
    }

    method Set(key: Key, entry: CacheEntry, ttl: nat, staleFor: nat, now: nat)
      requires Valid()
      modifies this, tagIndex
      ensures Valid()
      ensures table == AfterSet(old(table), key, entry, ttl, staleFor, now)
      ensures forall k, t :: tagIndex.Tagged(k, t) <==>
                old(tagIndex.Tagged(k, t)) || (ttl > 0 && k == key && t in TagsOf(entry))
    {
      if ttl == 0 { return; }
      var expiresAt := now + ttl;
      var staleUntil := expiresAt + staleFor;
      if entry.tags.Some? && entry.tags.value != [] {
        tagIndex.Index(key, entry.tags.value);
      }
      assert forall k, t :: k in Row(tagIndex.forward, t) <==> tagIndex.Tagged(k, t);
      assert forall k, t :: old(k in Row(tagIndex.forward, t)) <==> old(tagIndex.Tagged(k, t));
      table := table[key := Stored(entry, expiresAt, staleUntil)];
    }

    method Invalidate(key: Key)
      requires Valid()
      modifies this, tagIndex
      ensures Valid()
      ensures table == old(table) - {key} && Cleared(old(tagIndex.forward), tagIndex.forward, {key})
    {
      table := table - {key};
      tagIndex.Remove(key);
    }

    /** The store drops entries whenever it likes; the index is not told. */
    method Evict(keys: set<Key>)
      requires Valid()
      modifies this`table
      ensures Valid() && table == old(table) - keys
    {
      table := table - keys;
    }

    /** Drops exactly the keys listed under `tag`, from the table and the index, and counts
        them.  Afterwards no stored entry carries the tag.  The count is the number of
        entries that were dropped exactly when every listed key was still stored, and the
        entries dropped are those that carried the tag exactly when the index was current. */
    method InvalidateByTag(tag: Tag) returns (count: nat)
      requires Valid()
      modifies this, tagIndex
      ensures Valid()
      ensures table == old(table) - old(Row(tagIndex.forward, tag))
      ensures Cleared(old(tagIndex.forward), tagIndex.forward, old(Row(tagIndex.forward, tag)))
      ensures count == |old(Row(tagIndex.forward, tag))|
      ensures forall k :: k in table ==> tag !in TagsOf(table[k].entry)
      ensures count == |old(table)| - |table| <==> old(Row(tagIndex.forward, tag)) <= old(table.Keys)
      ensures old(table.Keys) - table.Keys == Carriers(old(table), tag)
              <==> Current(old(table), old(Row(tagIndex.forward, tag)), tag)
    {
      ghost var listed := tagIndex.forward;
      var keys := tagIndex.GetKeysByTag(tag);
      ListingOf(keys, Row(listed, tag), tagIndex, tag);
      InvalidateEach(keys);
      NoneCarries(table, listed, tagIndex.forward, Row(listed, tag), tag);
      Dropped(old(table), Row(listed, tag));
      DropsCarriers(old(table), listed, tag);
      return |keys|;
    }

    method InvalidateEach(keys: seq<Key>)
      requires Valid()
      modifies this, tagIndex
      ensures Valid()
      ensures table == old(table) - Elements(keys)
      ensures Cleared(old(tagIndex.forward), tagIndex.forward, Elements(keys))
    {
      ghost var before, listed := table, tagIndex.forward;
      assert keys[..0] == [] && keys[..|keys|] == keys;
      for i := 0 to |keys|
        invariant Valid() && DroppedKeys(before, listed, table, tagIndex.forward, keys[..i])
      {
        Prefixes(keys, i);
        ghost var stored, current := table, tagIndex.forward;
        Invalidate(keys[i]);
        DroppedKey(before, listed, stored, current, table, tagIndex.forward, keys[..i], keys[i]);
      }
    }

    /** `InvalidateByTag`, as one turn of the loop of `InvalidateByTags`. */
    method InvalidateNext(tag: Tag, ghost before: Table, ghost listed: map<Tag, set<Key>>, ghost tags: seq<Tag>, ghost total: nat)
      returns (count: nat)
      requires Valid() && DroppedFor(before, listed, table, tagIndex.forward, tags, total)
      modifies this, tagIndex
      ensures Valid() && DroppedFor(before, listed, table, tagIndex.forward, tags + [tag], total + count)
    {
      ghost var stored, current := table, tagIndex.forward;
      count := InvalidateByTag(tag);
      DroppedOneMore(before, listed, stored, current, table, tagIndex.forward, tags, tag, total, count);
    }

    /** Drops exactly the keys listed under some tag of `tags`, and counts each of them once,
        however often a tag is repeated or a key is listed. */
    method InvalidateByTags(tags: seq<Tag>) returns (total: nat)
      requires Valid()
      modifies this, tagIndex
      ensures Valid()
      ensures table == old(table) - Under(old(tagIndex.forward), Elements(tags))
      ensures Cleared(old(tagIndex.forward), tagIndex.forward, Under(old(tagIndex.forward), Elements(tags)))
      ensures total == |Under(old(tagIndex.forward), Elements(tags))|
      ensures forall t :: t in tags ==> forall k :: k in table ==> t !in TagsOf(table[k].entry)
      ensures total == |old(table)| - |table| <==> Under(old(tagIndex.forward), Elements(tags)) <= old(table.Keys)
    {
      total := 0;
      ghost var before, listed := table, tagIndex.forward;
      NothingDropped(before, listed);
      assert tags[..0] == [] && tags[..|tags|] == tags;
      for i := 0 to |tags|
        invariant Valid() && DroppedFor(before, listed, table, tagIndex.forward, tags[..i], total)
      {
        Prefixes(tags, i);
        var count := InvalidateNext(tags[i], before, listed, tags[..i], total);
        total := total + count;
      }
      AllDropped(before, listed, table, tagIndex.forward, tags, total);
    }
  }

  /** From `before` and `listed`, exactly `keys` were dropped. */
  ghost predicate DroppedKeys(before: Table, listed: map<Tag, set<Key>>, table: Table, forward: map<Tag, set<Key>>, keys: seq<Key>) {
    table == before - Elements(keys) && Cleared(listed, forward, Elements(keys))
  }

  lemma DroppedKey(before: Table, listed: map<Tag, set<Key>>, stored: Table, current: map<Tag, set<Key>>,
                   table: Table, forward: map<Tag, set<Key>>, keys: seq<Key>, key: Key)
    requires DroppedKeys(before, listed, stored, current, keys)
    requires table == stored - {key} && Cleared(current, forward, {key})
    ensures DroppedKeys(before, listed, table, forward, keys + [key])
  {
    assert Elements(keys + [key]) == Elements(keys) + {key};
    DropMore(before, listed, current, forward, Elements(keys), {key});
  }

  /** From `before` and `listed`, exactly the keys under `tags` were dropped, and counted. */
  ghost predicate DroppedFor(before: Table, listed: map<Tag, set<Key>>, table: Table, forward: map<Tag, set<Key>>, tags: seq<Tag>, total: nat) {
    var gone := Under(listed, Elements(tags));
    table == before - gone && Cleared(listed, forward, gone) && total == |gone|
  }

  lemma Prefixes<X>(s: seq<X>, i: nat)
    requires i < |s|
    ensures s[..i + 1] == s[..i] + [s[i]]
  {
  }

  lemma NothingDropped(table: Table, forward: map<Tag, set<Key>>)
    ensures DroppedFor(table, forward, table, forward, [], 0)
  {
    assert Under(forward, Elements([])) == {};
  }

  lemma DroppedOneMore(before: Table, listed: map<Tag, set<Key>>, stored: Table, current: map<Tag, set<Key>>,
                       table: Table, forward: map<Tag, set<Key>>, tags: seq<Tag>, tag: Tag, total: nat, count: nat)
    requires DroppedFor(before, listed, stored, current, tags, total)
    requires table == stored - Row(current, tag) && Cleared(current, forward, Row(current, tag)) && count == |Row(current, tag)|
    ensures DroppedFor(before, listed, table, forward, tags + [tag], total + count)
  {
    var gone := Under(listed, Elements(tags));
    UnderMore(listed, current, tags, tag);
    DropMore(before, listed, current, forward, gone, Row(current, tag));
    assert gone !! Row(current, tag);
  }

  lemma AllDropped(before: Table, listed: map<Tag, set<Key>>, table: Table, forward: map<Tag, set<Key>>, tags: seq<Tag>, total: nat)
    requires DroppedFor(before, listed, table, forward, tags, total) && Covered(table, forward)
    ensures forall t :: t in tags ==> forall k :: k in table ==> t !in TagsOf(table[k].entry)
    ensures total == |before| - |table| <==> Under(listed, Elements(tags)) <= before.Keys
  {
    forall t | t in tags
      ensures forall k :: k in table ==> t !in TagsOf(table[k].entry)
    {
      assert t in Elements(tags);
      NoneCarries(table, listed, forward, Under(listed, Elements(tags)), t);
    }
    Dropped(before, Under(listed, Elements(tags)));
  }

  /** The keys whose stored entry carries `tag`. */
  ghost function Carriers(table: Table, tag: Tag): set<Key> { set k | k in table && tag in TagsOf(table[k].entry) }

  /** What the index lists under `tag` for stored keys is what they carry. */
  ghost predicate Current(table: Table, row: set<Key>, tag: Tag) {
    forall k :: k in row && k in table ==> tag in TagsOf(table[k].entry)
  }

  /** Dropping a listed row drops all carriers of the tag, and drops nothing else exactly when
      the row lists no stored entry that lacks the tag. */
  lemma DropsCarriers(table: Table, forward: map<Tag, set<Key>>, tag: Tag)
    requires Covered(table, forward)
    ensures var dropped := table.Keys - (table - Row(forward, tag)).Keys;
            Carriers(table, tag) <= dropped && (dropped == Carriers(table, tag) <==> Current(table, Row(forward, tag), tag))
  {
    var dropped := table.Keys - (table - Row(forward, tag)).Keys;
    assert forall k :: k in dropped <==> k in table && k in Row(forward, tag);
  }

  /** Storing an entry anew adds its tags but keeps the pairs of the entry it replaces: an
      invalidation then drops an entry that does not carry the tag. */
  method DropsRetagged(key: Key, tag: Tag, tagged: CacheEntry, untagged: CacheEntry) returns (stored: bool, still: bool)
    requires tag in TagsOf(tagged) && tag !in TagsOf(untagged)
    ensures stored && !still
  {
    var backend := new InMemoryBackend();
    backend.Set(key, tagged, 1, 0, 0);
    backend.Set(key, untagged, 1, 0, 0);
    assert backend.tagIndex.Tagged(key, tag);
    stored := key in backend.table && backend.table[key].entry == untagged;
    var _ := backend.InvalidateByTag(tag);
    still := key in backend.table;
  }

  // ---------------------------------------------------------------------
  // Storing and reading back
  // ---------------------------------------------------------------------

  datatype Op = Read(key: Key, now: nat) | Write(key: Key, entry: CacheEntry, ttl: nat, staleFor: nat, now: nat)

  method Apply(backend: InMemoryBackend, op: Op)
    requires backend.Valid()
    modifies backend, backend.tagIndex
    ensures backend.Valid()
    ensures backend.table == match op
                             case Read(key, now) => AfterGet(old(backend.table), key, now)
                             case Write(key, entry, ttl, staleFor, now) =>
                               AfterSet(old(backend.table), key, entry, ttl, staleFor, now)
  {
    match op
    case Read(key, now) => var _ := backend.Get(key, now);
    case Write(key, entry, ttl, staleFor, now) => backend.Set(key, entry, ttl, staleFor, now);
  }

  /** `op` writes nothing under `key`: another key, or a zero time-to-live. */
  predicate Spares(op: Op, key: Key) { op.Write? ==> op.key != key || op.ttl == 0 }

  /** `op` reads `key` after `limit`. */
  predicate ReadsLate(op: Op, key: Key, limit: nat) { op.Read? && op.key == key && op.now > limit }

  /** An entry that was stored and not stored over is read back with its expiry `ttl` after the
      storing and its stale limit `staleFor` later, up to that limit and not after; once it has
      been read too late it is gone for every clock. */
  method SetThenGet(backend: InMemoryBackend, key: Key, entry: CacheEntry, ttl: nat, staleFor: nat, n: nat,
                    between: seq<Op>, t: nat) returns (r: Option<CacheRead>)
    requires backend.Valid() && ttl > 0 && forall i :: 0 <= i < |between| ==> Spares(between[i], key)
    modifies backend, backend.tagIndex
    ensures backend.Valid()
    ensures var limit := n + ttl + staleFor;
            r == if t <= limit && forall i :: 0 <= i < |between| ==> !ReadsLate(between[i], key, limit)
                 then Some(CacheRead(entry, Some(n + ttl), Some(limit))) else None
  {
    backend.Set(key, entry, ttl, staleFor, n);
    ghost var stored := Stored(entry, n + ttl, n + ttl + staleFor);
    for i := 0 to |between|
      invariant backend.Valid()
      invariant if forall j :: 0 <= j < i ==> !ReadsLate(between[j], key, n + ttl + staleFor)
                then key in backend.table && backend.table[key] == stored else key !in backend.table
    {
      assert Spares(between[i], key);
      Apply(backend, between[i]);
    }
    r := backend.Get(key, t);
  }

  /** Setting or reading one key leaves what every other key reads as alone, and setting with a
      zero time-to-live leaves them all alone. */
  method OthersUndisturbed(backend: InMemoryBackend, op: Op, other: Key, t: nat) returns (r: Option<CacheRead>)
    requires backend.Valid() && (op.key != other || (op.Write? && op.ttl == 0))
    modifies backend, backend.tagIndex
    ensures backend.Valid() && (other in backend.table ==> other in old(backend.table))
    ensures r == if other in old(backend.table) && t <= old(backend.table)[other].staleUntil
                 then Some(CacheRead(old(backend.table)[other].entry, Some(old(backend.table)[other].expiresAt),
                                     Some(old(backend.table)[other].staleUntil)))
                 else None
  {
    Apply(backend, op);
    r := backend.Get(other, t);
  }

  /** The documented count of dropped entries is not met once an entry was evicted: its key
      is still listed, and counted. */
  method CountsEvictedKey(key: Key, tag: Tag, entry: CacheEntry) returns (count: nat, dropped: nat)
    requires tag in TagsOf(entry)
    ensures count == 1 && dropped == 0
  {
    var backend := new InMemoryBackend();
    backend.Set(key, entry, 1, 0, 0);
    backend.Evict({key});
    var before := |backend.table|;
    assert forall k :: k in Row(backend.tagIndex.forward, tag) <==> backend.tagIndex.Tagged(k, tag);
    assert Row(backend.tagIndex.forward, tag) == {key};
    count := backend.InvalidateByTag(tag);
    dropped := before - |backend.table|;
  }

  lemma ListingOf(keys: seq<Key>, row: set<Key>, index: TagIndex, tag: Tag)
    requires NoDuplicates(keys) && row == Row(index.forward, tag)
    requires forall k :: k in keys <==> index.Tagged(k, tag)
    ensures Elements(keys) == row && |keys| == |row|
  {
    assert forall k :: k in Elements(keys) <==> k in row;
    ListingSize(keys);
  }

  lemma Parts<X>(a: set<X>, b: set<X>)
    ensures |a| == |a - b| + |a * b|
  {
    assert a == (a - b) + (a * b);
  }

  /** How many entries leave a table with a set of keys. */
  lemma Dropped(table: Table, keys: set<Key>)
    ensures |keys| == |table| - |table - keys| <==> keys <= table.Keys
  {
    Parts(table.Keys, keys);
    Parts(keys, table.Keys);
    assert (table - keys).Keys == table.Keys - keys;
    assert table.Keys * keys == keys * table.Keys;
    if keys <= table.Keys {
      assert keys - table.Keys == {};
    } else {
      var k :| k in keys && k !in table.Keys;
      assert k in keys - table.Keys;
    }
  }
}
