/** The tag index: two maps of sets kept as each other's inverse. */
module Tags {
  import opened CacheTypes

  /** One row of a map of sets; a missing key has the empty row. */
  function Row<X, Y>(m: map<X, set<Y>>, x: X): set<Y> { if x in m then m[x] else {} }

  ghost predicate NoEmptyRows<X, Y>(m: map<X, set<Y>>) { forall x :: x in m ==> m[x] != {} }

  /** Taking one element out of a row, and the row out of the map when it becomes empty. */
  function Without<X(!new), Y>(m: map<X, set<Y>>, x: X, y: Y): (r: map<X, set<Y>>)
    requires NoEmptyRows(m)
    ensures NoEmptyRows(r)
    ensures Row(r, x) == Row(m, x) - {y}
    ensures forall z :: z != x ==> Row(r, z) == Row(m, z)
  {
    if x !in m then m
    else if m[x] - {y} == {} then m - {x}
    else m[x := m[x] - {y}]
  }

  /** `f` and `r` are each other's inverse. */
  ghost predicate Inverse<X(!new), Y(!new)>(f: map<Y, set<X>>, r: map<X, set<Y>>) {
    forall x, y :: x in Row(f, y) <==> y in Row(r, x)
  }

  lemma InverseFlips<X(!new), Y(!new)>(f: map<Y, set<X>>, r: map<X, set<Y>>)
    requires Inverse(f, r)
    ensures Inverse(r, f)
  {
    forall x, y
      ensures y in Row(r, x) <==> x in Row(f, y)
    {
    }
  }

  /** Dropping the row of `x` on one side and `x` from the rows that row lists on the other. */
  lemma InverseWithout<X(!new), Y(!new)>(f: map<Y, set<X>>, r: map<X, set<Y>>, f': map<Y, set<X>>, r': map<X, set<Y>>, x: X)
    requires Inverse(f, r) && r' == r - {x}
    requires forall y :: Row(f', y) == Row(f, y) - (if y in Row(r, x) then {x} else {})
    ensures Inverse(f', r')
    ensures forall z, y :: z in Row(f', y) <==> z in Row(f, y) && z != x
  {
    forall z, y
      ensures z in Row(f', y) <==> z in Row(f, y) && z != x
      ensures z in Row(f', y) <==> y in Row(r', z)
    {
      assert z in Row(f, y) <==> y in Row(r, z);
    }
  }

  /** Adding `x` to the rows in `more` on one side and `more` to the row of `x` on the other. */
  lemma InverseWith<X(!new), Y(!new)>(f: map<Y, set<X>>, r: map<X, set<Y>>, f': map<Y, set<X>>, r': map<X, set<Y>>, x: X, more: set<Y>)
    requires Inverse(f, r) && r' == r[x := Row(r, x) + more]
    requires forall y :: Row(f', y) == Row(f, y) + (if y in more then {x} else {})
    ensures Inverse(f', r')
    ensures forall z, y :: z in Row(f', y) <==> z in Row(f, y) || (z == x && y in more)
  {
    forall z, y
      ensures z in Row(f', y) <==> z in Row(f, y) || (z == x && y in more)
      ensures z in Row(f', y) <==> y in Row(r', z)
    {
      assert z in Row(f, y) <==> y in Row(r, z);
    }
  }

  /** `after` is `before` with the members of `gone` taken out of every row. */
  ghost predicate Cleared<X(!new), Y(!new)>(before: map<Y, set<X>>, after: map<Y, set<X>>, gone: set<X>) {
    forall y :: Row(after, y) == Row(before, y) - gone
  }

  ghost predicate NoDuplicates<X>(s: seq<X>) { forall i, j :: 0 <= i < j < |s| ==> s[i] != s[j] }

  ghost function Elements<X>(s: seq<X>): set<X> { set x | x in s }

  /** The members of a set, in some order. */
  method Listing<X>(s: set<X>) returns (r: seq<X>)
    ensures NoDuplicates(r) && Elements(r) == s
  {
    r := [];
    var todo := s;
    while todo != {}
      invariant todo <= s && Elements(r) == s - todo && NoDuplicates(r)
    {
      var x :| x in todo;
      assert x !in Elements(r);
      assert Elements(r + [x]) == Elements(r) + {x};
      r := r + [x];
      todo := todo - {x};
    }
  }

  lemma {:induction false} ListingSize<X>(s: seq<X>)
    requires NoDuplicates(s)
    ensures |s| == |Elements(s)|
  {
    if s != [] {
      var front, last := s[..|s| - 1], s[|s| - 1];
      ListingSize(front);
      assert Elements(s) == Elements(front) + {last};
      assert last !in Elements(front);
    }
  }

  class TagIndex {
    var forward: map<Tag, set<Key>>
    var reverse: map<Key, set<Tag>>

    /** The two maps say the same, and neither keeps an empty row. */
    ghost predicate Valid()
      reads this
    {
      NoEmptyRows(forward) && NoEmptyRows(reverse) && Inverse(forward, reverse)
    }

    /** The relation both maps represent. */
    ghost predicate Tagged(key: Key, tag: Tag)
      reads this
    {
      key in Row(forward, tag)
    }

    constructor ()
      ensures Valid() && forall k, t :: !Tagged(k, t)
    {
      forward := map[];
      reverse := map[];
    }

    /** Adds the pairs of `key` with each of `tags`, and no other. */
    method Index(key: Key, tags: seq<Tag>)
      requires Valid()
      modifies this
      ensures Valid()
      ensures forall k, t :: Tagged(k, t) <==> old(Tagged(k, t)) || (k == key && t in tags)
    {
      if tags == [] { return; }
      for i := 0 to |tags|
        invariant reverse == old(reverse) && NoEmptyRows(forward)
        invariant forall t :: Row(forward, t) == Row(old(forward), t) + (if t in tags[..i] then {key} else {})
      {
        assert tags[..i + 1] == tags[..i] + [tags[i]];
        forward := forward[tags[i] := Row(forward, tags[i]) + {key}];
      }
      assert tags[..|tags|] == tags;
      var more := set t | t in tags;
      assert tags[0] in more;
      reverse := reverse[key := Row(reverse, key) + more];
      InverseWith(old(forward), old(reverse), forward, reverse, key, more);
    }

    method GetKeysByTag(tag: Tag) returns (keys: seq<Key>)
      requires Valid()
      ensures NoDuplicates(keys) && forall k :: k in keys <==> Tagged(k, tag)
    {
      keys := Listing(Row(forward, tag));
      assert forall k :: k in keys <==> k in Elements(keys);
    }

    method GetTagsByKey(key: Key) returns (tags: seq<Tag>)
      requires Valid()
      ensures NoDuplicates(tags) && forall t :: t in tags <==> Tagged(key, t)
    {
      tags := Listing(Row(reverse, key));
      assert forall t :: t in tags <==> t in Elements(tags);
    }

    /** Takes out every pair of `key`, and no other. */
    method Remove(key: Key)
      requires Valid()
      modifies this
      ensures Valid()
      ensures forall k, t :: Tagged(k, t) <==> old(Tagged(k, t)) && k != key
      ensures Cleared(old(forward), forward, {key})
    {
      if key !in reverse {
        assert forall t :: key in Row(forward, t) <==> t in Row(reverse, key);
        return;
      }
      var tags := reverse[key];
      reverse := reverse - {key};
      var todo := tags;
      while todo != {}
        invariant todo <= tags && reverse == old(reverse) - {key} && NoEmptyRows(forward)
        invariant forall t :: Row(forward, t) == Row(old(forward), t) - (if t in tags - todo then {key} else {})
      {
        var tag :| tag in todo;
        if tag in forward {
          forward := Without(forward, tag, key);
        }
        todo := todo - {tag};
      }
      InverseWithout(old(forward), old(reverse), forward, reverse, key);
    }

    /** Takes out every pair with `tag` and returns its keys, each once. */
    method RemoveByTag(tag: Tag) returns (keys: seq<Key>)
      requires Valid()
      modifies this
      ensures Valid()
      ensures NoDuplicates(keys) && forall k :: k in keys <==> old(Tagged(k, tag))
      ensures forall k, t :: Tagged(k, t) <==> old(Tagged(k, t)) && t != tag
    {
      if tag !in forward { return []; }
      var row := forward[tag];
      forward := forward - {tag};
      keys := Listing(row);
      assert forall k :: k in keys <==> k in Elements(keys);
      for i := 0 to |keys|
        invariant forward == old(forward) - {tag} && NoEmptyRows(reverse)
        invariant forall k :: Row(reverse, k) == Row(old(reverse), k) - (if k in keys[..i] then {tag} else {})
      {
        assert keys[..i + 1] == keys[..i] + [keys[i]];
        if keys[i] in reverse {
          reverse := Without(reverse, keys[i], tag);
        }
      }
      assert keys[..|keys|] == keys;
      InverseFlips(old(forward), old(reverse));
      InverseWithout(old(reverse), old(forward), reverse, forward, tag);
      InverseFlips(reverse, forward);
    }

    /** Takes out every pair with some listed tag and returns the keys that carried one, each once. */
    method RemoveByTags(tags: seq<Tag>) returns (keys: seq<Key>)
      requires Valid()
      modifies this
      ensures Valid()
      ensures NoDuplicates(keys) && forall k :: k in keys <==> exists t :: t in tags && old(Tagged(k, t))
      ensures forall k, t :: Tagged(k, t) <==> old(Tagged(k, t)) && t !in tags
    {
      var all: set<Key> := {};
      for i := 0 to |tags|
        invariant Valid()
        invariant forall k :: k in all <==> exists t :: t in tags[..i] && old(Tagged(k, t))
        invariant forall k, t :: Tagged(k, t) <==> old(Tagged(k, t)) && t !in tags[..i]
      {
        assert tags[..i + 1] == tags[..i] + [tags[i]];
        var found := RemoveByTag(tags[i]);
        all := all + set k | k in found;
      }
      assert tags[..|tags|] == tags;
      keys := Listing(all);
      assert forall k :: k in keys <==> k in Elements(keys);
    }

    method Clear()
      modifies this
      ensures Valid() && forall k, t :: !Tagged(k, t)
    {
      forward := map[];
      reverse := map[];
    }
  }
}
