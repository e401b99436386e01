/** The inverted index as a value: for each routing key, the hashes stored under it. A key with no
    hash is absent, as the matcher deletes it. */
module IndexAlgebra {
  import opened Routing
  import opened HashOrder

  type Index = map<IndexKey, set<Hash>>
  type Routes = map<Hash, set<IndexKey>>

  predicate Under(idx: Index, k: IndexKey, h: Hash) {
    k in idx && h in idx[k]
  }

  predicate NoEmptyKey(idx: Index) {
    forall k :: k in idx ==> idx[k] != {}
  }

  /** A hash is under a key exactly when the key is one of its routes. */
  ghost predicate Agrees(idx: Index, routes: Routes) {
    && NoEmptyKey(idx)
    && forall k, h :: Under(idx, k, h) <==> h in routes && k in routes[h]
  }

  function With(idx: Index, h: Hash, k: IndexKey): Index {
    idx[k := (if k in idx then idx[k] else {}) + {h}]
  }

  function Without(idx: Index, h: Hash, k: IndexKey): Index {
    if k !in idx then idx
    else if idx[k] - {h} == {} then idx - {k}
    else idx[k := idx[k] - {h}]
  }

  function WithAll(idx: Index, h: Hash, keys: seq<IndexKey>): Index {
    if keys == [] then idx else With(WithAll(idx, h, keys[..|keys| - 1]), h, keys[|keys| - 1])
  }

  function WithoutAll(idx: Index, h: Hash, keys: seq<IndexKey>): Index {
    if keys == [] then idx else Without(WithoutAll(idx, h, keys[..|keys| - 1]), h, keys[|keys| - 1])
  }

  lemma WithMember(idx: Index, h: Hash, k: IndexKey, k': IndexKey, x: Hash)
    ensures Under(With(idx, h, k), k', x) <==> Under(idx, k', x) || (x == h && k' == k)
  {
  }

  lemma WithoutMember(idx: Index, h: Hash, k: IndexKey, k': IndexKey, x: Hash)
    ensures Under(Without(idx, h, k), k', x) <==> Under(idx, k', x) && !(x == h && k' == k)
  {
    if k in idx {
      assert x in idx[k] && x != h ==> x in idx[k] - {h};
    }
  }

  lemma {:induction false} WithAllMembers(idx: Index, h: Hash, keys: seq<IndexKey>)
    requires NoEmptyKey(idx)
    ensures NoEmptyKey(WithAll(idx, h, keys))
    ensures forall k, x :: Under(WithAll(idx, h, keys), k, x) <==> Under(idx, k, x) || (x == h && k in keys)
  {
    if keys != [] {
      var init := keys[..|keys| - 1];
      WithAllMembers(idx, h, init);
      assert keys == init + [keys[|keys| - 1]];
      forall k, x
        ensures Under(WithAll(idx, h, keys), k, x) <==> Under(idx, k, x) || (x == h && k in keys)
      {
        WithMember(WithAll(idx, h, init), h, keys[|keys| - 1], k, x);
      }
    }
  }

  lemma {:induction false} WithoutAllMembers(idx: Index, h: Hash, keys: seq<IndexKey>)
    requires NoEmptyKey(idx)
    ensures NoEmptyKey(WithoutAll(idx, h, keys))
    ensures forall k, x :: Under(WithoutAll(idx, h, keys), k, x) <==> Under(idx, k, x) && !(x == h && k in keys)
  {
    if keys != [] {
      var init := keys[..|keys| - 1];
      WithoutAllMembers(idx, h, init);
      assert keys == init + [keys[|keys| - 1]];
      forall k, x
        ensures Under(WithoutAll(idx, h, keys), k, x) <==> Under(idx, k, x) && !(x == h && k in keys)
      {
        WithoutMember(WithoutAll(idx, h, init), h, keys[|keys| - 1], k, x);
      }
    }
  }

  function Members(keys: seq<IndexKey>): set<IndexKey> {
    set i | 0 <= i < |keys| :: keys[i]
  }

  /** Removing a value's routes from the index removes the value. */
  lemma RemovalAgrees(idx: Index, routes: Routes, h: Hash, keys: seq<IndexKey>)
    requires Agrees(idx, routes) && h in routes && routes[h] == Members(keys)
    ensures Agrees(WithoutAll(idx, h, keys), routes - {h})
  {
    WithoutAllMembers(idx, h, keys);
  }

  /** Adding a new value's routes to an index that does not know it adds the value. */
  lemma InsertionAgrees(idx: Index, routes: Routes, h: Hash, keys: seq<IndexKey>)
    requires Agrees(idx, routes) && h !in routes
    ensures Agrees(WithAll(idx, h, keys), routes[h := Members(keys)])
  {
    WithAllMembers(idx, h, keys);
  }

  /** Inserting and then removing under the same keys restores the index, deleted keys included. */
  lemma InsertRemoveRestores(idx: Index, routes: Routes, h: Hash, keys: seq<IndexKey>)
    requires Agrees(idx, routes) && h !in routes
    ensures WithoutAll(WithAll(idx, h, keys), h, keys) == idx
  {
    WithAllMembers(idx, h, keys);
    var more := WithAll(idx, h, keys);
    WithoutAllMembers(more, h, keys);
    var back := WithoutAll(more, h, keys);
    assert forall k :: k in keys ==> !Under(idx, k, h);
    forall k
      ensures k in back <==> k in idx
      ensures k in back ==> back[k] == idx[k]
    {
      assert forall x :: Under(back, k, x) <==> Under(idx, k, x);
      if k in back {
        var x :| x in back[k];
        assert Under(back, k, x);
      }
      if k in idx {
        var x :| x in idx[k];
        assert Under(idx, k, x);
      }
      if k in back {
        assert forall x :: x in back[k] <==> Under(back, k, x);
        assert forall x :: x in idx[k] <==> Under(idx, k, x);
      }
    }
  }
}
