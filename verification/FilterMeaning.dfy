/** What a filter's kinds and authors match in memory, in numbers and tags. */
module FilterMeaning {
  import opened Optional
  import opened Strconv
  import opened Nostr
  import opened Addresses
  import opened FilterMatch

  /** The first `k` tag names the kind. */
  predicate FirstKNames(e: Event, original: int) {
    exists i :: 0 <= i < |e.tags| && IsFirst(e.tags, i, "k") && |e.tags[i]| > 1 && Atoi(e.tags[i][1]) == Some(original)
  }

  lemma RepostedIsFirstK(e: Event, original: int)
    requires original > 0
    ensures RepostedKind(e) == Some(original) <==> FirstKNames(e, original)
  {
    hide Atoi;
    var first := GetTagIsFirst(e.tags, "k");
    forall i | 0 <= i < |e.tags| && IsFirst(e.tags, i, "k")
      ensures i == first
    {
      OneFirst(e.tags, i, first, "k");
    }
    assert Atoi("") == None by {
      NothingIsNoNumber();
    }
    hide GetTag;
  }

  lemma NothingIsNoNumber()
    ensures Atoi("") == None
  {
  }

  /** A repost pseudo-kind asks for generic reposts whose first `k` tag names its kind. */
  lemma RepostFilterExactly(k: int, original: int, e: Event, user: User)
    requires (k, original) in {(1630023, 30023), (1630175, 30175), (1631175, 31175), (161175, 1175)}
    ensures FilterMatches(EMPTY_FILTER.(kinds := Some([k])), e, user) <==>
              e.kind == k || (e.kind == 16 && FirstKNames(e, original))
  {
    RepostedIsFirstK(e, original);
    hide RepostedKind, FirstKNames;
    assert KindsMatch([k], e) <==> KindAccepts(k, e) by {
      if KindAccepts(k, e) {
        assert KindAccepts([k][0], e);
      }
    }
  }

  /** An event that is no repost is matched by its kind, if that is listed with no exclusion of it before. */
  lemma PlainKindExactly(kinds: seq<int>, e: Event, user: User)
    requires 0 < e.kind && e.kind != 16
    ensures FilterMatches(EMPTY_FILTER.(kinds := Some(kinds)), e, user) <==>
              || kinds == []
              || exists i :: 0 <= i < |kinds| && kinds[i] == e.kind && forall j :: 0 <= j < i ==> kinds[j] != -e.kind
  {
    if KindsMatch(kinds, e) && kinds != [] {
      var i :| 0 <= i < |kinds| && KindAccepts(kinds[i], e) && forall j :: 0 <= j < i ==> !KindRejects(kinds[j], e);
      assert forall j :: 0 <= j < i ==> (KindRejects(kinds[j], e) <==> kinds[j] == -e.kind);
    }
    if i :| 0 <= i < |kinds| && kinds[i] == e.kind && forall j :: 0 <= j < i ==> kinds[j] != -e.kind {
      assert KindAccepts(kinds[i], e) && forall j :: 0 <= j < i ==> !KindRejects(kinds[j], e);
    }
  }

  /** An event is somebody's when they signed it or own it. */
  predicate IsOf(e: Event, key: string) {
    e.pubkey == key || OwnedBy(e, key)
  }

  lemma OwnersKeys(e: Event, key: string)
    ensures IsOf(e, key) <==> key == e.pubkey || key == MasterKey(e)
  {
    OwnerIsMaster(e, key);
    hide OwnedBy, MasterKey;
  }

  /** Authors match the events that are theirs, and each of the connected user's keys also those of the other. */
  lemma AuthorsExactly(authors: seq<string>, e: Event, user: User)
    ensures FilterMatches(EMPTY_FILTER.(authors := Some(authors)), e, user) <==>
              exists a :: a in authors &&
                (IsOf(e, a) || (a in {user.master, user.device} && (IsOf(e, user.master) || IsOf(e, user.device))))
  {
    OwnersKeys(e, user.master);
    OwnersKeys(e, user.device);
    forall a
      ensures AuthorAccepts(a, e, user) <==>
                IsOf(e, a) || (a in {user.master, user.device} && (IsOf(e, user.master) || IsOf(e, user.device)))
    {
      OwnersKeys(e, a);
    }
    hide AuthorAccepts, IsOf;
    if AuthorsMatch(authors, e, user) {
      var i :| 0 <= i < |authors| && AuthorAccepts(authors[i], e, user);
      assert authors[i] in authors;
    }
    if a :| a in authors && AuthorAccepts(a, e, user) {
      var i :| 0 <= i < |authors| && authors[i] == a;
    }
  }
}
