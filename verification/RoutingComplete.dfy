/** When routing loses nothing: a filter list that matches an event shares a routing key with it.
    The condition is read off the filter alone, and is exact on filters that constrain only kinds,
    authors, time and tags other than `b`. */
module RoutingComplete {
  import opened Optional
  import opened Nostr
  import opened FilterMatch
  import opened Routing

  ghost predicate FilterHits(f: Filter, e: Event) {
    exists k :: FilterHasKey(f, k) && EventHasKey(e, k)
  }

  ghost predicate Hits(filters: seq<Filter>, e: Event) {
    exists k :: FiltersHaveKey(filters, k) && EventHasKey(e, k)
  }

  /** Kinds an event can carry without being mistaken for a filter's repost pseudo-kind; every kind
      in 0..65535 is one. */
  predicate PlainKind(kind: int) {
    kind !in REPOST_ORIGINALS
  }

  // ---- Exactly which matching events are hit

  lemma SomeNameCounts(tags: TagMap)
    ensures NamesCount(tags, tags.Keys) > 0 <==> exists name :: name in TRACKED && NameCount(tags, tags.Keys, name) > 0
  {
    hide NameCount;
  }

  lemma CountedName(f: Filter, name: string)
    requires NameCount(Tags(f), Tags(f).Keys, name) > 0
    ensures exists t :: FilterHasTarget(f, t)
  {
    assert FilterHasTarget(f, AltTargets(name, Tags(f)[name])[0]);
  }

  lemma TargetIsCounted(f: Filter, t: Target)
    requires FilterHasTarget(f, t) && !(t.dim == DimAuthor && t.value in Authors(f))
    ensures exists name :: name in TRACKED && NameCount(Tags(f), Tags(f).Keys, name) > 0
  {
    var name :| name in Tags(f) && t in AltTargets(name, Tags(f)[name]);
    if name !in TRACKED {
      UntrackedHasNoTarget(name, Tags(f)[name]);
    }
    hide AltTargets;
    assert NameCount(Tags(f), Tags(f).Keys, name) > 0;
  }

  lemma CountsAreMembers(f: Filter)
    ensures TargetCount(f) > 0 <==> exists t :: FilterHasTarget(f, t)
  {
    SomeNameCounts(Tags(f));
    hide NamesCount, NameCount, AltTargets;
    if NamesCount(Tags(f), Tags(f).Keys) > 0 {
      var name :| name in TRACKED && NameCount(Tags(f), Tags(f).Keys, name) > 0;
      CountedName(f, name);
    } else if |Authors(f)| > 0 {
      assert FilterHasTarget(f, Target(DimAuthor, Authors(f)[0]));
    }
    if t :| FilterHasTarget(f, t) && !(t.dim == DimAuthor && t.value in Authors(f)) {
      TargetIsCounted(f, t);
    }
  }

  /** A kind list that accepts a plain kind without excluding any is routed by that kind. */
  lemma AcceptedKindIsRouted(kinds: seq<int>, e: Event)
    requires KindsMatch(kinds, e) && !HasNegative(kinds) && PlainKind(e.kind)
    ensures kinds == [] || e.kind in RoutedKinds(kinds)
  {
    if kinds != [] {
      var i :| 0 <= i < |kinds| && KindAccepts(kinds[i], e);
      RoutedKindsMembers(kinds, e.kind);
    }
  }

  lemma RoutedOnlyIfListed(kinds: seq<int>)
    requires !HasNegative(kinds)
    ensures RoutedKinds(kinds) == [] <==> kinds == []
  {
    if kinds != [] {
      if kinds[0] in REPOST_ORIGINALS {
        RoutedKindsMembers(kinds, KIND_GENERIC_REPOST);
      } else {
        RoutedKindsMembers(kinds, kinds[0]);
      }
    }
  }

  /** Among matching events, the index misses exactly those that carry none of the filter's targets
      although the filter has some and excludes no kind. The cartesian cut-off plays no part. */
  lemma HitExactly(f: Filter, e: Event, user: User)
    requires FilterMatches(f, e, user) && PlainKind(e.kind)
    ensures FilterHits(f, e) <==>
              || HasNegative(Kinds(f))
              || TargetCount(f) == 0
              || exists t :: FilterHasTarget(f, t) && EventHasTarget(e, t)
  {
    var kinds := Kinds(f);
    if HasNegative(kinds) {
      assert FilterHasKey(f, CATCH_ALL) && EventHasKey(e, CATCH_ALL);
    } else {
      AcceptedKindIsRouted(kinds, e);
      RoutedOnlyIfListed(kinds);
      var anyKind := RoutedKinds(kinds) == [] ||
                     (TargetCount(f) > 0 && |RoutedKinds(kinds)| * TargetCount(f) > CARTESIAN_LIMIT);
      var kind := if anyKind then ANY_KIND else e.kind;
      if TargetCount(f) == 0 {
        assert FilterHasKey(f, IndexKey(kind, NO_TARGET)) && EventHasKey(e, IndexKey(kind, NO_TARGET));
      } else if t :| FilterHasTarget(f, t) && EventHasTarget(e, t) {
        assert FilterHasKey(f, IndexKey(kind, t)) && EventHasKey(e, IndexKey(kind, t));
      }
    }
  }

  // ---- A condition on the filter

  /** Whether every tag that satisfies the alternative carries one of the filter's targets. */
  predicate AltForced(f: Filter, name: string, alt: TagValues) {
    var t := AltTarget(name, alt[..if |alt| > 3 then 3 else |alt|]);
    t.Some? && FilterHasTarget(f, t.value)
  }

  predicate NameForced(f: Filter, name: string, alts: seq<TagValues>) {
    && HasValues(alts)
    && forall i :: 0 <= i < |alts| && Constrains(alts[i]) ==> AltForced(f, name, alts[i])
  }

  /** The filter lists one of the user's two keys but not the other, so that an event of the other
      key matches by substitution. */
  predicate HalfListed(authors: seq<string>, user: User) {
    (user.master in authors) != (user.device in authors)
  }

  predicate Covered(f: Filter, user: User) {
    || HasNegative(Kinds(f))
    || TargetCount(f) == 0
    || (f.authors.Some? && !HalfListed(f.authors.value, user))
    || exists name :: name in TRACKED && name in Tags(f) && NameForced(f, name, Tags(f)[name])
  }

  predicate AllCovered(filters: seq<Filter>, user: User) {
    forall i :: 0 <= i < |filters| ==> Covered(filters[i], user)
  }

  lemma AuthorTargetShared(f: Filter, e: Event, user: User)
    requires f.authors.Some? && AuthorsMatch(f.authors.value, e, user) && !HalfListed(f.authors.value, user)
    ensures exists t :: FilterHasTarget(f, t) && EventHasTarget(e, t)
  {
    var authors := f.authors.value;
    var i :| 0 <= i < |authors| && AuthorAccepts(authors[i], e, user);
    if e.pubkey in authors {
      var t := Target(DimAuthor, e.pubkey);
      assert FilterHasTarget(f, t) && EventHasTarget(e, t);
    } else {
      assert MasterKey(e) in authors;
      var t := Target(DimAuthor, MasterKey(e));
      assert FilterHasTarget(f, t) && EventHasTarget(e, t);
    }
  }

  /** An alternative's target is the target of every tag it matches. */
  lemma MatchedTagTarget(name: string, alt: TagValues, tag: Tag)
    requires Key(tag) == name && AltMatches(alt, tag)
    requires AltTarget(name, alt[..if |alt| > 3 then 3 else |alt|]).Some?
    ensures TagTarget(tag) == AltTarget(name, alt[..if |alt| > 3 then 3 else |alt|])
  {
    var position := if name in {"p", "k"} then 0 else 2;
    assert alt[position].Some? && tag[position + 1] == alt[position].value;
  }

  /** Routing completeness of one filter. */
  lemma FilterComplete(f: Filter, e: Event, user: User)
    requires FilterMatches(f, e, user) && PlainKind(e.kind) && Covered(f, user)
    ensures FilterHits(f, e)
  {
    hide AltTarget, TagTarget, AltMatches, Constrains, FilterHasTarget, KindsMatch, FilterHits, TargetCount;
    HitExactly(f, e, user);
    if !HasNegative(Kinds(f)) && TargetCount(f) != 0 {
      if f.authors.Some? && !HalfListed(f.authors.value, user) {
        AuthorTargetShared(f, e, user);
      } else {
        var name :| name in TRACKED && name in Tags(f) && NameForced(f, name, Tags(f)[name]);
        var alts := Tags(f)[name];
        assert NameMatches(name, alts, e.tags);
        var j :| 0 <= j < |e.tags| && TagSatisfies(name, alts, e.tags[j]);
        var i :| 0 <= i < |alts| && Constrains(alts[i]) && AltMatches(alts[i], e.tags[j]);
        assert AltForced(f, name, alts[i]);
        MatchedTagTarget(name, alts[i], e.tags[j]);
        var t := TagTarget(e.tags[j]).value;
        assert FilterHasTarget(f, t) && EventHasTarget(e, t);
      }
    }
  }

  /** Routing completeness: a matching filter list shares a key with the event. */
  lemma RoutingLosesNothing(filters: seq<Filter>, e: Event, user: User)
    requires FiltersMatch(filters, e, user) && PlainKind(e.kind) && AllCovered(filters, user)
    ensures Hits(filters, e)
  {
    if filters == [] {
      assert FiltersHaveKey(filters, CATCH_ALL) && EventHasKey(e, CATCH_ALL);
    } else {
      var i :| 0 <= i < |filters| && FilterMatches(filters[i], e, user);
      FilterComplete(filters[i], e, user);
      var k :| FilterHasKey(filters[i], k) && EventHasKey(e, k);
      assert FiltersHaveKey(filters, k);
    }
  }

  /** Either every alternative of a tracked name can be routed by, or none can. */
  predicate UniformName(name: string, alts: seq<TagValues>) {
    || (forall i :: 0 <= i < |alts| ==> AltTarget(name, alts[i]).Some?)
    || (forall i :: 0 <= i < |alts| ==> AltTarget(name, alts[i]).None?)
  }

  /** With uniform names, and the user's keys both listed or both not (as on the push path, where both
      are empty), every filter is covered. */
  lemma WellFormedIsCovered(f: Filter, user: User)
    requires f.authors.Some? ==> !HalfListed(f.authors.value, user)
    requires forall name :: name in TRACKED && name in Tags(f) ==> UniformName(name, Tags(f)[name])
    ensures Covered(f, user)
  {
    hide AltTarget, TargetCount, AltForced, Constrains, HalfListed, HasNegative;
    CountsAreMembers(f);
    if f.authors.None? && TargetCount(f) > 0 {
      var t :| FilterHasTarget(f, t);
      var name :| name in Tags(f) && t in AltTargets(name, Tags(f)[name]);
      if name in TRACKED {
        var alts := Tags(f)[name];
        var i :| 0 <= i < |alts| && AltTarget(name, alts[i]) == Some(t);
        TargetConstrains(name, alts[i]);
        forall j | 0 <= j < |alts| && Constrains(alts[j])
          ensures AltForced(f, name, alts[j])
        {
          TargetConstrains(name, alts[j]);
          IndexableIsForced(f, name, j);
        }
        assert NameForced(f, name, alts);
      } else {
        UntrackedHasNoTarget(name, Tags(f)[name]);
      }
    }
  }

  lemma TargetConstrains(name: string, alt: TagValues)
    ensures AltTarget(name, alt).Some? ==> Constrains(alt)
  {
  }

  lemma IndexableIsForced(f: Filter, name: string, j: nat)
    requires name in TRACKED && name in Tags(f) && j < |Tags(f)[name]|
    requires AltTarget(name, Tags(f)[name][j]).Some?
    ensures AltForced(f, name, Tags(f)[name][j])
  {
    var alts := Tags(f)[name];
    var alt := alts[j];
    var t := AltTarget(name, alt).value;
    assert t in AltTargets(name, alts);
    assert FilterHasTarget(f, t);
    var short := alt[..if |alt| > 3 then 3 else |alt|];
    if name in {"Q", "q"} {
      assert short == alt;
    }
    assert AltTarget(name, short) == Some(t);
  }
}
