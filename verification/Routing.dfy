/** Routing keys of the inverted index (`event-matcher/filter.go`, `event-matcher/event.go`):
    which keys a filter list is stored under and which keys an event is looked up by. */
module Routing {
  import opened Optional
  import opened Nostr
  import opened FilterMatch

  const ANY_KIND := -1
  const CARTESIAN_LIMIT := 100

  datatype Dimension = DimNone | DimAuthor | DimTagP | DimTagUpperQ | DimTagLowerQ | DimTagK

  /** What a key constrains besides the kind. */
  datatype Target = Target(dim: Dimension, value: string)

  datatype IndexKey = IndexKey(kind: int, target: Target)

  const NO_TARGET := Target(DimNone, "")
  const CATCH_ALL := IndexKey(ANY_KIND, NO_TARGET)

  // ---- Keys of an event

  /** The target one event tag stands for, if its name is tracked and its value is not empty. */
  function TagTarget(tag: Tag): Option<Target> {
    if |tag| < 2 then None
    else if tag[0] == "p" && tag[1] != "" then Some(Target(DimTagP, tag[1]))
    else if tag[0] == "k" && tag[1] != "" then Some(Target(DimTagK, tag[1]))
    else if tag[0] == "Q" && |tag| > 3 && tag[3] != "" then Some(Target(DimTagUpperQ, tag[3]))
    else if tag[0] == "q" && |tag| > 3 && tag[3] != "" then Some(Target(DimTagLowerQ, tag[3]))
    else None
  }

  predicate EventHasTarget(e: Event, t: Target) {
    || t == NO_TARGET
    || t == Target(DimAuthor, e.pubkey)
    || t == Target(DimAuthor, MasterKey(e))
    || exists i :: 0 <= i < |e.tags| && TagTarget(e.tags[i]) == Some(t)
  }

  /** An event is looked up by each of its targets, under its own kind and under any kind. */
  predicate EventHasKey(e: Event, k: IndexKey) {
    k.kind in {ANY_KIND, e.kind} && EventHasTarget(e, k.target)
  }

  /** The switch over a tag's name. */
  method TagKey(tag: Tag) returns (dim: Dimension, val: string)
    requires |tag| >= 2
    ensures TagTarget(tag) == if dim != DimNone && val != "" then Some(Target(dim, val)) else None
  {
    dim, val := DimNone, "";
    if tag[0] == "p" {
      dim, val := DimTagP, tag[1];
    } else if tag[0] == "k" {
      dim, val := DimTagK, tag[1];
    } else if tag[0] == "Q" || tag[0] == "q" {
      if |tag| > 3 {
        dim, val := if tag[0] == "q" then DimTagLowerQ else DimTagUpperQ, tag[3];
      }
    }
  }

  /** The targets found in the first `n` tags. */
  ghost predicate TargetSoFar(e: Event, n: nat, t: Target)
    requires n <= |e.tags|
  {
    || t in {NO_TARGET, Target(DimAuthor, e.pubkey), Target(DimAuthor, MasterKey(e))}
    || exists i :: 0 <= i < n && TagTarget(e.tags[i]) == Some(t)
  }

  method ParseEvent(e: Event) returns (keys: seq<IndexKey>)
    ensures forall k :: k in keys <==> EventHasKey(e, k)
  {
    keys := [CATCH_ALL, IndexKey(e.kind, NO_TARGET)];
    keys := keys + [IndexKey(ANY_KIND, Target(DimAuthor, e.pubkey)),
                    IndexKey(e.kind, Target(DimAuthor, e.pubkey))];
    var m := MasterKey(e);
    if m != "" && m != e.pubkey {
      keys := keys + [IndexKey(ANY_KIND, Target(DimAuthor, m)), IndexKey(e.kind, Target(DimAuthor, m))];
    }
    for i := 0 to |e.tags|
      invariant forall k :: k in keys <==> k.kind in {ANY_KIND, e.kind} && TargetSoFar(e, i, k.target)
    {
      assert forall t :: TargetSoFar(e, i + 1, t) <==> TargetSoFar(e, i, t) || TagTarget(e.tags[i]) == Some(t);
      if |e.tags[i]| < 2 {
        continue;
      }
      var dim, val := TagKey(e.tags[i]);
      if dim != DimNone && val != "" {
        keys := keys + [IndexKey(ANY_KIND, Target(dim, val)), IndexKey(e.kind, Target(dim, val))];
      }
    }
    assert forall t :: TargetSoFar(e, |e.tags|, t) <==> EventHasTarget(e, t);
  }

  // ---- Targets of a filter

  /** The target one alternative of a tag filter is routed by, if it can be. */
  function AltTarget(name: string, alt: TagValues): Option<Target> {
    if name in {"p", "k"} && |alt| >= 1 && alt[0].Some? && alt[0].value != "" then
      Some(Target(if name == "p" then DimTagP else DimTagK, alt[0].value))
    else if name in {"Q", "q"} && |alt| == 3 && alt[2].Some? && alt[2].value != "" then
      Some(Target(if name == "q" then DimTagLowerQ else DimTagUpperQ, alt[2].value))
    else None
  }

  /** The targets of the alternatives of one name, in order, repeats kept. */
  function AltTargets(name: string, alts: seq<TagValues>): (ts: seq<Target>)
    ensures forall t :: t in ts <==> exists i :: 0 <= i < |alts| && AltTarget(name, alts[i]) == Some(t)
  {
    if alts == [] then []
    else
      var rest := AltTargets(name, alts[..|alts| - 1]);
      match AltTarget(name, alts[|alts| - 1])
      case Some(t) => rest + [t]
      case None => rest
  }

  const TRACKED := {"p", "k", "Q", "q"}

  function NameCount(tags: TagMap, names: set<string>, name: string): nat {
    if name in names && name in tags then |AltTargets(name, tags[name])| else 0
  }

  /** How many targets the names in `names` yield, repeats counted. */
  function NamesCount(tags: TagMap, names: set<string>): nat {
    NameCount(tags, names, "p") + NameCount(tags, names, "k") +
    NameCount(tags, names, "Q") + NameCount(tags, names, "q")
  }

  function Authors(f: Filter): seq<string> {
    if f.authors.Some? then f.authors.value else []
  }

  function Tags(f: Filter): TagMap {
    if f.tags.Some? then f.tags.value else map[]
  }

  function Kinds(f: Filter): seq<int> {
    if f.kinds.Some? then f.kinds.value else []
  }

  predicate FilterHasTarget(f: Filter, t: Target) {
    || (t.dim == DimAuthor && t.value in Authors(f))
    || exists name :: name in Tags(f) && t in AltTargets(name, Tags(f)[name])
  }

  /** The length of the source's `targets` slice, which decides the cartesian cut-off. */
  function TargetCount(f: Filter): nat {
    |Authors(f)| + NamesCount(Tags(f), Tags(f).Keys)
  }

  method CollectTargets(f: Filter) returns (targets: seq<Target>)
    ensures forall t :: t in targets <==> FilterHasTarget(f, t)
    ensures |targets| == TargetCount(f)
  {
    hide AltTarget, AltTargets, NamesCount;
    targets := [];
    var authors, tags := Authors(f), Tags(f);
    NothingCounted(tags);
    for i := 0 to |authors|
      invariant |targets| == i
      invariant forall t :: t in targets <==> t.dim == DimAuthor && t.value in authors[..i]
    {
      targets := targets + [Target(DimAuthor, authors[i])];
    }
    var names := tags.Keys;
    assert authors[..|authors|] == authors && tags.Keys - names == {};
    while names != {}
      invariant names <= tags.Keys
      invariant |targets| == |authors| + NamesCount(tags, tags.Keys - names)
      invariant forall t :: t in targets <==>
                              || (t.dim == DimAuthor && t.value in authors)
                              || exists name :: name in tags.Keys - names && t in AltTargets(name, tags[name])
    {
      var name :| name in names;
      CountOneMore(tags, tags.Keys - names, name);
      assert tags.Keys - (names - {name}) == tags.Keys - names + {name};
      targets := CollectAlternatives(name, tags[name], targets);
      names := names - {name};
    }
    assert tags.Keys - {} == tags.Keys;
  }

  lemma NothingCounted(tags: TagMap)
    ensures NamesCount(tags, {}) == 0
  {
  }

  method CollectAlternatives(name: string, alts: seq<TagValues>, before: seq<Target>) returns (targets: seq<Target>)
    ensures targets == before + AltTargets(name, alts)
  {
    hide AltTarget, AltTargets;
    targets := before;
    NoAlternatives(name);
    for j := 0 to |alts|
      invariant targets == before + AltTargets(name, alts[..j])
    {
      assert alts[..j + 1] == alts[..j] + [alts[j]];
      OneMoreAlternative(name, alts[..j], alts[j]);
      var t := AltTarget(name, alts[j]);
      if t.Some? {
        targets := targets + [t.value];
      }
    }
    assert alts[..|alts|] == alts;
  }

  lemma NoAlternatives(name: string)
    ensures AltTargets(name, []) == []
  {
  }

  lemma OneMoreAlternative(name: string, alts: seq<TagValues>, alt: TagValues)
    ensures AltTargets(name, alts + [alt]) ==
            match AltTarget(name, alt) case Some(t) => AltTargets(name, alts) + [t] case None => AltTargets(name, alts)
  {
    hide AltTarget;
    assert (alts + [alt])[..|alts|] == alts;
  }

  lemma CountOneMore(tags: TagMap, done: set<string>, name: string)
    requires name in tags && name !in done
    ensures NamesCount(tags, done + {name}) == NamesCount(tags, done) + |AltTargets(name, tags[name])|
  {
    if name !in TRACKED {
      UntrackedHasNoTarget(name, tags[name]);
    }
  }

  lemma {:induction false} UntrackedHasNoTarget(name: string, alts: seq<TagValues>)
    requires name !in TRACKED
    ensures AltTargets(name, alts) == []
  {
    if alts != [] {
      UntrackedHasNoTarget(name, alts[..|alts| - 1]);
    }
  }

  // ---- Kinds of a filter

  predicate HasNegative(kinds: seq<int>) {
    exists i :: 0 <= i < |kinds| && kinds[i] < 0
  }

  predicate HasRepost(kinds: seq<int>) {
    exists i :: 0 <= i < |kinds| && kinds[i] in REPOST_ORIGINALS
  }

  /** The kinds a filter is routed by: negative kinds dropped, and the first repost pseudo-kind
      replaced by the generic repost, the others dropped. */
  function RoutedKinds(kinds: seq<int>): seq<int> {
    if kinds == [] then []
    else
      var init, last := kinds[..|kinds| - 1], kinds[|kinds| - 1];
      if last < 0 || (last in REPOST_ORIGINALS && HasRepost(init)) then RoutedKinds(init)
      else RoutedKinds(init) + [if last in REPOST_ORIGINALS then KIND_GENERIC_REPOST else last]
  }

  method HasSpecialKinds(kinds: seq<int>) returns (special: bool)
    ensures special <==> HasNegative(kinds) || HasRepost(kinds)
  {
    for i := 0 to |kinds|
      invariant forall j :: 0 <= j < i ==> 0 <= kinds[j] && kinds[j] !in REPOST_ORIGINALS
    {
      if kinds[i] in REPOST_ORIGINALS || kinds[i] < 0 {
        return true;
      }
    }
    return false;
  }

  lemma {:induction false} OrdinaryKindsUnchanged(kinds: seq<int>)
    requires !HasNegative(kinds) && !HasRepost(kinds)
    ensures RoutedKinds(kinds) == kinds
  {
    if kinds != [] {
      var init, last := kinds[..|kinds| - 1], kinds[|kinds| - 1];
      assert forall i :: 0 <= i < |init| ==> init[i] == kinds[i];
      OrdinaryKindsUnchanged(init);
    }
  }

  /** Exactly what routing keeps of a kind list. */
  lemma {:induction false} RoutedKindsMembers(kinds: seq<int>, k: int)
    ensures k in RoutedKinds(kinds) <==>
              || (k >= 0 && k in kinds && k !in REPOST_ORIGINALS)
              || (k == KIND_GENERIC_REPOST && HasRepost(kinds))
  {
    if kinds != [] {
      var init, last := kinds[..|kinds| - 1], kinds[|kinds| - 1];
      RoutedKindsMembers(init, k);
      assert kinds == init + [last];
      assert HasRepost(kinds) <==> HasRepost(init) || last in REPOST_ORIGINALS by {
        if HasRepost(init) {
          var i :| 0 <= i < |init| && init[i] in REPOST_ORIGINALS;
          assert kinds[i] in REPOST_ORIGINALS;
        }
      }
    }
  }

  method RouteKinds(kinds: seq<int>) returns (routed: seq<int>, sawNegative: bool)
    ensures routed == RoutedKinds(kinds)
    ensures sawNegative <==> HasNegative(kinds)
  {
    var special := HasSpecialKinds(kinds);
    if !special {
      OrdinaryKindsUnchanged(kinds);
      return kinds, false;
    }
    routed, sawNegative := [], false;
    var hadRepost := false;
    for i := 0 to |kinds|
      invariant routed == RoutedKinds(kinds[..i])
      invariant hadRepost <==> HasRepost(kinds[..i])
      invariant sawNegative <==> HasNegative(kinds[..i])
    {
      assert kinds[..i + 1][..i] == kinds[..i];
      assert kinds[..i + 1] == kinds[..i] + [kinds[i]];
      ghost var before := kinds[..i];
      assert HasRepost(kinds[..i + 1]) <==> HasRepost(before) || kinds[i] in REPOST_ORIGINALS by {
        if HasRepost(before) {
          var j :| 0 <= j < |before| && before[j] in REPOST_ORIGINALS;
          assert kinds[..i + 1][j] in REPOST_ORIGINALS;
        }
        if kinds[i] in REPOST_ORIGINALS {
          assert kinds[..i + 1][i] in REPOST_ORIGINALS;
        }
      }
      assert HasNegative(kinds[..i + 1]) <==> HasNegative(before) || kinds[i] < 0 by {
        if HasNegative(before) {
          var j :| 0 <= j < |before| && before[j] < 0;
          assert kinds[..i + 1][j] < 0;
        }
        if kinds[i] < 0 {
          assert kinds[..i + 1][i] < 0;
        }
      }
      var kind := kinds[i];
      if kind < 0 {
        sawNegative := true;
        continue;
      }
      if kind in REPOST_ORIGINALS {
        if hadRepost {
          continue;
        }
        hadRepost := true;
        kind := KIND_GENERIC_REPOST;
      }
      routed := routed + [kind];
    }
    assert kinds[..|kinds|] == kinds;
  }

  // ---- Keys of a filter list

  /** The keys of one filter: targets crossed with kinds while the product is small, targets under
      any kind otherwise. */
  predicate FilterHasKey(f: Filter, k: IndexKey) {
    var kinds, targets := RoutedKinds(Kinds(f)), TargetCount(f);
    || (HasNegative(Kinds(f)) && k == CATCH_ALL)
    || (&& (if targets == 0 then k.target == NO_TARGET else FilterHasTarget(f, k.target))
        && (if kinds == [] || (targets > 0 && |kinds| * targets > CARTESIAN_LIMIT)
            then k.kind == ANY_KIND
            else k.kind in kinds))
  }

  predicate FiltersHaveKey(filters: seq<Filter>, k: IndexKey) {
    if filters == [] then k == CATCH_ALL
    else exists i :: 0 <= i < |filters| && FilterHasKey(filters[i], k)
  }

  method AddProduct(kinds: seq<int>, targets: seq<Target>, keys: set<IndexKey>) returns (more: set<IndexKey>)
    ensures forall k :: k in more <==> k in keys || (k.kind in kinds && k.target in targets)
  {
    more := keys;
    for i := 0 to |kinds|
      invariant forall k :: k in more <==> k in keys || (k.kind in kinds[..i] && k.target in targets)
    {
      for j := 0 to |targets|
        invariant forall k :: k in more <==>
                                || k in keys
                                || (k.kind in kinds[..i] && k.target in targets)
                                || (k.kind == kinds[i] && k.target in targets[..j])
      {
        more := more + {IndexKey(kinds[i], targets[j])};
      }
    }
  }

  method AddFilterKeys(f: Filter, keys: set<IndexKey>) returns (more: set<IndexKey>)
    ensures forall k :: k in more <==> k in keys || FilterHasKey(f, k)
  {
    more := keys;
    var targets := CollectTargets(f);
    var kinds, sawNegative := RouteKinds(Kinds(f));
    if sawNegative {
      more := more + {CATCH_ALL};
    }
    var numKinds := if |kinds| > 1 then |kinds| else 1;
    var numTargets := if |targets| > 1 then |targets| else 1;
    assert kinds != [] && targets != [] ==> numKinds * numTargets == |kinds| * |targets|;
    if numKinds * numTargets <= CARTESIAN_LIMIT {
      if |kinds| == 0 && |targets| == 0 {
        more := more + {CATCH_ALL};
      } else if |targets| == 0 {
        more := AddProduct(kinds, [NO_TARGET], more);
      } else if |kinds| == 0 {
        more := AddProduct([ANY_KIND], targets, more);
      } else {
        more := AddProduct(kinds, targets, more);
      }
    } else if |targets| > 0 {
      more := AddProduct([ANY_KIND], targets, more);
    } else {
      more := AddProduct(kinds, [NO_TARGET], more);
    }
  }

  predicate Distinct<T(==)>(s: seq<T>) {
    forall i, j :: 0 <= i < j < |s| ==> s[i] != s[j]
  }

  method ParseFilters(filters: seq<Filter>) returns (keys: seq<IndexKey>)
    ensures Distinct(keys)
    ensures forall k :: k in keys <==> FiltersHaveKey(filters, k)
  {
    if |filters| == 0 {
      return [CATCH_ALL];
    }
    var unique: set<IndexKey> := {};
    for i := 0 to |filters|
      invariant forall k :: k in unique <==> exists j :: 0 <= j < i && FilterHasKey(filters[j], k)
    {
      unique := AddFilterKeys(filters[i], unique);
    }
    keys := [];
    var rest := unique;
    while rest != {}
      invariant rest <= unique
      invariant Distinct(keys)
      invariant forall k :: k in keys <==> k in unique - rest
    {
      var k :| k in rest;
      assert k !in keys;
      keys, rest := keys + [k], rest - {k};
    }
  }
}
