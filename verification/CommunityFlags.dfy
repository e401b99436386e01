/** The access flags of a folded community definition: public against private, open against closed. */
module CommunityFlags {
  import opened Optional
  import opened Nostr
  import opened Seqs
  import opened Community
  import opened CommunityRoles

  /** The two exclusive pairs of flags. */
  predicate IsPair(a: string, b: string) {
    (a, b) in {("public", "private"), ("private", "public"), ("open", "closed"), ("closed", "open")}
  }

  function InSet(s: set<string>): Tag -> bool {
    (t: Tag) => Key(t) in s
  }

  function Flags(tags: seq<Tag>, s: set<string>): seq<Tag> {
    Select(tags, InSet(s))
  }

  /** No key properly extends a flag's name, which the library's prefix search would take for it. */
  predicate NoLookalike(tags: seq<Tag>, s: set<string>) {
    forall i, w :: 0 <= i < |tags| && w in s && w <= Key(tags[i]) ==> Key(tags[i]) == w
  }

  predicate Has(tags: seq<Tag>, k: string) {
    exists i :: 0 <= i < |tags| && Key(tags[i]) == k
  }

  lemma {:induction false} RemoveOneSelected(tags: seq<Tag>, tag: Tag, p: Tag -> bool)
    requires tag in tags && forall t :: Same(t, Key(tag), Value(tag)) ==> p(t)
    ensures |Select(RemoveTag(tags, tag), p)| == |Select(tags, p)| - 1
  {
    if !Same(tags[0], Key(tag), Value(tag)) {
      RemoveOneSelected(tags[1..], tag, p);
      assert ([tags[0]] + RemoveTag(tags[1..], tag))[1..] == RemoveTag(tags[1..], tag);
    }
  }

  /** Among genuine names the prefix search finds a tag of exactly that key. */
  lemma FoundIsGenuine(tags: seq<Tag>, s: set<string>, w: string)
    requires NoLookalike(tags, s) && w in s && w != ""
    ensures var found := GetFirst(tags, [w]);
            (found.Some? <==> Has(tags, w)) && (found.Some? ==> Key(found.value) == w && found.value in tags)
  {
    var found := GetFirst(tags, [w]);
    FoundHasPrefix(tags, w);
    if found.Some? {
      var i :| 0 <= i < |tags| && tags[i] == found.value;
    }
    if i :| 0 <= i < |tags| && Key(tags[i]) == w {
      assert tags[i] in tags && StartsWith(tags[i], [w]);
    }
  }

  lemma FlagsShow(tags: seq<Tag>, s: set<string>, k: string)
    requires k in s
    ensures Has(tags, k) <==> exists i :: 0 <= i < |Flags(tags, s)| && Key(Flags(tags, s)[i]) == k
  {
    SelectMembers(tags, InSet(s));
    if i :| 0 <= i < |tags| && Key(tags[i]) == k {
      assert tags[i] in Flags(tags, s);
    }
    if i :| 0 <= i < |Flags(tags, s)| && Key(Flags(tags, s)[i]) == k {
      assert Flags(tags, s)[i] in tags;
    }
  }

  lemma NoLookalikeWithin(tags: seq<Tag>, fewer: seq<Tag>, s: set<string>)
    requires NoLookalike(tags, s) && forall t :: t in fewer ==> t in tags
    ensures NoLookalike(fewer, s)
  {
    forall i, w | 0 <= i < |fewer| && w in s && w <= Key(fewer[i])
      ensures Key(fewer[i]) == w
    {
      assert fewer[i] in fewer;
      var j :| 0 <= j < |tags| && tags[j] == fewer[i];
    }
  }

  /** What setting a flag does: one tag of the other flag goes, and the flag itself is there. */
  lemma SwitchFlag(tags: seq<Tag>, a: string, b: string)
    requires a != "" && b != "" && a != b && NoLookalike(tags, {a, b})
    ensures var before, after := Flags(tags, {a, b}), Flags(Switch(tags, b, [a]), {a, b});
            && |after| == |before| - (if Has(tags, b) then 1 else 0) + (if Has(tags, a) then 0 else 1)
            && Has(Switch(tags, b, [a]), a)
  {
    hide StartsWith;
    var s := {a, b};
    FoundIsGenuine(tags, s, b);
    var found := GetFirst(tags, [b]);
    var rest := if found.Some? then RemoveTag(tags, found.value) else tags;
    if found.Some? {
      RemoveOneSelected(tags, found.value, InSet(s));
      RemoveTagMembers(tags, found.value);
      NoLookalikeWithin(tags, rest, s);
      KeysRemain(tags, found.value, a);
    }
    assert Has(rest, a) <==> Has(tags, a);
    FoundIsGenuine(rest, s, a);
    assert [a][..1] == [a];
    SelectSnoc(rest, [a], InSet(s));
    if !Has(rest, a) {
      assert Key((rest + [[a]])[|rest|]) == a;
    }
  }

  lemma KeysRemain(tags: seq<Tag>, tag: Tag, k: string)
    requires Key(tag) != k
    ensures Has(RemoveTag(tags, tag), k) <==> Has(tags, k)
  {
    RemoveElsewhere(tags, tag, HasKey(k));
    HasIsSelected(tags, k);
    HasIsSelected(RemoveTag(tags, tag), k);
  }

  lemma HasIsSelected(tags: seq<Tag>, k: string)
    ensures Has(tags, k) <==> Select(tags, HasKey(k)) != []
  {
    SelectMembers(tags, HasKey(k));
    if i :| 0 <= i < |tags| && Key(tags[i]) == k {
      assert tags[i] in Select(tags, HasKey(k));
    }
    if Select(tags, HasKey(k)) != [] {
      assert Select(tags, HasKey(k))[0] in tags;
    }
  }

  lemma WordsArePrefixFree(v: string, w: string)
    requires v in WORDS && w in WORDS && v <= w
    ensures v == w
  {
    assert forall i :: 0 <= i < |v| ==> v[i] == w[i];
    assert |v| > 1 && v[0] == w[0] && v[1] == w[1];
  }

  lemma PairWords(a: string, b: string)
    requires IsPair(a, b)
    ensures a in WORDS && b in WORDS && a != b && a != "" && b != "" && "p" !in {a, b} && "h" !in {a, b}
  {
  }

  /** A pair holds both of two opposite flags or neither, and nothing else. */
  lemma PairIsWhole(a: string, b: string)
    requires IsPair(a, b)
    ensures "public" in {a, b} <==> "private" in {a, b}
    ensures "open" in {a, b} <==> "closed" in {a, b}
    ensures "name" !in {a, b} && "description" !in {a, b}
  {
  }

  lemma SwitchOther(tags: seq<Tag>, former: string, tag: Tag, s: set<string>)
    requires s <= WORDS && former in WORDS && former !in s && Key(tag) !in s
    ensures Flags(Switch(tags, former, tag), s) == Flags(tags, s)
  {
    forall t | InSet(s)(t)
      ensures !(former <= Key(t))
    {
      if former <= Key(t) {
        WordsArePrefixFree(former, Key(t));
      }
    }
    SwitchElsewhere(tags, former, tag, InSet(s));
  }

  /** A patch tag outside the pair leaves the pair's flags alone. */
  lemma OtherTagStep(tags: seq<Tag>, tag: Tag, a: string, b: string)
    requires IsPair(a, b) && FourFields(tag) && Key(tag) !in {a, b}
    ensures Flags(ApplyTag(tags, tag), {a, b}) == Flags(tags, {a, b})
  {
    hide Switch, ApplyP, Select, IsPair;
    PairWords(a, b);
    PairIsWhole(a, b);
    var s, key := {a, b}, Key(tag);
    if key == "public" { SwitchOther(tags, "private", ["public"], s); }
    else if key == "private" { SwitchOther(tags, "public", ["private"], s); }
    else if key == "open" { SwitchOther(tags, "closed", ["open"], s); }
    else if key == "closed" { SwitchOther(tags, "open", ["closed"], s); }
    else if key == "name" { SwitchOther(tags, "name", tag, s); }
    else if key == "description" { SwitchOther(tags, "description", tag, s); }
    else if key == "p" { ApplyPElsewhere(tags, tag, InSet(s)); }
    else { SelectSnoc(tags, tag, InSet(s)); }
  }

  lemma StepKeepsGenuine(tags: seq<Tag>, tag: Tag, a: string, b: string)
    requires IsPair(a, b) && FourFields(tag) && NoLookalike(tags, {a, b}) && NoLookalike([tag], {a, b})
    ensures NoLookalike(ApplyTag(tags, tag), {a, b})
  {
    hide ApplyTag;
    OldOrNew(tags, tag);
    PairWords(a, b);
    var after := ApplyTag(tags, tag);
    forall i | 0 <= i < |after|
      ensures NoLookalike([after[i]], {a, b})
    {
      assert after[i] in after;
      if after[i] in tags {
        NoLookalikeWithin(tags, [after[i]], {a, b});
      } else if after[i] != tag {
        WordsAreGenuine(after[i], {a, b});
      }
    }
    Separately(after, {a, b});
  }

  lemma WordsAreGenuine(tag: Tag, s: set<string>)
    requires tag in {["public"], ["private"], ["open"], ["closed"]} && s <= WORDS
    ensures NoLookalike([tag], s)
  {
    forall w | w in s && w <= Key(tag)
      ensures Key(tag) == w
    {
      WordsArePrefixFree(w, Key(tag));
    }
  }

  lemma Separately(tags: seq<Tag>, s: set<string>)
    requires forall i :: 0 <= i < |tags| ==> NoLookalike([tags[i]], s)
    ensures NoLookalike(tags, s)
  {
    forall i, w | 0 <= i < |tags| && w in s && w <= Key(tags[i])
      ensures Key(tags[i]) == w
    {
      assert NoLookalike([tags[i]], s) && [tags[i]][0] == tags[i];
    }
  }

  /** The flag a patch tag of the pair sets is there afterwards, alone if there was at most one. */
  lemma OwnTagStep(tags: seq<Tag>, tag: Tag, a: string, b: string)
    requires IsPair(a, b) && FourFields(tag) && NoLookalike(tags, {a, b}) && Key(tag) == a
    ensures Has(ApplyTag(tags, tag), a)
    ensures |Flags(ApplyTag(tags, tag), {a, b})| ==
            |Flags(tags, {a, b})| - (if Has(tags, b) then 1 else 0) + (if Has(tags, a) then 0 else 1)
  {
    hide Switch, ApplyP;
    PairWords(a, b);
    SwitchFlag(tags, a, b);
    assert ApplyTag(tags, tag) == Switch(tags, b, [a]);
  }

  lemma AtMostOne(tags: seq<Tag>, a: string, b: string)
    requires |Flags(tags, {a, b})| <= 1
    ensures !(Has(tags, a) && Has(tags, b)) || a == b
    ensures Flags(tags, {a, b}) == [] <==> !Has(tags, a) && !Has(tags, b)
  {
    FlagsShow(tags, {a, b}, a);
    FlagsShow(tags, {a, b}, b);
    SelectMembers(tags, InSet({a, b}));
    var f := Flags(tags, {a, b});
    if f != [] {
      assert f[0] in f;
    }
  }

  /** The last patch tag of the pair. */
  function LastFlag(patch: seq<Tag>, s: set<string>): (k: Option<string>)
    ensures k.Some? ==> k.value in s
  {
    if patch == [] then None
    else if Key(patch[|patch| - 1]) in s then Some(Key(patch[|patch| - 1]))
    else LastFlag(patch[..|patch| - 1], s)
  }

  /** One flag of a pair survives the fold, and it is the last one set: from a definition with at most one
      tag of the pair, and genuine names throughout. */
  lemma {:induction false} LastFlagWins(definition: seq<Tag>, patch: seq<Tag>, a: string, b: string)
    requires IsPair(a, b) && AllFourFields(patch)
    requires NoLookalike(definition, {a, b}) && NoLookalike(patch, {a, b}) && |Flags(definition, {a, b})| <= 1
    ensures var after := ApplyTags(definition, patch);
            && NoLookalike(after, {a, b})
            && |Flags(after, {a, b})| <= 1
            && (forall k :: k in {a, b} ==>
                  (Has(after, k) <==> match LastFlag(patch, {a, b})
                                      case Some(w) => w == k
                                      case None => Has(definition, k)))
  {
    hide ApplyTag;
    if patch != [] {
      var init, tag := patch[..|patch| - 1], patch[|patch| - 1];
      assert FourFields(tag) && AllFourFields(init) && NoLookalike(init, {a, b}) && NoLookalike([tag], {a, b});
      var before := ApplyTags(definition, init);
      LastFlagWins(definition, init, a, b);
      StepKeepsGenuine(before, tag, a, b);
      FlagStep(before, tag, a, b);
    }
  }

  lemma FlagStep(tags: seq<Tag>, tag: Tag, a: string, b: string)
    requires IsPair(a, b) && FourFields(tag) && NoLookalike(tags, {a, b}) && |Flags(tags, {a, b})| <= 1
    ensures var after := ApplyTag(tags, tag);
            && |Flags(after, {a, b})| <= 1
            && (forall k :: k in {a, b} ==>
                  (Has(after, k) <==> if Key(tag) in {a, b} then Key(tag) == k else Has(tags, k)))
  {
    hide ApplyTag, Flags, IsPair;
    var after := ApplyTag(tags, tag);
    PairWords(a, b);
    AtMostOne(tags, a, b);
    if Key(tag) == a {
      OwnTagStep(tags, tag, a, b);
      AtMostOne(after, a, b);
    } else if Key(tag) == b {
      PairSwaps(a, b);
      assert {b, a} == {a, b};
      OwnTagStep(tags, tag, b, a);
      AtMostOne(after, a, b);
    } else {
      OtherTagStep(tags, tag, a, b);
      FlagsShow(tags, {a, b}, a);
      FlagsShow(tags, {a, b}, b);
      FlagsShow(after, {a, b}, a);
      FlagsShow(after, {a, b}, b);
    }
  }

  lemma PairSwaps(a: string, b: string)
    requires IsPair(a, b)
    ensures IsPair(b, a)
  {
  }

  /** A definition that carries two tags of a pair can be patched into showing both flags. */
  lemma CrowdedPairBreaks(definition: seq<Tag>, a: string, b: string) returns (patch: seq<Tag>)
    requires IsPair(a, b) && NoLookalike(definition, {a, b}) && |Flags(definition, {a, b})| >= 2
    ensures AllFourFields(patch) && NoLookalike(patch, {a, b})
    ensures Has(ApplyTags(definition, patch), a) && Has(ApplyTags(definition, patch), b)
  {
    hide ApplyTag, IsPair;
    PairWords(a, b);
    PairSwaps(a, b);
    FlagsShow(definition, {a, b}, a);
    FlagsShow(definition, {a, b}, b);
    SelectMembers(definition, InSet({a, b}));
    var f := Flags(definition, {a, b});
    assert f[0] in f;
    if Has(definition, a) && Has(definition, b) {
      patch := [];
    } else if Has(definition, a) {
      patch := [[b]];
      BreakWith(definition, a, b);
    } else {
      patch := [[a]];
      assert {a, b} == {b, a};
      BreakWith(definition, b, a);
    }
  }

  lemma BreakWith(definition: seq<Tag>, a: string, b: string)
    requires IsPair(a, b) && NoLookalike(definition, {a, b}) && |Flags(definition, {a, b})| >= 2
    requires Has(definition, a) && !Has(definition, b)
    ensures AllFourFields([[b]]) && NoLookalike([[b]], {a, b})
    ensures Has(ApplyTags(definition, [[b]]), a) && Has(ApplyTags(definition, [[b]]), b)
  {
    hide ApplyTag, IsPair;
    PairWords(a, b);
    PairSwaps(a, b);
    assert {a, b} == {b, a};
    assert [[b]][..0] == [] && ApplyTags(definition, [[b]]) == ApplyTag(definition, [b]);
    OwnTagStep(definition, [b], b, a);
    OneLess(definition, a, b);
    if b <= a || a <= b {
      if a <= b { WordsArePrefixFree(a, b); } else { WordsArePrefixFree(b, a); }
    }
  }

  lemma OwnTagSwitches(tags: seq<Tag>, tag: Tag, a: string, b: string)
    requires IsPair(a, b) && Key(tag) == a
    ensures FourFields(tag) && ApplyTag(tags, tag) == Switch(tags, b, [a])
  {
    hide Switch, ApplyP;
  }

  lemma OneLess(definition: seq<Tag>, a: string, b: string)
    requires IsPair(a, b) && NoLookalike(definition, {a, b}) && |Flags(definition, {a, b})| >= 2
    requires Has(definition, a) && !Has(definition, b)
    ensures FourFields([b]) && Has(ApplyTag(definition, [b]), a)
  {
    hide ApplyTag, IsPair, Flags, NoLookalike, GetFirst, FourFields;
    PairWords(a, b);
    PairSwaps(a, b);
    OwnTagSwitches(definition, [b], b, a);
    FoundIsGenuine(definition, {a, b}, a);
    var found := GetFirst(definition, [a]).value;
    OneRemains(definition, found, a, b);
    var rest := RemoveTag(definition, found);
    var i :| 0 <= i < |rest| && Key(rest[i]) == a;
    assert Key(Switch(definition, a, [b])[i]) == a;
  }

  lemma OneRemains(definition: seq<Tag>, found: Tag, a: string, b: string)
    requires found in definition && Key(found) == a && |Flags(definition, {a, b})| >= 2 && !Has(definition, b)
    ensures Has(RemoveTag(definition, found), a)
  {
    hide Has, Select;
    var rest := RemoveTag(definition, found);
    RemoveOneSelected(definition, found, InSet({a, b}));
    RemoveTagMembers(definition, found);
    SelectMembers(rest, InSet({a, b}));
    var x := Flags(rest, {a, b})[0];
    assert x in Flags(rest, {a, b}) && x in rest && x in definition;
    HasMember(definition, x);
    HasMember(rest, x);
  }

  lemma HasMember(tags: seq<Tag>, tag: Tag)
    requires tag in tags
    ensures Has(tags, Key(tag))
  {
  }

  /** Exactly when a pair stays exclusive whatever is patched: when the definition carries at most one tag
      of it. */
  lemma PairExactly(definition: seq<Tag>, a: string, b: string)
    requires IsPair(a, b) && NoLookalike(definition, {a, b})
    ensures |Flags(definition, {a, b})| <= 1 <==>
              forall patch :: AllFourFields(patch) && NoLookalike(patch, {a, b}) ==>
                !(Has(ApplyTags(definition, patch), a) && Has(ApplyTags(definition, patch), b))
  {
    hide ApplyTags, IsPair, Flags;
    PairWords(a, b);
    if |Flags(definition, {a, b})| <= 1 {
      forall patch | AllFourFields(patch) && NoLookalike(patch, {a, b})
        ensures !(Has(ApplyTags(definition, patch), a) && Has(ApplyTags(definition, patch), b))
      {
        LastFlagWins(definition, patch, a, b);
        AtMostOne(ApplyTags(definition, patch), a, b);
      }
    } else {
      var patch := CrowdedPairBreaks(definition, a, b);
    }
  }
}
