/** A community's name and description after the fold: the latest patch that carries one decides. */
module CommunityNames {
  import opened Optional
  import opened Nostr
  import opened Seqs
  import opened Community
  import opened LatestPatch
  import opened CommunityRoles
  import opened CommunityFlags
  import opened CommunityAccepted
  import T = TagTable

  predicate IsText(k: string) {
    k == "name" || k == "description"
  }

  function Texts(tags: seq<Tag>, k: string): seq<Tag> {
    Select(tags, HasKey(k))
  }

  predicate Carries(tags: seq<Tag>, k: string) {
    exists i :: 0 <= i < |tags| && Key(tags[i]) == k
  }

  function Carrying(k: string): Event -> bool {
    (e: Event) => Carries(e.tags, k)
  }

  /** The last tag of the key. */
  predicate IsLast(tags: seq<Tag>, k: string, n: int) {
    0 <= n < |tags| && Key(tags[n]) == k && forall m :: n < m < |tags| ==> Key(tags[m]) != k
  }

  function LastText(tags: seq<Tag>, k: string): Option<Tag> {
    if tags == [] then None
    else if Key(tags[|tags| - 1]) == k then Some(tags[|tags| - 1])
    else LastText(tags[..|tags| - 1], k)
  }

  lemma {:induction false} LastTextIs(tags: seq<Tag>, k: string) returns (n: int)
    ensures n < 0 ==> LastText(tags, k) == None && !Carries(tags, k)
    ensures n >= 0 ==> IsLast(tags, k, n) && LastText(tags, k) == Some(tags[n]) && Carries(tags, k)
  {
    if tags == [] {
      n := -1;
    } else if Key(tags[|tags| - 1]) == k {
      n := |tags| - 1;
    } else {
      var init := tags[..|tags| - 1];
      n := LastTextIs(init, k);
      assert forall m :: 0 <= m < |init| ==> init[m] == tags[m];
    }
  }

  // ---- One patch tag

  lemma TextsAre(tags: seq<Tag>, k: string)
    ensures forall t :: t in Texts(tags, k) <==> t in tags && Key(t) == k
    ensures Texts(tags, k) == [] <==> !Carries(tags, k)
  {
    SelectMembers(tags, HasKey(k));
    if i :| 0 <= i < |tags| && Key(tags[i]) == k {
      assert tags[i] in Texts(tags, k);
    }
    if Texts(tags, k) != [] {
      assert Texts(tags, k)[0] in Texts(tags, k);
    }
  }

  /** A patch's name takes the place of the only one. */
  lemma TextStep(tags: seq<Tag>, tag: Tag, k: string)
    requires IsText(k) && Key(tag) == k && NoLookalike(tags, {k}) && |Texts(tags, k)| <= 1
    ensures Texts(Switch(tags, k, tag), k) == [tag]
  {
    hide StartsWith, IsText;
    assert k != "" by {
      NotEmpty(k);
    }
    FoundIsGenuine(tags, {k}, k);
    var found := GetFirst(tags, [k]);
    var rest := if found.Some? then RemoveTag(tags, found.value) else tags;
    TextsAre(tags, k);
    if found.Some? {
      RemoveOneSelected(tags, found.value, HasKey(k));
      RemoveTagMembers(tags, found.value);
    } else {
      assert !Has(tags, k) && !Carries(tags, k);
    }
    assert Texts(rest, k) == [];
    TextsAre(rest, k);
    assert tag != [];
    NothingToBlock(tags, rest, tag, k);
    SelectSnoc(rest, tag, HasKey(k));
  }

  lemma NotEmpty(k: string)
    requires IsText(k)
    ensures k != "" && k in WORDS
  {
  }

  lemma NothingToBlock(tags: seq<Tag>, rest: seq<Tag>, tag: Tag, k: string)
    requires NoLookalike(tags, {k}) && (forall t :: t in rest ==> t in tags) && !Carries(rest, k) && Key(tag) == k && k != ""
    ensures AppendUnique(rest, tag) == rest + [tag]
  {
    var prefix := tag[..if |tag| < 2 then |tag| else 2];
    forall t | t in rest
      ensures !StartsWith(t, prefix)
    {
      var i :| 0 <= i < |rest| && rest[i] == t;
      var j :| 0 <= j < |tags| && tags[j] == t;
      StartOf(t, prefix, k);
      assert Key(tags[j]) == Key(rest[i]) != k;
    }
  }

  lemma StartOf(t: Tag, prefix: Tag, k: string)
    requires prefix != [] && prefix[0] == k
    ensures StartsWith(t, prefix) ==> k <= Key(t)
  {
    if |prefix| > 1 && StartsWith(t, prefix) {
      assert prefix[..|prefix| - 1][0] == t[..|prefix| - 1][0];
    }
  }

  lemma OtherElsewhere(tags: seq<Tag>, former: string, tag: Tag, k: string)
    requires IsText(k) && former in WORDS && former != k && Key(tag) != k
    ensures Texts(Switch(tags, former, tag), k) == Texts(tags, k)
  {
    NotEmpty(k);
    forall t | HasKey(k)(t)
      ensures !(former <= Key(t))
    {
      if former <= Key(t) {
        WordsArePrefixFree(former, Key(t));
      }
    }
    SwitchElsewhere(tags, former, tag, HasKey(k));
  }

  lemma OtherStep(tags: seq<Tag>, tag: Tag, k: string)
    requires IsText(k) && FourFields(tag) && Key(tag) != k
    ensures Texts(ApplyTag(tags, tag), k) == Texts(tags, k)
  {
    hide Switch, ApplyP, Select;
    var key := Key(tag);
    if key == "public" { OtherElsewhere(tags, "private", ["public"], k); }
    else if key == "private" { OtherElsewhere(tags, "public", ["private"], k); }
    else if key == "open" { OtherElsewhere(tags, "closed", ["open"], k); }
    else if key == "closed" { OtherElsewhere(tags, "open", ["closed"], k); }
    else if key == "name" { OtherElsewhere(tags, "name", tag, k); }
    else if key == "description" { OtherElsewhere(tags, "description", tag, k); }
    else if key == "p" { ApplyPElsewhere(tags, tag, HasKey(k)); }
    else { SelectSnoc(tags, tag, HasKey(k)); }
  }

  lemma GenuineStep(tags: seq<Tag>, tag: Tag, k: string)
    requires IsText(k) && FourFields(tag) && NoLookalike(tags, {k}) && NoLookalike([tag], {k})
    ensures NoLookalike(ApplyTag(tags, tag), {k})
  {
    hide ApplyTag;
    NotEmpty(k);
    OldOrNew(tags, tag);
    var after := ApplyTag(tags, tag);
    forall i | 0 <= i < |after|
      ensures NoLookalike([after[i]], {k})
    {
      assert after[i] in after;
      if after[i] in tags {
        NoLookalikeWithin(tags, [after[i]], {k});
      } else if after[i] != tag {
        WordsAreGenuine(after[i], {k});
      }
    }
    Separately(after, {k});
  }

  lemma OwnStep(tags: seq<Tag>, tag: Tag, k: string)
    requires IsText(k) && FourFields(tag) && Key(tag) == k
    ensures ApplyTag(tags, tag) == Switch(tags, k, tag)
  {
    hide Switch, ApplyP;
  }

  /** The last tag of all patches is the only one left. */
  lemma {:induction false} LastTextStays(definition: seq<Tag>, patch: seq<Tag>, k: string)
    requires IsText(k) && AllFourFields(patch)
    requires NoLookalike(definition, {k}) && NoLookalike(patch, {k}) && |Texts(definition, k)| <= 1
    ensures NoLookalike(ApplyTags(definition, patch), {k})
    ensures Texts(ApplyTags(definition, patch), k) ==
            match LastText(patch, k) case Some(t) => [t] case None => Texts(definition, k)
  {
    hide ApplyTag, Select, Switch, IsText;
    if patch != [] {
      var init, tag := patch[..|patch| - 1], patch[|patch| - 1];
      assert FourFields(tag) && AllFourFields(init) && NoLookalike(init, {k}) && NoLookalike([tag], {k});
      var before := ApplyTags(definition, init);
      LastTextStays(definition, init, k);
      GenuineStep(before, tag, k);
      if Key(tag) == k {
        OwnStep(before, tag, k);
        TextStep(before, tag, k);
      } else {
        OtherStep(before, tag, k);
      }
    }
  }

  // ---- The latest patch

  lemma {:induction false} LastTextConcat(a: seq<Tag>, b: seq<Tag>, k: string)
    ensures LastText(a + b, k) == if LastText(b, k).Some? then LastText(b, k) else LastText(a, k)
  {
    if b == [] {
      assert a + b == a;
    } else {
      LastTextConcat(a, b[..|b| - 1], k);
      assert (a + b)[..|a + b| - 1] == a + b[..|b| - 1];
    }
  }

  lemma {:induction false} LastTextOfAll(patches: seq<Event>, k: string)
    ensures LastText(AllTags(patches), k) ==
            match LastOf(patches, Carrying(k)) case Some(e) => LastText(e.tags, k) case None => None
  {
    hide Carries;
    if patches != [] {
      var init, e := patches[..|patches| - 1], patches[|patches| - 1];
      LastTextOfAll(init, k);
      LastTextConcat(AllTags(init), e.tags, k);
      var n := LastTextIs(e.tags, k);
    }
  }

  lemma GenuineOrder(patches: seq<Event>, k: string)
    requires Sound(patches) && forall i :: 0 <= i < |patches| ==> NoLookalike(patches[i].tags, {k})
    ensures AllFourFields(AllTags(TimeOrder(patches))) && NoLookalike(AllTags(TimeOrder(patches)), {k})
  {
    hide NoLookalike, TimeOrder, AllTags;
    SoundTimeOrder(patches);
    SoundTags(TimeOrder(patches));
    TimeOrderMembers(patches);
    var sorted := TimeOrder(patches);
    forall i | 0 <= i < |sorted|
      ensures NoLookalike(sorted[i].tags, {k})
    {
      assert sorted[i] in patches;
    }
    GenuineThroughout(sorted, {k});
  }

  lemma OneText(tags: seq<Tag>, k: string)
    requires k != ""
    ensures Texts(tags, k) != [] ==> GetTag(tags, k) == Texts(tags, k)[0]
    ensures Texts(tags, k) == [] ==> GetTag(tags, k) == []
  {
    GetTagIsFirst(tags, k);
  }

  lemma OnlyOneLast(tags: seq<Tag>, k: string, n: int)
    requires IsLast(tags, k, n)
    ensures Carries(tags, k) && LastText(tags, k) == Some(tags[n])
  {
    var m := LastTextIs(tags, k);
  }

  /** After the fold there is one name, and it is the last of the latest patch that carries any. */
  lemma NameIsLatest(definition: seq<Tag>, patches: seq<Event>, k: string, i: int, n: int)
    requires IsText(k) && Sound(patches) && |Texts(definition, k)| <= 1
    requires NoLookalike(definition, {k}) && forall j :: 0 <= j < |patches| ==> NoLookalike(patches[j].tags, {k})
    requires IsLatestOf(patches, Carrying(k), i) && IsLast(patches[i].tags, k, n)
    ensures Texts(Folded(definition, patches), k) == [patches[i].tags[n]]
    ensures GetTag(Folded(definition, patches), k) == patches[i].tags[n]
  {
    NotEmpty(k);
    hide IsText, ApplyTags, TimeOrder, AllTags, Select, NoLookalike, LastText, AllFourFields;
    GenuineOrder(patches, k);
    LastTextStays(definition, AllTags(TimeOrder(patches)), k);
    LastTextOfAll(TimeOrder(patches), k);
    LastOfIsLatest(patches, Carrying(k));
    OneLatestOf(patches, Carrying(k), i);
    OnlyOneLast(patches[i].tags, k, n);
    OneText(Folded(definition, patches), k);
  }

  /** And where no patch carries any, it is the definition's. */
  lemma NameIfUncarried(definition: seq<Tag>, patches: seq<Event>, k: string)
    requires IsText(k) && Sound(patches) && |Texts(definition, k)| <= 1
    requires NoLookalike(definition, {k}) && forall j :: 0 <= j < |patches| ==> NoLookalike(patches[j].tags, {k})
    requires forall j :: 0 <= j < |patches| ==> !Carries(patches[j].tags, k)
    ensures Texts(Folded(definition, patches), k) == Texts(definition, k)
    ensures GetTag(Folded(definition, patches), k) == GetTag(definition, k)
  {
    NotEmpty(k);
    hide IsText, ApplyTags, TimeOrder, AllTags, Select, NoLookalike, LastText, AllFourFields;
    GenuineOrder(patches, k);
    LastTextStays(definition, AllTags(TimeOrder(patches)), k);
    LastTextOfAll(TimeOrder(patches), k);
    LastOfIsLatest(patches, Carrying(k));
    OneText(Folded(definition, patches), k);
    OneText(definition, k);
  }

  // ---- The premise is needed

  ghost predicate Reads(definition: seq<Tag>, patch: seq<Tag>, k: string) {
    && AllFourFields(patch)
    && GetTag(ApplyTags(definition, patch), k) == match LastText(patch, k) case Some(t) => t case None => GetTag(definition, k)
  }

  /** Exactly when the last name in a patch is the one that is read, whatever is patched: when the definition carries at
      most one. */
  lemma NameExactly(definition: seq<Tag>, k: string)
    requires IsText(k) && NoLookalike(definition, {k})
    ensures |Texts(definition, k)| <= 1 <==>
              forall patch :: AllFourFields(patch) && NoLookalike(patch, {k}) ==> Reads(definition, patch, k)
  {
    NotEmpty(k);
    hide IsText, ApplyTags, Select, NoLookalike, LastText, AllFourFields;
    if |Texts(definition, k)| <= 1 {
      forall patch | AllFourFields(patch) && NoLookalike(patch, {k})
        ensures Reads(definition, patch, k)
      {
        LastTextStays(definition, patch, k);
        OneText(ApplyTags(definition, patch), k);
        OneText(definition, k);
      }
    } else {
      var patch := SecondNameIsRead(definition, k);
    }
  }

  lemma {:induction false} FirstRemoved(tags: seq<Tag>, k: string)
    requires Texts(tags, k) != []
    ensures Texts(RemoveTag(tags, Texts(tags, k)[0]), k) == Texts(tags, k)[1..]
  {
    if Key(tags[0]) == k {
      assert Texts(tags, k)[0] == tags[0];
    } else {
      FirstRemoved(tags[1..], k);
      var first := Texts(tags, k)[0];
      assert Texts(tags, k) == Texts(tags[1..], k);
      TextsAre(tags, k);
      assert first in Texts(tags, k) && !Same(tags[0], Key(first), Value(first));
      assert RemoveTag(tags, first) == [tags[0]] + RemoveTag(tags[1..], first);
      assert ([tags[0]] + RemoveTag(tags[1..], first))[1..] == RemoveTag(tags[1..], first);
    }
  }

  lemma {:induction false} FoundFirst(tags: seq<Tag>, k: string)
    requires NoLookalike(tags, {k}) && Texts(tags, k) != [] && k != ""
    ensures GetFirst(tags, [k]) == Some(Texts(tags, k)[0])
  {
    if Key(tags[0]) == k {
      assert StartsWith(tags[0], [k]);
    } else {
      StartOf(tags[0], [k], k);
      assert !StartsWith(tags[0], [k]);
      NoLookalikeWithin(tags, tags[1..], {k});
      FoundFirst(tags[1..], k);
    }
  }

  /** Of two names in a definition the patch pushes out the first, and the second is read. */
  lemma SecondNameIsRead(definition: seq<Tag>, k: string) returns (patch: seq<Tag>)
    requires IsText(k) && NoLookalike(definition, {k}) && |Texts(definition, k)| >= 2
    ensures AllFourFields(patch) && NoLookalike(patch, {k}) && !Reads(definition, patch, k)
  {
    NotEmpty(k);
    var names := Texts(definition, k);
    var tag := [k, Value(names[1]) + "x"];
    patch := [tag];
    FirstRemoved(definition, k);
    FoundFirst(definition, k);
    hide StartsWith, Select;
    assert k != "p" && k != "h";
    OwnStep(definition, tag, k);
    assert patch[..0] == [] && ApplyTags(definition, patch) == ApplyTag(definition, tag);
    assert LastText(patch, k) == Some(tag);
    var rest := RemoveTag(definition, names[0]);
    assert Texts(rest, k)[0] == names[1];
    SelectSnoc(rest, tag, HasKey(k));
    OneText(ApplyTags(definition, patch), k);
  }

  // ---- Accepted events

  lemma TextIsGenuine(k: string, w: string)
    requires IsListed(k) && IsText(w) && w <= k
    ensures k == w
  {
    assert k[0] == w[0] && k[1] == w[1] && k[2] == w[2] && |k| >= |w|;
  }

  lemma AcceptedTexts(rules: map<int, T.Table>, checks: Tag -> bool, e: Event, kind: int, k: string)
    requires DeclaresCommunity(rules) && Accepted(rules, checks, e, kind) && IsText(k)
    ensures NoLookalike(e.tags, {k})
  {
    ListedKeys(rules, checks, e, kind);
    hide Accepted, IsListed, DeclaresCommunity, Key;
    forall i | 0 <= i < |e.tags| && k <= Key(e.tags[i])
      ensures Key(e.tags[i]) == k
    {
      TextIsGenuine(Key(e.tags[i]), k);
    }
  }

  /** For an accepted definition with at most one name and any accepted patches: the community can be renamed. */
  lemma AcceptedNameIsLatest(rules: map<int, T.Table>, checks: Tag -> bool, definition: Event, patches: seq<Event>,
                             k: string, i: int, n: int)
    requires DeclaresCommunity(rules) && IsText(k)
    requires Accepted(rules, checks, definition, KIND_DEFINITION) && AllAccepted(rules, checks, patches)
    requires |Texts(definition.tags, k)| <= 1
    requires IsLatestOf(patches, Carrying(k), i) && IsLast(patches[i].tags, k, n)
    ensures Sound(patches) && GetTag(Folded(definition.tags, patches), k) == patches[i].tags[n]
  {
    AcceptedIsSound(rules, checks, patches);
    AcceptedTexts(rules, checks, definition, KIND_DEFINITION, k);
    hide Accepted, DeclaresCommunity, Folded, NoLookalike, IsLatestOf, IsLast, IsText;
    forall j | 0 <= j < |patches|
      ensures NoLookalike(patches[j].tags, {k})
    {
      AcceptedTexts(rules, checks, patches[j], KIND_CHANGE, k);
    }
    NameIsLatest(definition.tags, patches, k, i, n);
  }

  // ---- The community itself

  lemma SwitchKeepsH(tags: seq<Tag>, former: string, tag: Tag)
    requires former in WORDS && Key(tag) != "h"
    ensures Texts(Switch(tags, former, tag), "h") == Texts(tags, "h")
  {
    forall t | HasKey("h")(t)
      ensures !(former <= Key(t))
    {
      assert |former| > 1;
    }
    SwitchElsewhere(tags, former, tag, HasKey("h"));
  }

  lemma StepKeepsH(tags: seq<Tag>, tag: Tag)
    requires FourFields(tag)
    ensures Texts(ApplyTag(tags, tag), "h") == Texts(tags, "h")
  {
    hide Switch, ApplyP, Select;
    var key := Key(tag);
    if key == "public" { SwitchKeepsH(tags, "private", ["public"]); }
    else if key == "private" { SwitchKeepsH(tags, "public", ["private"]); }
    else if key == "open" { SwitchKeepsH(tags, "closed", ["open"]); }
    else if key == "closed" { SwitchKeepsH(tags, "open", ["closed"]); }
    else if key == "name" { SwitchKeepsH(tags, "name", tag); }
    else if key == "description" { SwitchKeepsH(tags, "description", tag); }
    else if key == "p" { ApplyPElsewhere(tags, tag, HasKey("h")); }
    else if key != "h" { SelectSnoc(tags, tag, HasKey("h")); }
  }

  lemma {:induction false} PatchKeepsH(definition: seq<Tag>, patch: seq<Tag>)
    requires AllFourFields(patch)
    ensures Texts(ApplyTags(definition, patch), "h") == Texts(definition, "h")
  {
    hide ApplyTag, Select;
    if patch != [] {
      PatchKeepsH(definition, patch[..|patch| - 1]);
      StepKeepsH(ApplyTags(definition, patch[..|patch| - 1]), patch[|patch| - 1]);
    }
  }

  /** Patches name the community in an `h` tag; none of them changes which community the definition is of. */
  lemma CommunityStays(definition: seq<Tag>, patches: seq<Event>)
    requires Sound(patches)
    ensures Select(Folded(definition, patches), HasKey("h")) == Select(definition, HasKey("h"))
    ensures GetTag(Folded(definition, patches), "h") == GetTag(definition, "h")
  {
    hide ApplyTags, TimeOrder, AllTags, Select, AllFourFields;
    SoundTimeOrder(patches);
    SoundTags(TimeOrder(patches));
    PatchKeepsH(definition, AllTags(TimeOrder(patches)));
    OneText(Folded(definition, patches), "h");
    OneText(definition, "h");
  }
}
