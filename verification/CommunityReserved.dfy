/** What only admins and the owner may change of a community stays as it is, whatever its moderators patch. */
module CommunityReserved {
  import opened Optional
  import opened Nostr
  import opened Seqs
  import opened Community
  import opened CommunityRoles
  import opened CommunityFlags
  import opened CommunityAccepted
  import opened CommunityModerators
  import opened CommunityNames
  import T = TagTable

  /** The tags of names, descriptions, flags, pictures and settings. */
  function IsGuarded(): Tag -> bool {
    (t: Tag) => Key(t) in {"name", "description", "public", "private", "open", "closed", "imeta", "settings"}
  }

  // ---- The fold works on the guarded tags as if there were no others

  lemma {:induction false} FirstOfSelected(tags: seq<Tag>, prefix: Tag, p: Tag -> bool)
    requires forall t :: t in tags && StartsWith(t, prefix) ==> p(t)
    ensures GetFirst(Select(tags, p), prefix) == GetFirst(tags, prefix)
  {
    if tags != [] {
      var rest := Select(tags[1..], p);
      FirstOfSelected(tags[1..], prefix, p);
      assert p(tags[0]) ==> ([tags[0]] + rest)[1..] == rest;
      assert [] + rest == rest;
    }
  }

  lemma {:induction false} RemovedFromSelected(tags: seq<Tag>, tag: Tag, p: Tag -> bool)
    requires forall t :: Same(t, Key(tag), Value(tag)) ==> p(t)
    ensures Select(RemoveTag(tags, tag), p) == RemoveTag(Select(tags, p), tag)
  {
    if tags != [] {
      var rest := Select(tags[1..], p);
      RemovedFromSelected(tags[1..], tag, p);
      assert p(tags[0]) ==> ([tags[0]] + rest)[1..] == rest;
      assert [] + rest == rest;
      if !Same(tags[0], Key(tag), Value(tag)) {
        assert ([tags[0]] + RemoveTag(tags[1..], tag))[1..] == RemoveTag(tags[1..], tag);
      }
    }
  }

  /** Under genuine names only guarded tags start like one of the words. */
  lemma LikeAWord(tags: seq<Tag>, t: Tag, prefix: Tag)
    requires NoLookalike(tags, WORDS) && t in tags && prefix != [] && prefix[0] in WORDS && StartsWith(t, prefix)
    ensures IsGuarded()(t)
  {
    StartOf(t, prefix, prefix[0]);
    var i :| 0 <= i < |tags| && tags[i] == t;
    assert Key(tags[i]) == prefix[0];
  }

  lemma WordsFirst(tags: seq<Tag>, prefix: Tag)
    requires NoLookalike(tags, WORDS) && prefix != [] && prefix[0] in WORDS
    ensures GetFirst(Select(tags, IsGuarded()), prefix) == GetFirst(tags, prefix)
  {
    forall t | t in tags && StartsWith(t, prefix)
      ensures IsGuarded()(t)
    {
      LikeAWord(tags, t, prefix);
    }
    FirstOfSelected(tags, prefix, IsGuarded());
  }

  lemma AppendGuarded(tags: seq<Tag>, tag: Tag)
    requires NoLookalike(tags, WORDS) && Key(tag) in WORDS
    ensures Select(AppendUnique(tags, tag), IsGuarded()) == AppendUnique(Select(tags, IsGuarded()), tag)
  {
    hide StartsWith, NoLookalike, Select, GetFirst;
    assert tag != [];
    WordsFirst(tags, tag[..if |tag| < 2 then |tag| else 2]);
    SelectSnoc(tags, tag, IsGuarded());
  }

  lemma RemoveGuarded(tags: seq<Tag>, found: Tag)
    requires NoLookalike(tags, WORDS) && IsGuarded()(found)
    ensures Select(RemoveTag(tags, found), IsGuarded()) == RemoveTag(Select(tags, IsGuarded()), found)
    ensures NoLookalike(RemoveTag(tags, found), WORDS)
  {
    hide NoLookalike, RemoveTag, Select;
    RemovedFromSelected(tags, found, IsGuarded());
    RemoveSubset(tags, found);
    NoLookalikeWithin(tags, RemoveTag(tags, found), WORDS);
  }

  lemma SwitchGuarded(tags: seq<Tag>, former: string, tag: Tag)
    requires NoLookalike(tags, WORDS) && former in WORDS && Key(tag) in WORDS
    ensures Select(Switch(tags, former, tag), IsGuarded()) == Switch(Select(tags, IsGuarded()), former, tag)
  {
    WordsFirst(tags, [former]);
    var found := GetFirst(tags, [former]);
    if found.Some? {
      LikeAWord(tags, found.value, [former]);
    }
    hide StartsWith, NoLookalike, RemoveTag, Select, GetFirst, AppendUnique, IsGuarded, Key;
    if found.Some? {
      RemoveGuarded(tags, found.value);
    }
    AppendGuarded(if found.Some? then RemoveTag(tags, found.value) else tags, tag);
  }

  lemma {:induction false} RemoveSubset(tags: seq<Tag>, tag: Tag)
    ensures forall t :: t in RemoveTag(tags, tag) ==> t in tags
  {
    if tags != [] {
      RemoveSubset(tags[1..], tag);
    }
  }

  lemma GuardedStep(tags: seq<Tag>, tag: Tag)
    requires NoLookalike(tags, WORDS) && FourFields(tag)
    ensures Select(ApplyTag(tags, tag), IsGuarded()) ==
            if IsGuarded()(tag) then ApplyTag(Select(tags, IsGuarded()), tag) else Select(tags, IsGuarded())
  {
    hide Switch, ApplyP, Select, NoLookalike;
    var key := Key(tag);
    if key == "public" { SwitchGuarded(tags, "private", ["public"]); }
    else if key == "private" { SwitchGuarded(tags, "public", ["private"]); }
    else if key == "open" { SwitchGuarded(tags, "closed", ["open"]); }
    else if key == "closed" { SwitchGuarded(tags, "open", ["closed"]); }
    else if key == "name" { SwitchGuarded(tags, "name", tag); }
    else if key == "description" { SwitchGuarded(tags, "description", tag); }
    else if key == "p" { ApplyPElsewhere(tags, tag, IsGuarded()); }
    else if key != "h" { SelectSnoc(tags, tag, IsGuarded()); }
  }

  lemma StaysGenuine(tags: seq<Tag>, tag: Tag)
    requires FourFields(tag) && NoLookalike(tags, WORDS) && NoLookalike([tag], WORDS)
    ensures NoLookalike(ApplyTag(tags, tag), WORDS)
  {
    hide ApplyTag, NoLookalike;
    OldOrNew(tags, tag);
    var after := ApplyTag(tags, tag);
    forall i | 0 <= i < |after|
      ensures NoLookalike([after[i]], WORDS)
    {
      assert after[i] in after;
      if after[i] in tags {
        NoLookalikeWithin(tags, [after[i]], WORDS);
      } else if after[i] != tag {
        WordsAreGenuine(after[i], WORDS);
      }
    }
    Separately(after, WORDS);
  }

  lemma {:induction false} GuardedFold(definition: seq<Tag>, patch: seq<Tag>)
    requires NoLookalike(definition, WORDS) && NoLookalike(patch, WORDS) && AllFourFields(patch)
    ensures NoLookalike(ApplyTags(definition, patch), WORDS)
    ensures AllFourFields(Select(patch, IsGuarded()))
    ensures Select(ApplyTags(definition, patch), IsGuarded()) ==
            ApplyTags(Select(definition, IsGuarded()), Select(patch, IsGuarded()))
  {
    hide ApplyTag, Select, NoLookalike, FourFields, IsGuarded;
    if patch == [] {
      NothingSelected();
    } else {
      var init, last := patch[..|patch| - 1], patch[|patch| - 1];
      assert patch == init + [last];
      NoLookalikeWithin(patch, init, WORDS);
      NoLookalikeWithin(patch, [last], WORDS);
      GuardedFold(definition, init);
      GuardedStep(ApplyTags(definition, init), last);
      StaysGenuine(ApplyTags(definition, init), last);
      SelectSnoc(init, last, IsGuarded());
      OneMoreGuarded(Select(definition, IsGuarded()), Select(init, IsGuarded()), last);
    }
  }

  lemma NothingSelected()
    ensures Select([], IsGuarded()) == []
  {
  }

  lemma OneMoreGuarded(definition: seq<Tag>, kept: seq<Tag>, tag: Tag)
    requires AllFourFields(kept) && FourFields(tag)
    ensures AllFourFields(kept + [tag]) && ApplyTags(definition, kept + [tag]) == ApplyTag(ApplyTags(definition, kept), tag)
  {
    hide ApplyTag, FourFields;
    assert (kept + [tag])[..|kept|] == kept;
  }

  // ---- An event without guarded tags, wherever the time order puts it

  lemma {:induction false} InsertUnguarded(sorted: seq<Event>, e: Event)
    requires Select(e.tags, IsGuarded()) == []
    ensures Select(AllTags(Insert(sorted, e)), IsGuarded()) == Select(AllTags(sorted), IsGuarded())
  {
    hide Select;
    if sorted == [] || sorted[|sorted| - 1].createdAt <= e.createdAt {
      assert (sorted + [e])[..|sorted|] == sorted;
      SelectConcat(AllTags(sorted), e.tags, IsGuarded());
    } else {
      var init, last := sorted[..|sorted| - 1], sorted[|sorted| - 1];
      InsertUnguarded(init, e);
      assert (Insert(init, e) + [last])[..|Insert(init, e)|] == Insert(init, e);
      SelectConcat(AllTags(Insert(init, e)), last.tags, IsGuarded());
      SelectConcat(AllTags(init), last.tags, IsGuarded());
    }
  }

  lemma UnguardedPatch(definition: seq<Tag>, patches: seq<Event>, patch: Event)
    requires Sound(patches) && Sound(patches + [patch])
    requires NoLookalike(definition, WORDS) && forall e :: e in patches + [patch] ==> NoLookalike(e.tags, WORDS)
    requires Select(patch.tags, IsGuarded()) == []
    ensures Select(Folded(definition, patches + [patch]), IsGuarded()) == Select(Folded(definition, patches), IsGuarded())
  {
    hide ApplyTags, Select, NoLookalike, AllTags, AllFourFields, Insert;
    assert (patches + [patch])[..|patches|] == patches;
    InsertUnguarded(TimeOrder(patches), patch);
    SoundTags(TimeOrder(patches)) by { SoundTimeOrder(patches); }
    SoundTags(TimeOrder(patches + [patch])) by { SoundTimeOrder(patches + [patch]); }
    GenuineTags(patches);
    GenuineTags(patches + [patch]);
    GuardedFold(definition, AllTags(TimeOrder(patches)));
    GuardedFold(definition, AllTags(TimeOrder(patches + [patch])));
  }

  lemma GenuineTags(patches: seq<Event>)
    requires forall e :: e in patches ==> NoLookalike(e.tags, WORDS)
    ensures NoLookalike(AllTags(TimeOrder(patches)), WORDS)
  {
    hide NoLookalike, AllTags, TimeOrder;
    TimeOrderMembers(patches);
    var sorted := TimeOrder(patches);
    forall i | 0 <= i < |sorted|
      ensures NoLookalike(sorted[i].tags, WORDS)
    {
      assert sorted[i] in sorted;
    }
    GenuineThroughout(sorted, WORDS);
  }

  // ---- Accepted events and moderators

  lemma AcceptedWords(rules: map<int, T.Table>, checks: Tag -> bool, e: Event, kind: int)
    requires DeclaresCommunity(rules) && Accepted(rules, checks, e, kind)
    ensures NoLookalike(e.tags, WORDS)
  {
    hide Accepted, DeclaresCommunity, NoLookalike;
    AcceptedTexts(rules, checks, e, kind, "name");
    AcceptedTexts(rules, checks, e, kind, "description");
    AcceptedIsGenuine(rules, checks, e, kind, "public", "private");
    AcceptedIsGenuine(rules, checks, e, kind, "open", "closed");
    TwoSets(e.tags, {"name"}, {"description"});
    TwoSets(e.tags, {"public", "private"}, {"open", "closed"});
    TwoSets(e.tags, {"name"} + {"description"}, {"public", "private"} + {"open", "closed"});
    assert WORDS == {"name"} + {"description"} + ({"public", "private"} + {"open", "closed"});
  }

  lemma TwoSets(tags: seq<Tag>, a: set<string>, b: set<string>)
    requires NoLookalike(tags, a) && NoLookalike(tags, b)
    ensures NoLookalike(tags, a + b)
  {
    hide Key;
  }

  lemma NothingGuarded(patch: Event, current: Event)
    requires ModeratorMay(patch, current)
    ensures Select(patch.tags, IsGuarded()) == []
  {
    forall i | 0 <= i < |patch.tags|
      ensures !IsGuarded()(patch.tags[i])
    {
      assert patch.tags[i] in patch.tags;
    }
    SelectNone(patch.tags, IsGuarded());
  }

  lemma ModeratorPatch(rules: map<int, T.Table>, checks: Tag -> bool, definition: Event, patches: seq<Event>, patch: Event)
    requires DeclaresCommunity(rules)
    requires Accepted(rules, checks, definition, KIND_DEFINITION) && AllAccepted(rules, checks, patches)
    requires Accepted(rules, checks, patch, KIND_CHANGE) && Sound(patches) && Sound(patches + [patch])
    requires ModeratorMay(patch, After(definition, patches))
    ensures Select(Folded(definition.tags, patches + [patch]), IsGuarded()) ==
            Select(Folded(definition.tags, patches), IsGuarded())
  {
    hide Accepted, Folded, ModeratorMay, NoLookalike, Sound, DeclaresCommunity;
    AcceptedWords(rules, checks, definition, KIND_DEFINITION);
    forall e | e in patches + [patch]
      ensures NoLookalike(e.tags, WORDS)
    {
      AcceptedWords(rules, checks, e, KIND_CHANGE);
    }
    NothingGuarded(patch, After(definition, patches));
    UnguardedPatch(definition.tags, patches, patch);
  }

  lemma {:induction false} ModeratorsKeepGuarded(rules: map<int, T.Table>, checks: Tag -> bool, definition: Event,
                                                 patches: seq<Event>, run: seq<Event>)
    requires DeclaresCommunity(rules)
    requires Accepted(rules, checks, definition, KIND_DEFINITION) && AllAccepted(rules, checks, patches)
    requires ModeratorRun(rules, checks, definition, patches, run)
    ensures Sound(patches) && Sound(patches + run) && AllAccepted(rules, checks, patches + run)
    ensures Select(Folded(definition.tags, patches + run), IsGuarded()) ==
            Select(Folded(definition.tags, patches), IsGuarded())
  {
    hide Accepted, AllAccepted, Folded, ModeratorMay, Sound, RoleOf, DeclaresCommunity;
    if run == [] {
      assert patches + run == patches;
      AcceptedIsSound(rules, checks, patches);
    } else {
      var init, last := run[..|run| - 1], run[|run| - 1];
      ModeratorsKeepGuarded(rules, checks, definition, patches, init);
      AcceptedMore(rules, checks, patches + init, last);
      assert patches + run == patches + init + [last];
      AcceptedIsSound(rules, checks, patches + run);
      ModeratorPatch(rules, checks, definition, patches + init, last);
    }
  }

  /** Whatever moderators patch, and at whatever times, the community's name, description, flags, picture and settings
      read as before. */
  lemma ModeratorsKeepReserved(rules: map<int, T.Table>, checks: Tag -> bool, definition: Event,
                               patches: seq<Event>, run: seq<Event>, k: string)
    requires DeclaresCommunity(rules)
    requires Accepted(rules, checks, definition, KIND_DEFINITION) && AllAccepted(rules, checks, patches)
    requires ModeratorRun(rules, checks, definition, patches, run)
    requires k in {"name", "description", "public", "private", "open", "closed", "imeta", "settings"}
    ensures Sound(patches) && Sound(patches + run)
    ensures Select(Folded(definition.tags, patches + run), HasKey(k)) == Select(Folded(definition.tags, patches), HasKey(k))
    ensures GetTag(Folded(definition.tags, patches + run), k) == GetTag(Folded(definition.tags, patches), k)
  {
    hide Accepted, AllAccepted, Folded, Sound, Select, ModeratorRun, DeclaresCommunity, GetTag;
    ModeratorsKeepGuarded(rules, checks, definition, patches, run);
    var before, after := Folded(definition.tags, patches), Folded(definition.tags, patches + run);
    assert forall t :: HasKey(k)(t) ==> IsGuarded()(t);
    SelectTwice(before, IsGuarded(), HasKey(k));
    SelectTwice(after, IsGuarded(), HasKey(k));
    OneText(before, k);
    OneText(after, k);
  }
}
