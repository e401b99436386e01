/** Community definitions and patches as validation accepts them (`validation/validate.go`,
    `validation/validation_icip_3000.go`), and what folding them promises. */
module CommunityAccepted {
  import opened Optional
  import opened Nostr
  import opened Seqs
  import opened Community
  import opened CommunityRoles
  import opened CommunityFlags
  import T = TagTable

  const KIND_DEFINITION := 31750
  const KIND_CHANGE := 1753

  const DEFINITION_TAGS := ["h", "d", "name", "description", "public", "private", "open", "closed", "p", "a"]
  const CHANGE_TAGS := ["h", "name", "description", "public", "private", "open", "closed", "p"]

  const MODERATOR := "moderator"
  const ADMIN := "admin"
  const REGULAR := ""

  /** Rules that declare the two community kinds as the source does. */
  predicate DeclaresCommunity(rules: map<int, T.Table>) {
    && KIND_DEFINITION in rules && rules[KIND_DEFINITION] == T.TagsTable(DEFINITION_TAGS)
    && KIND_CHANGE in rules && rules[KIND_CHANGE] == T.TagsTable(CHANGE_TAGS)
  }

  /** Every `p` tag has four fields and gives a role. */
  predicate GivesRoles(tags: seq<Tag>) {
    forall i :: 0 <= i < |tags| && Key(tags[i]) == "p" ==> |tags[i]| >= 4 && tags[i][3] in {MODERATOR, ADMIN, REGULAR}
  }

  predicate NoClash(tags: seq<Tag>) {
    !(Has(tags, "open") && Has(tags, "closed")) && !(Has(tags, "public") && Has(tags, "private"))
  }

  /** An event of a community kind that passes the table and the checks of `icip-3000` on its tags. */
  predicate Accepted(rules: map<int, T.Table>, checks: Tag -> bool, e: Event, kind: int) {
    && e.kind == kind && kind in {KIND_DEFINITION, KIND_CHANGE} && T.Accepts(rules, e, checks)
    && Has(e.tags, "h") && GivesRoles(e.tags) && NoClash(e.tags)
  }

  ghost predicate AllAccepted(rules: map<int, T.Table>, checks: Tag -> bool, patches: seq<Event>) {
    forall i :: 0 <= i < |patches| ==> Accepted(rules, checks, patches[i], KIND_CHANGE)
  }

  lemma AcceptedFields(rules: map<int, T.Table>, checks: Tag -> bool, e: Event, kind: int)
    requires Accepted(rules, checks, e, kind)
    ensures AllFourFields(e.tags) && T.UniqueP(e.tags)
  {
  }

  lemma AcceptedIsSound(rules: map<int, T.Table>, checks: Tag -> bool, patches: seq<Event>)
    requires AllAccepted(rules, checks, patches)
    ensures Sound(patches)
  {
    forall i | 0 <= i < |patches|
      ensures AllFourFields(patches[i].tags)
    {
      AcceptedFields(rules, checks, patches[i], KIND_CHANGE);
    }
  }

  // ---- Roles

  /** Tags that name nobody twice hold at most one tag of each user. */
  lemma {:induction false} OnePerson(tags: seq<Tag>, v: string)
    requires T.UniqueP(tags)
    ensures |Persons(tags, v)| <= 1
  {
    if tags != [] {
      var rest := tags[1..];
      forall i, j | 0 <= i < j < |rest| && Key(rest[i]) == "p" && Key(rest[j]) == "p"
        ensures Value(rest[i]) != Value(rest[j])
      {
        assert rest[i] == tags[i + 1] && rest[j] == tags[j + 1];
      }
      OnePerson(rest, v);
      if Same(tags[0], "p", v) {
        forall i | 0 <= i < |rest|
          ensures !Same(rest[i], "p", v)
        {
          assert rest[i] == tags[i + 1];
        }
        SelectNone(rest, IsPerson(v));
      }
    }
  }

  lemma UniqueIsAgreed(tags: seq<Tag>, v: string)
    requires T.UniqueP(tags) && AllFourFields(tags)
    ensures Agreed(Persons(tags, v))
  {
    OnePerson(tags, v);
    SelectMembers(tags, IsPerson(v));
    var own := Persons(tags, v);
    if own != [] {
      assert own[0] in own && own[0] in tags;
    }
  }

  lemma OnlyNaming(tags: seq<Tag>, s: Tag, t: Tag)
    requires T.UniqueP(tags) && s in tags && t in tags && Key(s) == "p" && Key(t) == "p" && Value(s) == Value(t)
    ensures s == t
  {
    var i :| 0 <= i < |tags| && tags[i] == s;
    var j :| 0 <= j < |tags| && tags[j] == t;
  }

  function After(definition: Event, patches: seq<Event>): Event
    requires Sound(patches)
  {
    definition.(tags := Folded(definition.tags, patches))
  }

  /** Roles are last-writer-wins for every accepted definition and every accepted patches: a user who is not the
      owner has the role that the latest patch naming them gives. */
  lemma AcceptedRoleIsLatest(rules: map<int, T.Table>, checks: Tag -> bool, definition: Event,
                                                patches: seq<Event>, v: string, i: int, t: Tag)
    requires Accepted(rules, checks, definition, KIND_DEFINITION) && AllAccepted(rules, checks, patches)
    requires IsLatest(patches, v, i) && t in patches[i].tags && Same(t, "p", v)
    ensures Sound(patches) && |t| >= 4
    ensures MasterKey(After(definition, patches)) != v ==> RoleOf(v, After(definition, patches)) == t[3]
  {
    AcceptedIsSound(rules, checks, patches);
    AcceptedFields(rules, checks, definition, KIND_DEFINITION);
    AcceptedFields(rules, checks, patches[i], KIND_CHANGE);
    hide Accepted, AllAccepted, RoleOf, Folded, MasterKey, IsLatest, T.UniqueP;
    UniqueIsAgreed(definition.tags, v);
    RoleIsLatest(definition, patches, v, i);
    OnlyNaming(patches[i].tags, t, LastNaming(patches[i].tags, v).value);
  }

  /** And a user no accepted patch names keeps the role of the definition. */
  lemma AcceptedRoleIfUnnamed(rules: map<int, T.Table>, checks: Tag -> bool, definition: Event,
                                                 patches: seq<Event>, v: string)
    requires Accepted(rules, checks, definition, KIND_DEFINITION) && AllAccepted(rules, checks, patches)
    requires forall i :: 0 <= i < |patches| ==> !Names(patches[i], v)
    ensures Sound(patches)
    ensures MasterKey(definition) != v && MasterKey(After(definition, patches)) != v ==>
              RoleOf(v, After(definition, patches)) == RoleOf(v, definition)
  {
    AcceptedIsSound(rules, checks, patches);
    AcceptedFields(rules, checks, definition, KIND_DEFINITION);
    hide Accepted, AllAccepted, RoleOf, Folded, MasterKey, T.UniqueP;
    UniqueIsAgreed(definition.tags, v);
    if MasterKey(definition) != v && MasterKey(After(definition, patches)) != v {
      RoleIfUnnamed(definition, patches, v);
    }
  }

  // ---- Flags

  const FLAGS := {"public", "private", "open", "closed"}

  predicate IsListed(k: string) {
    k in T.COMMON_TAGS || k in DEFINITION_TAGS
  }

  lemma TagsTableKeys(names: seq<string>, k: string)
    requires k in T.TagsTable(names) && forall n :: n in names ==> n in DEFINITION_TAGS
    ensures IsListed(k)
  {
    T.DeclareMeans(map[], T.COMMON_TAGS, T.Allowed);
    T.DeclareMeans(T.Declare(map[], T.COMMON_TAGS, T.Allowed), names, T.Allowed);
    hide T.Declare;
  }

  lemma ListedKeys(rules: map<int, T.Table>, checks: Tag -> bool, e: Event, kind: int)
    requires DeclaresCommunity(rules) && Accepted(rules, checks, e, kind)
    ensures forall i :: 0 <= i < |e.tags| ==> IsListed(Key(e.tags[i]))
  {
    ChangeTagsAreListed();
    DIsListed();
    hide T.OneB, T.UniqueP, T.Satisfies, GivesRoles, NoClash, IsListed, T.TagsTable, Key;
    var names := if kind == KIND_CHANGE then CHANGE_TAGS else DEFINITION_TAGS;
    forall i | 0 <= i < |e.tags|
      ensures IsListed(Key(e.tags[i]))
    {
      assert T.MayCarry(e, true, rules[kind], e.tags[i]);
      if Key(e.tags[i]) != "d" {
        TagsTableKeys(names, Key(e.tags[i]));
      }
    }
  }

  lemma DIsListed()
    ensures IsListed("d")
  {
    assert DEFINITION_TAGS[1] == "d";
  }

  lemma ChangeTagsAreListed()
    ensures forall k :: k in CHANGE_TAGS ==> k in DEFINITION_TAGS
  {
    assert DEFINITION_TAGS == CHANGE_TAGS[..1] + ["d"] + CHANGE_TAGS[1..] + ["a"];
  }

  /** No listed tag name properly extends a flag's name. */
  lemma ListedIsGenuine(k: string, w: string)
    requires IsListed(k) && w in FLAGS && w <= k
    ensures k == w
  {
    assert k[0] == w[0] && k[1] == w[1] && k[2] == w[2] && |k| >= |w|;
  }

  lemma AcceptedIsGenuine(rules: map<int, T.Table>, checks: Tag -> bool, e: Event, kind: int, a: string, b: string)
    requires DeclaresCommunity(rules) && Accepted(rules, checks, e, kind) && IsPair(a, b)
    ensures NoLookalike(e.tags, {a, b})
  {
    ListedKeys(rules, checks, e, kind);
    hide Accepted, IsListed, DeclaresCommunity, Key;
    var s := {a, b};
    forall i, w | 0 <= i < |e.tags| && w in s && w <= Key(e.tags[i])
      ensures Key(e.tags[i]) == w
    {
      ListedIsGenuine(Key(e.tags[i]), w);
    }
  }

  lemma {:induction false} GenuineThroughout(patches: seq<Event>, s: set<string>)
    requires forall i :: 0 <= i < |patches| ==> NoLookalike(patches[i].tags, s)
    ensures NoLookalike(AllTags(patches), s)
  {
    if patches != [] {
      var init, last := patches[..|patches| - 1], patches[|patches| - 1];
      GenuineThroughout(init, s);
      NoLookalikeConcat(AllTags(init), last.tags, s);
    }
  }

  lemma NoLookalikeConcat(a: seq<Tag>, b: seq<Tag>, s: set<string>)
    requires NoLookalike(a, s) && NoLookalike(b, s)
    ensures NoLookalike(a + b, s)
  {
    forall i, w | 0 <= i < |a + b| && w in s && w <= Key((a + b)[i])
      ensures Key((a + b)[i]) == w
    {
      assert (a + b)[i] == if i < |a| then a[i] else b[i - |a|];
    }
  }

  lemma GenuineInOrder(rules: map<int, T.Table>, checks: Tag -> bool, patches: seq<Event>, a: string, b: string)
    requires DeclaresCommunity(rules) && AllAccepted(rules, checks, patches) && IsPair(a, b)
    ensures Sound(patches) && AllFourFields(AllTags(TimeOrder(patches)))
    ensures NoLookalike(AllTags(TimeOrder(patches)), {a, b})
  {
    AcceptedIsSound(rules, checks, patches);
    SoundTimeOrder(patches);
    SoundTags(TimeOrder(patches));
    TimeOrderMembers(patches);
    hide Accepted, DeclaresCommunity, TimeOrder, AllTags, NoLookalike, IsPair, AllFourFields;
    var sorted := TimeOrder(patches);
    forall i | 0 <= i < |sorted|
      ensures NoLookalike(sorted[i].tags, {a, b})
    {
      assert sorted[i] in patches;
      AcceptedIsGenuine(rules, checks, sorted[i], KIND_CHANGE, a, b);
    }
    GenuineThroughout(sorted, {a, b});
  }

  /** For an accepted definition with at most one tag of the pair and any accepted patches, the pair's flag after the
      fold is the last one set, in time order, else the definition's. */
  lemma AcceptedFlagIsLast(rules: map<int, T.Table>, checks: Tag -> bool, definition: Event,
                                              patches: seq<Event>, a: string, b: string)
    requires DeclaresCommunity(rules) && IsPair(a, b)
    requires Accepted(rules, checks, definition, KIND_DEFINITION) && AllAccepted(rules, checks, patches)
    requires |Flags(definition.tags, {a, b})| <= 1
    ensures Sound(patches) && |Flags(Folded(definition.tags, patches), {a, b})| <= 1
    ensures forall k :: k in {a, b} ==>
              (Has(Folded(definition.tags, patches), k) <==>
                match LastFlag(AllTags(TimeOrder(patches)), {a, b})
                case Some(w) => w == k
                case None => Has(definition.tags, k))
  {
    GenuineInOrder(rules, checks, patches, a, b);
    AcceptedIsGenuine(rules, checks, definition, KIND_DEFINITION, a, b);
    hide Accepted, AllAccepted, DeclaresCommunity, TimeOrder, AllTags, NoLookalike, IsPair, Flags, Has, LastFlag, ApplyTags;
    LastFlagWins(definition.tags, AllTags(TimeOrder(patches)), a, b);
  }

  /** Both flags of a pair show after the fold. */
  ghost predicate Clash(definition: Event, patches: seq<Event>, a: string, b: string) {
    Sound(patches) && Has(Folded(definition.tags, patches), a) && Has(Folded(definition.tags, patches), b)
  }

  /** The checks of single tags let flags pass. */
  predicate FlagsPass(checks: Tag -> bool) {
    checks(["public"]) && checks(["private"]) && checks(["open"]) && checks(["closed"])
  }

  function Change(h: Tag, flag: string): Event {
    Event("", "", KIND_CHANGE, 0, [h, [flag]], "")
  }

  lemma ChangeTable(rules: map<int, T.Table>)
    requires DeclaresCommunity(rules)
    ensures "h" in rules[KIND_CHANGE] && "b" in rules[KIND_CHANGE] && "p" in rules[KIND_CHANGE]
    ensures forall w :: w in FLAGS ==> w in rules[KIND_CHANGE]
    ensures forall k :: k in rules[KIND_CHANGE] ==> rules[KIND_CHANGE][k] == T.Allowed
  {
    var common := T.Declare(map[], T.COMMON_TAGS, T.Allowed);
    T.DeclareMeans(map[], T.COMMON_TAGS, T.Allowed);
    T.DeclareMeans(common, CHANGE_TAGS, T.Allowed);
    hide T.Declare;
    assert CHANGE_TAGS[0] == "h" && CHANGE_TAGS[3] == "public" && CHANGE_TAGS[4] == "private";
    assert CHANGE_TAGS[5] == "open" && CHANGE_TAGS[6] == "closed" && CHANGE_TAGS[7] == "p" && T.COMMON_TAGS[6] == "b";
  }

  lemma FlagIsPlain(flag: string)
    requires flag in FLAGS
    ensures flag !in {"h", "b", "p", "d"}
  {
  }

  /** A patch that sets one flag is accepted. */
  lemma ChangeIsAccepted(rules: map<int, T.Table>, checks: Tag -> bool, h: Tag, flag: string)
    requires DeclaresCommunity(rules) && Key(h) == "h" && checks(h) && FlagsPass(checks) && flag in FLAGS
    ensures Accepted(rules, checks, Change(h, flag), KIND_CHANGE)
  {
    ChangeTable(rules);
    FlagIsPlain(flag);
    hide DeclaresCommunity;
    var e := Change(h, flag);
    assert e.tags[0] == h && e.tags[1] == [flag] && Key(e.tags[1]) == flag;
    assert "h" !in FLAGS;
    OneFlagNoClash(e.tags);
  }

  lemma OneFlagNoClash(tags: seq<Tag>)
    requires |tags| == 2 && Key(tags[0]) == "h"
    ensures NoClash(tags)
  {
  }

  lemma ChangeFolds(definition: Event, h: Tag, flag: string)
    requires Key(h) == "h" && flag in FLAGS
    ensures Sound([Change(h, flag)])
    ensures Folded(definition.tags, [Change(h, flag)]) == ApplyTags(definition.tags, [[flag]])
  {
    FlagIsPlain(flag);
    var e := Change(h, flag);
    assert TimeOrder([e]) == [e] && AllTags([e]) == e.tags by {
      assert [e][..0] == [];
      assert TimeOrder([]) == [] && AllTags([]) == [];
    }
    hide Switch, TimeOrder, AllTags;
    var tags := definition.tags;
    assert e.tags[..1] == [h] && [h][..0] == [] && [[flag]][..0] == [];
    assert ApplyTags(tags, [h]) == ApplyTag(tags, h) == tags;
    assert ApplyTags(tags, e.tags) == ApplyTag(tags, [flag]);
    assert ApplyTags(tags, [[flag]]) == ApplyTag(ApplyTags(tags, []), [flag]);
  }

  /** Exactly when accepted patches keep a pair exclusive in an accepted definition: when the definition carries at
      most one tag of it. */
  lemma AcceptedPairExactly(rules: map<int, T.Table>, checks: Tag -> bool, definition: Event,
                                               a: string, b: string)
    requires DeclaresCommunity(rules) && IsPair(a, b) && FlagsPass(checks)
    requires Accepted(rules, checks, definition, KIND_DEFINITION)
    ensures |Flags(definition.tags, {a, b})| <= 1 <==>
              forall patches :: AllAccepted(rules, checks, patches) ==> !Clash(definition, patches, a, b)
  {
    hide Flags, Folded, DeclaresCommunity, FlagsPass, ApplyTags;
    if |Flags(definition.tags, {a, b})| <= 1 {
      forall patches | AllAccepted(rules, checks, patches)
        ensures !Clash(definition, patches, a, b)
      {
        hide Accepted, AllAccepted;
        AcceptedFlagIsLast(rules, checks, definition, patches, a, b);
        AtMostOne(Folded(definition.tags, patches), a, b);
        PairWords(a, b);
      }
    } else {
      var patch := ClashingPatch(rules, checks, definition, a, b);
      assert [patch][0] == patch;
    }
  }

  /** An accepted definition with two tags of a pair has an accepted patch that makes both flags show. */
  lemma ClashingPatch(rules: map<int, T.Table>, checks: Tag -> bool, definition: Event, a: string, b: string)
    returns (patch: Event)
    requires DeclaresCommunity(rules) && IsPair(a, b) && FlagsPass(checks)
    requires Accepted(rules, checks, definition, KIND_DEFINITION) && |Flags(definition.tags, {a, b})| >= 2
    ensures Accepted(rules, checks, patch, KIND_CHANGE) && Clash(definition, [patch], a, b)
  {
    AcceptedIsGenuine(rules, checks, definition, KIND_DEFINITION, a, b);
    var h := CommunityTag(rules, checks, definition);
    OneOfPair(definition.tags, a, b);
    hide Accepted, Flags, Folded, DeclaresCommunity, FlagsPass, ApplyTags, NoClash, NoLookalike, Has;
    PairFlags(a, b);
    if Has(definition.tags, a) {
      BreakWith(definition.tags, a, b);
      ChangeFolds(definition, h, b);
      ChangeIsAccepted(rules, checks, h, b);
      patch := Change(h, b);
    } else {
      PairSwaps(a, b);
      assert {a, b} == {b, a};
      BreakWith(definition.tags, b, a);
      ChangeFolds(definition, h, a);
      ChangeIsAccepted(rules, checks, h, a);
      patch := Change(h, a);
    }
  }

  lemma PairFlags(a: string, b: string)
    requires IsPair(a, b)
    ensures a in FLAGS && b in FLAGS
  {
  }

  lemma CommunityTag(rules: map<int, T.Table>, checks: Tag -> bool, definition: Event) returns (h: Tag)
    requires Accepted(rules, checks, definition, KIND_DEFINITION)
    ensures Key(h) == "h" && checks(h)
  {
    var i :| 0 <= i < |definition.tags| && Key(definition.tags[i]) == "h";
    h := definition.tags[i];
  }

  lemma OneOfPair(tags: seq<Tag>, a: string, b: string)
    requires IsPair(a, b) && NoClash(tags) && |Flags(tags, {a, b})| >= 2
    ensures Has(tags, a) <==> !Has(tags, b)
  {
    FlagsShow(tags, {a, b}, a);
    FlagsShow(tags, {a, b}, b);
    SelectMembers(tags, InSet({a, b}));
    var f := Flags(tags, {a, b});
    assert f[0] in f;
    assert Key(f[0]) in {a, b};
  }
}
