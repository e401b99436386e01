/** The entries that do not fit: for each, an event that the WHERE text and the in-memory match answer differently. */
module EntryDiffers {
  import opened Optional
  import opened Nostr
  import opened FilterMatch
  import opened FilterSql
  import opened EventRows
  import opened EntryReadings

  /** An event of its own whose row, whatever else it says, is answered differently. */
  ghost predicate Differ(name: string, alts: seq<TagValues>, tags: seq<Tag>) {
    Plain(tags, []) && forall row :: ShowsTags(row, tags, []) ==> !Alike(name, alts, tags, row)
  }

  // ---- Small events

  lemma OneRow(t: Tag)
    ensures TagRows([t]) == if IsIndexable(Key(t)) then [TagRow(t)] else []
  {
    RowsSnoc([], t);
    assert [] + [t] == [t];
  }

  lemma OneLang(t: Tag)
    ensures LangOf([t]) == if IsLanguageTag(t) then t[1] else ""
  {
    LangSnoc([], t);
    assert [] + [t] == [t];
  }

  lemma NoTagIsPlain()
    ensures Plain([], [])
  {
  }

  lemma OneTagIsPlain(t: Tag)
    ensures Plain([t], [])
  {
    OneRow(t);
    hide IsIndexable, TagRow, TagRows;
    forall u | u in [t] && IsIndexable(Key(u))
      ensures TagRow(u) in TagRows([t])
    {
    }
    assert forall u :: u in [t] ==> u == t;
  }

  /** A tag beside a language tag with another first value. */
  lemma TwoTagsArePlain(t: Tag, u: Tag)
    requires !IsLanguageTag(t) && Column(t, 1) != Column(u, 1)
    ensures Plain([t, u], [])
  {
    OneRow(t);
    RowsSnoc([t], u);
    assert [t] + [u] == [t, u];
    assert IsIndexable(Key(t)) ==> !SameKey(TagRow(t), u) by {
      assert Column(TagRow(t), 1) == Column(t, 1);
    }
    hide IsIndexable, TagRow, TagRows, SameKey;
    assert forall v :: v in [t, u] ==> v == t || v == u;
  }

  /** Some row shows the event. */
  function OwnTopics(tags: seq<Tag>): seq<string> {
    if tags == [] then []
    else if Key(tags[0]) == "t" && Value(tags[0]) != "" then [Value(tags[0])] + OwnTopics(tags[1..])
    else OwnTopics(tags[1..])
  }

  lemma {:induction false} OwnTopicsShow(tags: seq<Tag>)
    ensures ShowsTopics(OwnTopics(tags), tags)
  {
    if tags != [] {
      OwnTopicsShow(tags[1..]);
      assert tags == [tags[0]] + tags[1..];
      forall topic
        ensures topic in OwnTopics(tags) <==> NamesTopic(tags, topic)
      {
        assert NamesTopic(tags, topic) <==>
                 NamesTopic(tags[1..], topic) || (topic != "" && Key(tags[0]) == "t" && Value(tags[0]) == topic) by {
          assert forall t :: t in tags <==> t == tags[0] || t in tags[1..];
        }
      }
    }
  }

  lemma SomeRow(tags: seq<Tag>) returns (row: Row)
    ensures ShowsTags(row, tags, [])
  {
    OwnTopicsShow(tags);
    assert tags + [] == tags;
    row := Row("", 1, "", "", "", 0, "", "", OwnTopics(tags), LangOf(tags), TagRows(tags), [],
               false, false, false, false, false, None, None, false, false, None, {});
  }

  lemma DifferIsNotAlike(name: string, alts: seq<TagValues>, tags: seq<Tag>)
    requires Differ(name, alts, tags)
    ensures !ReadAlike(name, alts)
  {
    hide Plain, ShowsTags, Alike;
    var row := SomeRow(tags);
    assert Plain(tags, []) && ShowsTags(row, tags, []);
  }

  // ---- Exclusions and tags that are not kept

  /** An entry `!name` hides rows; in memory it asks for a tag of that very name. An event without tags is selected, and
      not matched. */
  lemma ExclusionDiffers(name: string, alts: seq<TagValues>)
    requires Excludes(name)
    ensures Differ(name, alts, [])
  {
    NoTagIsPlain();
    forall row | ShowsTags(row, [], [])
      ensures !Alike(name, alts, [], row)
    {
      assert !NameMatches(name, alts, []);
      if name != "!t" {
        NoRowIsExcluded(name, alts, row);
      }
    }
  }

  lemma NoRowIsExcluded(name: string, alts: seq<TagValues>, row: Row)
    requires Excludes(name) && row.tags == []
    ensures TagAllows(name, alts, row)
  {
    if HasValues(alts) {
      var i :| 0 <= i < |alts| && Constrains(alts[i]);
      assert Counts(name, alts[i]) && !HasTag(row.tags, TagName(name), Cut(alts[i]));
    }
  }

  /** The table does not keep the tag that memory finds. */
  lemma UnkeptDiffers(name: string, alts: seq<TagValues>) returns (t: Tag)
    requires !Excludes(name) && !IsIndexable(name)
    ensures Differ(name, alts, [t])
  {
    t := SomeMatch(name, alts);
    OneTagIsPlain(t);
    OneRow(t);
    forall row | ShowsTags(row, [t], [])
      ensures !Alike(name, alts, [t], row)
    {
      NoRowNoMatch(name, alts, row);
    }
  }

  lemma SomeMatch(name: string, alts: seq<TagValues>) returns (t: Tag)
    ensures Key(t) == name && NameMatches(name, alts, [t])
  {
    t := [name];
    if i :| 0 <= i < |alts| && Constrains(alts[i]) {
      t := Fill(name, alts[i]);
    }
    assert TagSatisfies(name, alts, [t][0]);
  }

  lemma NoRowNoMatch(name: string, alts: seq<TagValues>, row: Row)
    requires !Excludes(name) && name !in {"l", "t"} && row.tags == []
    ensures !EntryAllows(name, alts, row)
  {
    if HasValues(alts) {
      var i :| 0 <= i < |alts| && Constrains(alts[i]);
      assert Counts(name, alts[i]);
    }
  }

  // ---- Topics

  lemma TopicsDiffer(alts: seq<TagValues>) returns (tags: seq<Tag>)
    requires !TopicEntry(alts)
    ensures Differ("t", alts, tags)
  {
    if !HasValues(alts) {
      tags := [];
      NoTopicAsked(alts);
    } else if i :| 0 <= i < |alts| && Constrains(alts[i]) && !StartsNamed(alts[i]) {
      var t := Fill("t", alts[i]);
      tags := [t];
      NamelessTopic(alts, i, t);
    } else {
      var v :| v in Topics(alts) && v != "" && !ListsAlone(alts, v);
      tags := [["t", v]];
      NeverAlone(alts, v);
    }
  }

  lemma NoTopicAsked(alts: seq<TagValues>)
    requires !HasValues(alts)
    ensures Differ("t", alts, [])
  {
    NoTagIsPlain();
    assert forall i :: 0 <= i < |alts| ==> !Constrains(alts[i]);
    assert Topics(alts) == {};
    assert !NameMatches("t", alts, []);
  }

  lemma NamelessTopic(alts: seq<TagValues>, i: nat, t: Tag)
    requires i < |alts| && Constrains(alts[i]) && !StartsNamed(alts[i]) && t == Fill("t", alts[i])
    ensures Differ("t", alts, [t])
  {
    OneTagIsPlain(t);
    SomeTopic(alts);
    assert TagSatisfies("t", alts, [t][0]) && NameMatches("t", alts, [t]);
    assert Value(t) == "";
    hide TagSatisfies, NameMatches, Topics, Plain;
    forall row | ShowsTags(row, [t], [])
      ensures !HasTopic(row, Topics(alts))
    {
      assert [t] + [] == [t] && forall v :: !NamesTopic([t], v);
    }
  }

  lemma NeverAlone(alts: seq<TagValues>, v: string)
    requires v in Topics(alts) && v != "" && !ListsAlone(alts, v)
    requires HasValues(alts) && forall i :: 0 <= i < |alts| && Constrains(alts[i]) ==> StartsNamed(alts[i])
    ensures Differ("t", alts, [["t", v]])
  {
    var t: Tag := ["t", v];
    OneTagIsPlain(t);
    assert !NameMatches("t", alts, [t]) by {
      NotMatchedAlone(alts, v);
    }
    assert t in [t] && NamesTopic([t], v);
    hide NameMatches, Topics, Plain, HasValues;
    forall row | ShowsTags(row, [t], [])
      ensures HasTopic(row, Topics(alts))
    {
      assert [t] + [] == [t];
      assert v in row.tTags;
    }
  }

  lemma NotMatchedAlone(alts: seq<TagValues>, v: string)
    requires HasValues(alts) && !ListsAlone(alts, v)
    requires forall i :: 0 <= i < |alts| && Constrains(alts[i]) ==> StartsNamed(alts[i])
    ensures !NameMatches("t", alts, [["t", v]])
  {
    var t: Tag := ["t", v];
    forall i | 0 <= i < |alts| && Constrains(alts[i])
      ensures !AltMatches(alts[i], t)
    {
      assert !IsAlone(alts[i], v);
    }
  }

  // ---- Entries read by position

  lemma {:induction false} LongerThanAll(values: set<string>) returns (n: nat)
    ensures forall v :: v in values ==> |v| < n
  {
    if values == {} {
      n := 0;
    } else {
      var v :| v in values;
      n := LongerThanAll(values - {v});
      n := if n > |v| then n else |v| + 1;
    }
  }

  /** A value that the alternatives do not give. */
  lemma FreshValue(alts: seq<TagValues>) returns (other: string)
    ensures other != "" && other !in Topics(alts)
  {
    var n := LongerThanAll(Topics(alts));
    other := seq(n + 1, _ => 'x');
  }

  /** The last of the first five positions that asks for a value that is not empty; -1 if none does. */
  function LastShown(a: TagValues): (p: int)
    ensures -1 <= p < |a| && p < MAX_TAG_VALUES
    ensures p >= 0 ==> a[p].Some? && a[p].value != ""
    ensures forall j :: p < j < |a| && j < MAX_TAG_VALUES && a[j].Some? ==> a[j].value == ""
  {
    if a == [] then -1
    else if |a| <= MAX_TAG_VALUES && a[|a| - 1].Some? && a[|a| - 1].value != "" then |a| - 1
    else LastShown(a[..|a| - 1])
  }

  /** The shortest tag whose row fits the alternative, with a fresh value wherever none is asked for. */
  function Shortest(name: string, a: TagValues, other: string): (t: Tag)
    ensures |t| == LastShown(a) + 2 && t[0] == name
    ensures forall j :: 0 <= j <= LastShown(a) ==> t[j + 1] == if a[j].Some? then a[j].value else other
  {
    [name] + seq(LastShown(a) + 1, j requires 0 <= j <= LastShown(a) => if a[j].Some? then a[j].value else other)
  }

  lemma RowColumn(t: Tag, i: nat)
    requires i <= MAX_TAG_VALUES
    ensures |TagRow(t)| == MAX_TAG_VALUES + 1 && TagRow(t)[i] == Column(t, i)
  {
  }

  lemma ShortestFits(name: string, a: TagValues, other: string)
    ensures AltMatches(Cut(a), TagRow(Shortest(name, a, other)))
  {
    hide LastShown, Shortest, TagRow;
    var t, c := Shortest(name, a, other), Cut(a);
    var r := TagRow(t);
    RowColumn(t, 0);
    forall j | 0 <= j < |c| && c[j].Some?
      ensures r[j + 1] == c[j].value
    {
      RowColumn(t, j + 1);
      assert c[j] == a[j];
    }
  }

  lemma ValueInShortest(name: string, alts: seq<TagValues>, a: TagValues, k: nat, j: nat, other: string)
    requires other !in Topics(alts) && k < |alts| && AltMatches(alts[k], Shortest(name, a, other))
    requires j < |alts[k]| && alts[k][j].Some?
    ensures j <= LastShown(a) && a[j] == alts[k][j]
  {
    InTopics(alts, k, j);
    hide Topics, LastShown;
    assert j <= LastShown(a);
  }

  lemma WeakerIsShorter(w: TagValues, a: TagValues)
    requires Constrains(w) && forall j :: 0 <= j < |w| && w[j].Some? ==> j <= LastShown(a) && a[j] == w[j]
    ensures Readable(w) || LastShown(w) < LastShown(a)
  {
    hide LastShown;
    var p := LastShown(a);
    var i :| 0 <= i < |w| && w[i].Some?;
    if p < |w| && w[p].Some? {
      assert EndsAt(w, p);
    }
  }

  /** What fits the tag in memory is weaker, and readable or shorter. */
  lemma FitsShortest(name: string, alts: seq<TagValues>, a: TagValues, k: nat, other: string)
    requires other !in Topics(alts) && k < |alts| && Constrains(alts[k]) && AltMatches(alts[k], Shortest(name, a, other))
    ensures Weaker(alts[k], a)
    ensures Readable(alts[k]) || LastShown(alts[k]) < LastShown(a)
  {
    hide Topics, AltMatches, Shortest, Constrains, Readable;
    forall j | 0 <= j < |alts[k]| && alts[k][j].Some?
      ensures j <= LastShown(a) && a[j] == alts[k][j]
    {
      ValueInShortest(name, alts, a, k, j, other);
    }
    WeakerIsShorter(alts[k], a);
  }

  lemma WeakerIsTransitive(u: TagValues, w: TagValues, a: TagValues)
    requires Weaker(u, w) && Weaker(w, a)
    ensures Weaker(u, a)
  {
  }

  lemma StillUnreadable(alts: seq<TagValues>, w: TagValues, a: TagValues)
    requires Weaker(w, a) && !HasReadable(alts, a)
    ensures !HasReadable(alts, w)
  {
    if HasReadable(alts, w) {
      var k :| 0 <= k < |alts| && Weaker(alts[k], w) && Readable(alts[k]);
      WeakerIsTransitive(alts[k], w, a);
    }
  }

  /** An alternative that nothing readable covers has a tag whose row fits it while no alternative fits the tag. */
  lemma {:induction false} UnreadableTag(name: string, alts: seq<TagValues>, i: nat) returns (t: Tag, k: nat)
    requires i < |alts| && Constrains(alts[i]) && !HasReadable(alts, alts[i])
    ensures t != [] && t[0] == name && k < |alts| && Constrains(alts[k]) && AltMatches(Cut(alts[k]), TagRow(t))
    ensures forall j :: 0 <= j < |alts| && Constrains(alts[j]) ==> !AltMatches(alts[j], t)
    decreases LastShown(alts[i]) + 1
  {
    hide Constrains, AltMatches, Cut, TagRow, Readable, Weaker, Topics;
    var other := FreshValue(alts);
    t, k := Shortest(name, alts[i], other), i;
    if j :| 0 <= j < |alts| && Constrains(alts[j]) && AltMatches(alts[j], t) {
      FitsShortest(name, alts, alts[i], j, other);
      StillUnreadable(alts, alts[j], alts[i]);
      t, k := UnreadableTag(name, alts, j);
    } else {
      ShortestFits(name, alts[i], other);
    }
  }

  lemma PositionsDiffer(name: string, alts: seq<TagValues>) returns (t: Tag)
    requires IsIndexable(name) && !Excludes(name) && name != "t" && !(name == "l" && HasLanguage(alts)) && !PositionEntry(alts)
    ensures Differ(name, alts, [t])
  {
    var i :| 0 <= i < |alts| && Constrains(alts[i]) && !HasReadable(alts, alts[i]);
    var k;
    t, k := UnreadableTag(name, alts, i);
    OneTagIsPlain(t);
    OneRow(t);
    assert !NameMatches(name, alts, [t]);
    assert TagRow(t) != [] && TagRow(t)[0] == name;
    NamesSomething(name);
    NoLanguages(alts);
    hide IsIndexable, TagRow, TagRows, Cut, AltMatches, Constrains, Plain, NameMatches, LanguagesIn;
    forall row | ShowsTags(row, [t], [])
      ensures !Alike(name, alts, [t], row)
    {
      assert HasTag(row.tags, name, Cut(alts[k]));
      CountsByPosition(name, alts, k);
      OneFound(name, alts, k, row);
    }
  }

  lemma CountsByPosition(name: string, alts: seq<TagValues>, k: nat)
    requires k < |alts| && Constrains(alts[k]) && !(name == "l" && HasLanguage(alts))
    ensures Counts(name, alts[k])
  {
    hide Constrains, IsLanguage;
  }

  // ---- Languages

  lemma LanguagesDiffer(alts: seq<TagValues>) returns (tags: seq<Tag>)
    requires HasLanguage(alts) && !LanguageEntry(alts)
    ensures Differ("l", alts, tags)
  {
    hide Differ, Constrains, StartsLanguage, OnlyLanguages, ListsLonger, LanguagesIn;
    if i :| 0 <= i < |alts| && Constrains(alts[i]) && !StartsLanguage(alts, alts[i]) {
      tags := OtherThanLanguage(alts, i);
    } else {
      var v :| v in LanguagesIn(alts) && !ListsLonger(alts, v);
      var t := UnlistedLonger(alts, v);
      tags := [t];
    }
  }

  /** An alternative that does not start with a listed language is met, in memory, by an event that is in none. */
  lemma OtherThanLanguage(alts: seq<TagValues>, i: nat) returns (tags: seq<Tag>)
    requires HasLanguage(alts) && i < |alts| && Constrains(alts[i]) && !StartsLanguage(alts, alts[i])
    ensures Differ("l", alts, tags)
  {
    var t := Fill("l", alts[i]);
    var other := FreshValue(alts);
    FreshLanguage(alts, other);
    var u: Tag := ["l", other, LANG_ISO];
    tags := if IsLanguageTag(t) then [t] else [t, u];
    LanguageOfEvent(alts, i, t, other, tags);
    assert tags[0] == t && TagSatisfies("l", alts, tags[0]) && NameMatches("l", alts, tags);
    assert LanguagesIn(alts) != {} by {
      SomeLanguage(alts);
    }
    hide NameMatches, TagSatisfies, Plain, LanguagesIn, LangOf;
    assert tags + [] == tags;
  }

  lemma SomeLanguage(alts: seq<TagValues>)
    requires HasLanguage(alts)
    ensures LanguagesIn(alts) != {}
  {
    var k :| 0 <= k < |alts| && IsLanguage(alts[k]);
    assert LanguageOf(alts[k]) in LanguagesIn(alts);
  }

  lemma FreshLanguage(alts: seq<TagValues>, other: string)
    requires other !in Topics(alts)
    ensures other !in LanguagesIn(alts)
  {
    forall k | 0 <= k < |alts| && IsLanguage(alts[k])
      ensures LanguageOf(alts[k]) in Topics(alts)
    {
      InTopics(alts, k, 0);
    }
  }

  lemma InTopics(alts: seq<TagValues>, k: nat, j: nat)
    requires k < |alts| && j < |alts[k]| && alts[k][j].Some?
    ensures alts[k][j].value in Topics(alts)
  {
  }

  lemma LanguageOfEvent(alts: seq<TagValues>, i: nat, t: Tag, other: string, tags: seq<Tag>)
    requires i < |alts| && !StartsLanguage(alts, alts[i]) && t == Fill("l", alts[i])
    requires other != "" && other !in Topics(alts) && other !in LanguagesIn(alts)
    requires tags == if IsLanguageTag(t) then [t] else [t, ["l", other, LANG_ISO]]
    ensures Plain(tags, []) && LangOf(tags) !in LanguagesIn(alts)
  {
    var a := alts[i];
    if IsLanguageTag(t) {
      OneTagIsPlain(t);
      OneLang(t);
      assert a[0].Some? && a[1].Some?;
    } else {
      if |a| > 0 && a[0].Some? {
        InTopics(alts, i, 0);
      }
      TwoTagsArePlain(t, ["l", other, LANG_ISO]);
      LangSnoc([t], ["l", other, LANG_ISO]);
      assert [t] + [["l", other, LANG_ISO]] == tags;
    }
  }

  /** A listed language that nothing else beside the languages lists: an event in it, with more values, is matched in
      memory alone. */
  lemma UnlistedLonger(alts: seq<TagValues>, v: string) returns (t: Tag)
    requires HasLanguage(alts) && !OnlyLanguages(alts) && v in LanguagesIn(alts) && !ListsLonger(alts, v)
    requires forall i :: 0 <= i < |alts| && Constrains(alts[i]) ==> StartsLanguage(alts, alts[i])
    ensures Differ("l", alts, [t])
  {
    var other := FreshValue(alts);
    t := ["l", v, LANG_ISO, other, other, other];
    OneTagIsPlain(t);
    LanguageIsMatched(alts, v, t);
    OneRow(t);
    FullRow(t);
    hide Plain, NameMatches, TagAllows, LanguagesIn, Topics, ListsLonger, OnlyLanguages, HasLanguage, StartsLanguage, TagRows, TagRow;
    forall row | ShowsTags(row, [t], [])
      ensures !Alike("l", alts, [t], row)
    {
      NothingLonger(alts, v, other, row);
    }
  }

  lemma FullRow(t: Tag)
    requires |t| == MAX_TAG_VALUES + 1
    ensures TagRow(t) == t
  {
  }

  lemma LanguageIsMatched(alts: seq<TagValues>, v: string, t: Tag)
    requires v in LanguagesIn(alts) && |t| > 2 && t[0] == "l" && t[1] == v && t[2] == LANG_ISO
    requires forall i :: 0 <= i < |alts| && Constrains(alts[i]) ==> StartsLanguage(alts, alts[i])
    ensures NameMatches("l", alts, [t])
  {
    var k :| 0 <= k < |alts| && IsLanguage(alts[k]) && LanguageOf(alts[k]) == v;
    LanguageConstrains(alts[k]);
    StartFits(alts, alts[k], t);
    assert v != "";
    hide LanguagesIn, StartsLanguage, Constrains, AltMatches;
    assert TagSatisfies("l", alts, [t][0]);
  }

  lemma NothingLonger(alts: seq<TagValues>, v: string, other: string, row: Row)
    requires !OnlyLanguages(alts) && !ListsLonger(alts, v) && other !in Topics(alts) && other != ""
    requires forall i :: 0 <= i < |alts| && Constrains(alts[i]) ==> StartsLanguage(alts, alts[i])
    requires row.tags == [["l", v, LANG_ISO, other, other, other]]
    ensures !TagAllows("l", alts, row)
  {
    var r: Tag := ["l", v, LANG_ISO, other, other, other];
    var i :| 0 <= i < |alts| && Constrains(alts[i]) && !IsLanguage(alts[i]);
    assert Counts("l", alts[i]);
    forall k | 0 <= k < |alts| && Counts("l", alts[k])
      ensures !HasTag(row.tags, "l", Cut(alts[k]))
    {
      LongerMisses(alts, k, v, other, r);
    }
    hide Constrains, IsLanguage, HasTag, Cut;
  }

  lemma LongerMisses(alts: seq<TagValues>, k: nat, v: string, other: string, r: Tag)
    requires k < |alts| && StartsLanguage(alts, alts[k]) && !IsLanguage(alts[k]) && !IsLonger(alts[k], v)
    requires other !in Topics(alts) && r == ["l", v, LANG_ISO, other, other, other]
    ensures !AltMatches(Cut(alts[k]), r)
  {
    var a := alts[k];
    if a[0] == Some(v) {
      var j :| 2 <= j < |a| && j < MAX_TAG_VALUES && a[j].Some?;
      InTopics(alts, k, j);
      assert Cut(a)[j] == a[j];
    } else {
      assert Cut(a)[0] == a[0];
    }
  }

  // ---- Exactly the entries that fit

  /** An entry is read alike on all events that the columns tell everything about exactly when it fits. */
  lemma EntryExactly(name: string, alts: seq<TagValues>)
    ensures ReadAlike(name, alts) <==> EntryFits(name, alts)
  {
    if EntryFits(name, alts) {
      hide EntryFits, Plain, ShowsTags, Alike;
      forall tags, carried, row | Plain(tags, carried) && ShowsTags(row, tags, carried)
        ensures Alike(name, alts, tags, row)
      {
        FittingIsAlike(name, alts, tags, carried, row);
      }
    } else {
      var tags := Misread(name, alts);
      DifferIsNotAlike(name, alts, tags);
    }
  }

  /** The event that gives it away. */
  lemma Misread(name: string, alts: seq<TagValues>) returns (tags: seq<Tag>)
    requires !EntryFits(name, alts)
    ensures Differ(name, alts, tags)
  {
    hide Differ, TopicEntry, LanguageEntry, PositionEntry, HasLanguage;
    if name == "t" {
      tags := TopicsDiffer(alts);
    } else if Excludes(name) {
      ExclusionDiffers(name, alts);
      tags := [];
    } else if !IsIndexable(name) {
      var t := UnkeptDiffers(name, alts);
      tags := [t];
    } else if name == "l" && HasLanguage(alts) {
      tags := LanguagesDiffer(alts);
    } else {
      var t := PositionsDiffer(name, alts);
      tags := [t];
    }
  }

  // ---- Two readings in particular

  /** Which names can be asked for by presence alone: single letters, but for topics, and nine more. */
  lemma PresenceExactly(name: string)
    ensures ReadAlike(name, []) <==>
              || (|name| == 1 && name != "t" && name != "!")
              || name in {"summary", "name", "description", "title", "poll", "ox", "token", "relay", "tx_type"}
  {
    EntryExactly(name, []);
    hide ReadAlike;
  }

  /** The database takes ISO-639-1 in any case, the live match only as it is written. */
  lemma FoldedLanguageDiffers(language: string)
    requires language != ""
    ensures Differ("l", [[Some(language), Some("iso-639-1")]], [["l", language, "ISO-639-1"]])
  {
    var alts: seq<TagValues> := [[Some(language), Some("iso-639-1")]];
    var t: Tag := ["l", language, LANG_ISO];
    OneTagIsPlain(t);
    OneLang(t);
    assert IsLanguage(alts[0]) && LanguageOf(alts[0]) in LanguagesIn(alts);
    LanguageConstrains(alts[0]);
    assert alts[0][1].Some? && LANG_ISO[0] == 'I' && !AltMatches(alts[0], t);
    assert !NameMatches("l", alts, [t]) && [t] + [] == [t];
    hide Plain, NameMatches, LangOf, HasTag;
    forall row | ShowsTags(row, [t], [])
      ensures EntryAllows("l", alts, row)
    {
      NothingElse(alts, row);
    }
  }
}
