/** The columns an event is found by (`database/query/query.go` and the triggers of `database/query/ddl`): its rows in
    `event_tags`, its topics, its language and its `d` value. */
module EventRows {
  import opened Optional
  import opened Nostr
  import opened FilterMatch
  import opened FilterSql
  import opened Addresses

  // ---- Rows of `event_tags`

  /** The tag keys the table keeps. */
  predicate IsIndexable(key: string) {
    |key| == 1 || key in {"summary", "name", "description", "title", "poll", "ox", "token", "relay", "tx_type"}
  }

  function Column(t: Tag, i: nat): string {
    if i < |t| then t[i] else ""
  }

  /** The key and five values; a missing value is the empty string. */
  function TagRow(t: Tag): Tag {
    [Column(t, 0), Column(t, 1), Column(t, 2), Column(t, 3), Column(t, 4), Column(t, 5)]
  }

  /** The primary key: tag key, first and third value. */
  predicate SameKey(r: Tag, s: Tag) {
    Column(r, 0) == Column(s, 0) && Column(r, 1) == Column(s, 1) && Column(r, 3) == Column(s, 3)
  }

  predicate HasKey(rows: seq<Tag>, t: Tag) {
    exists r :: r in rows && SameKey(r, t)
  }

  /** Tags are inserted in order; on a conflict of primary keys nothing is done. */
  function TagRows(tags: seq<Tag>): seq<Tag> {
    if tags == [] then []
    else
      var rows, t := TagRows(tags[..|tags| - 1]), tags[|tags| - 1];
      if IsIndexable(Key(t)) && !HasKey(rows, t) then rows + [TagRow(t)] else rows
  }

  predicate IsRowOf(r: Tag, t: Tag) {
    IsIndexable(Key(t)) && r == TagRow(t)
  }

  lemma {:induction false} RowsComeFromTags(tags: seq<Tag>)
    ensures forall r :: r in TagRows(tags) ==> exists t :: t in tags && IsRowOf(r, t)
  {
    hide IsIndexable, TagRow, HasKey;
    if tags != [] {
      var init, last := tags[..|tags| - 1], tags[|tags| - 1];
      RowsComeFromTags(init);
      forall r | r in TagRows(tags)
        ensures exists t :: t in tags && IsRowOf(r, t)
      {
        if r in TagRows(init) {
          var t :| t in init && IsRowOf(r, t);
          assert t in tags;
        } else {
          assert last in tags && IsRowOf(r, last);
        }
      }
    }
  }

  lemma {:induction false} TagsReachRows(tags: seq<Tag>)
    ensures forall t :: t in tags && IsIndexable(Key(t)) ==> HasKey(TagRows(tags), t)
  {
    hide IsIndexable;
    if tags != [] {
      var init, last := tags[..|tags| - 1], tags[|tags| - 1];
      TagsReachRows(init);
      forall t | t in tags && IsIndexable(Key(t))
        ensures HasKey(TagRows(tags), t)
      {
        if t in init {
          var r :| r in TagRows(init) && SameKey(r, t);
          assert r in TagRows(tags);
        } else if !HasKey(TagRows(init), last) {
          assert tags == init + [last] && t == last;
          assert TagRow(last) in TagRows(tags) && SameKey(TagRow(last), last);
        }
      }
    }
  }

  /** An alternative whose every value the table can show: at most five, and none that asks for an empty value. */
  predicate Showable(alt: TagValues) {
    |alt| <= MAX_TAG_VALUES && forall j :: 0 <= j < |alt| ==> alt[j] != Some("")
  }

  /** An alternative that asks for nothing outside the primary key. */
  predicate WithinKey(alt: TagValues) {
    forall j :: 0 <= j < |alt| && alt[j].Some? ==> j in {0, 2}
  }

  /** Everything the tag says, the row says. */
  predicate Covers(r: Tag, t: Tag) {
    |r| == MAX_TAG_VALUES + 1 && r[0] == Key(t) &&
    forall i :: 0 < i <= MAX_TAG_VALUES && Column(t, i) != "" ==> r[i] == Column(t, i)
  }

  predicate IsCovered(rows: seq<Tag>, t: Tag) {
    exists r :: r in rows && Covers(r, t)
  }

  /** No tag that is kept out by the primary key says more than the rows that are there. */
  predicate NoneLost(tags: seq<Tag>) {
    forall t :: t in tags && IsIndexable(Key(t)) ==> IsCovered(TagRows(tags), t)
  }

  /** The table finds a tag exactly when the event has it. */
  predicate RowsTell(tags: seq<Tag>, name: string, alt: TagValues) {
    HasTag(TagRows(tags), name, alt) <==> HasTag(tags, name, alt)
  }

  lemma RowFits(t: Tag, alt: TagValues)
    requires Showable(alt)
    ensures AltMatches(alt, TagRow(t)) <==> AltMatches(alt, t)
  {
    var r := TagRow(t);
    forall j | 0 <= j < |alt|
      ensures alt[j].Some? ==> r[j + 1] == Column(t, j + 1)
    {
    }
  }

  lemma CoveringRowFits(r: Tag, t: Tag, alt: TagValues)
    requires Showable(alt) && Covers(r, t) && AltMatches(alt, t)
    ensures AltMatches(alt, r) && r != [] && r[0] == Key(t)
  {
    forall j | 0 <= j < |alt| && alt[j].Some?
      ensures r[j + 1] == alt[j].value
    {
      assert Column(t, j + 1) == alt[j].value;
    }
  }

  lemma KeyedRowFits(r: Tag, t: Tag, alt: TagValues)
    requires WithinKey(alt) && Showable(alt) && SameKey(r, t) && |r| == MAX_TAG_VALUES + 1 && AltMatches(alt, t)
    ensures AltMatches(alt, r)
  {
    forall j | 0 <= j < |alt| && alt[j].Some?
      ensures r[j + 1] == alt[j].value
    {
      assert Column(r, j + 1) == Column(t, j + 1) == alt[j].value;
    }
  }

  /** The table never finds what the event does not have. */
  lemma NothingInvented(tags: seq<Tag>, name: string, alt: TagValues)
    requires Showable(alt) && name != "" && HasTag(TagRows(tags), name, alt)
    ensures HasTag(tags, name, alt)
  {
    hide Showable, AltMatches, TagRows;
    RowsComeFromTags(tags);
    var r :| r in TagRows(tags) && r != [] && r[0] == name && AltMatches(alt, r);
    var t :| t in tags && IsRowOf(r, t);
    RowFits(t, alt);
    assert t != [] && t[0] == name;
  }

  lemma KeyedTagIsFound(tags: seq<Tag>, t: Tag, name: string, alt: TagValues)
    requires IsIndexable(name) && Showable(alt) && WithinKey(alt) && t in tags && t != [] && t[0] == name && AltMatches(alt, t)
    ensures HasTag(TagRows(tags), name, alt)
  {
    hide IsIndexable, Showable, AltMatches, TagRows, WithinKey;
    TagsReachRows(tags);
    RowsComeFromTags(tags);
    var r :| r in TagRows(tags) && SameKey(r, t);
    var s :| s in tags && IsRowOf(r, s);
    KeyedRowFits(r, t, alt);
  }

  /** Inside the primary key nothing is lost; outside it nothing is lost when no tag is. */
  lemma RowsFind(tags: seq<Tag>, name: string, alt: TagValues)
    requires IsIndexable(name) && Showable(alt) && (WithinKey(alt) || NoneLost(tags))
    ensures RowsTell(tags, name, alt)
  {
    assert name != "";
    hide IsIndexable, Showable, AltMatches, TagRows, WithinKey, Covers;
    if HasTag(TagRows(tags), name, alt) {
      NothingInvented(tags, name, alt);
    }
    if t :| t in tags && t != [] && t[0] == name && AltMatches(alt, t) {
      if WithinKey(alt) {
        KeyedTagIsFound(tags, t, name, alt);
      } else {
        var r :| r in TagRows(tags) && Covers(r, t);
        CoveringRowFits(r, t, alt);
      }
    }
  }

  /** The alternative that asks for everything a tag says. */
  function AllOf(t: Tag): TagValues {
    seq(MAX_TAG_VALUES, (j: nat) => if Column(t, j + 1) == "" then None else Some(Column(t, j + 1)))
  }

  lemma AllOfFits(t: Tag)
    requires t != []
    ensures Showable(AllOf(t)) && AltMatches(AllOf(t), t)
    ensures forall s :: IsIndexable(Key(s)) && Key(s) == Key(t) && AltMatches(AllOf(t), TagRow(s)) ==> Covers(TagRow(s), t)
  {
    forall s | Key(s) == Key(t) && IsIndexable(Key(s)) && AltMatches(AllOf(t), TagRow(s))
      ensures Covers(TagRow(s), t)
    {
      var r := TagRow(s);
      forall i | 0 < i <= MAX_TAG_VALUES && Column(t, i) != ""
        ensures r[i] == Column(t, i)
      {
        assert AllOf(t)[i - 1] == Some(Column(t, i));
      }
    }
  }

  /** The table answers every question about an event's tags rightly exactly when the primary key loses none. */
  lemma RowsTellExactly(tags: seq<Tag>)
    ensures (forall name, alt :: IsIndexable(name) && Showable(alt) ==> RowsTell(tags, name, alt)) <==> NoneLost(tags)
  {
    hide RowsTell, NoneLost, Showable, IsIndexable;
    if NoneLost(tags) {
      forall name, alt | IsIndexable(name) && Showable(alt)
        ensures RowsTell(tags, name, alt)
      {
        RowsFind(tags, name, alt);
      }
    } else {
      var t := LostTag(tags);
      LostIsMissed(tags, t);
      assert !RowsTell(tags, Key(t), AllOf(t));
    }
  }

  lemma LostTag(tags: seq<Tag>) returns (t: Tag)
    requires !NoneLost(tags)
    ensures t in tags && IsIndexable(Key(t)) && !IsCovered(TagRows(tags), t)
  {
    t :| t in tags && IsIndexable(Key(t)) && !IsCovered(TagRows(tags), t);
  }

  lemma LostIsMissed(tags: seq<Tag>, t: Tag)
    requires t in tags && IsIndexable(Key(t)) && !IsCovered(TagRows(tags), t)
    ensures Showable(AllOf(t)) && !RowsTell(tags, Key(t), AllOf(t))
  {
    hide AllOf, TagRows, AltMatches, Covers, Showable, TagRow;
    AllOfFits(t);
    assert HasTag(tags, Key(t), AllOf(t));
    if HasTag(TagRows(tags), Key(t), AllOf(t)) {
      RowsComeFromTags(tags);
      var r :| r in TagRows(tags) && r != [] && r[0] == Key(t) && AltMatches(AllOf(t), r);
      var s :| s in tags && IsRowOf(r, s);
      KeyOfRow(s);
    }
  }

  lemma KeyOfRow(t: Tag)
    ensures Key(TagRow(t)) == Key(t)
  {
  }

  /** Two references to one event through different relays: the table keeps the first only. */
  lemma SecondRelayIsLost(id: string)
    requires id != ""
    ensures !NoneLost([["e", id, "r"], ["e", id, "s"]])
  {
    hide TagRows;
    var t, u := ["e", id, "r"], ["e", id, "s"];
    var alt: TagValues := [Some(id), Some("s")];
    RowsSnoc([], t);
    RowsSnoc([t], u);
    assert [] + [t] == [t] && [t] + [u] == [t, u];
    assert SameKey(TagRow(t), u) && TagRow(t) in TagRows([t]);
    assert TagRows([t, u]) == [TagRow(t)];
    assert !Covers(TagRow(t), u) by {
      assert TagRow(t)[2] == "r" && Column(u, 2) == "s";
    }
    assert u in [t, u];
  }

  lemma RowsSnoc(tags: seq<Tag>, t: Tag)
    ensures TagRows([]) == []
    ensures TagRows(tags + [t]) ==
            if IsIndexable(Key(t)) && !HasKey(TagRows(tags), t) then TagRows(tags) + [TagRow(t)] else TagRows(tags)
  {
    assert (tags + [t])[..|tags|] == tags;
  }

  // ---- Topics

  predicate NamesTopic(tags: seq<Tag>, topic: string) {
    topic != "" && exists t :: t in tags && Key(t) == "t" && Value(t) == topic
  }

  ghost predicate ShowsTopics(tTags: seq<string>, tags: seq<Tag>) {
    forall topic :: topic in tTags <==> NamesTopic(tags, topic)
  }

  // ---- Language

  const LANG_ISO := "ISO-639-1"

  predicate IsLanguageTag(t: Tag) {
    |t| > 2 && t[0] == "l" && t[1] != "" && t[2] == LANG_ISO
  }

  /** The language of the last tag that has one, empty without. */
  function LangOf(tags: seq<Tag>): string {
    if tags == [] then ""
    else if IsLanguageTag(tags[|tags| - 1]) then tags[|tags| - 1][1]
    else LangOf(tags[..|tags| - 1])
  }

  lemma LangSnoc(tags: seq<Tag>, t: Tag)
    ensures LangOf(tags + [t]) == if IsLanguageTag(t) then t[1] else LangOf(tags)
  {
    assert (tags + [t])[..|tags|] == tags;
  }

  predicate NamesLanguage(tags: seq<Tag>, v: string) {
    exists t :: t in tags && IsLanguageTag(t) && t[1] == v
  }

  lemma {:induction false} LangIsNamed(tags: seq<Tag>)
    ensures forall v :: NamesLanguage(tags, v) ==> v != "" && LangOf(tags) != ""
    ensures LangOf(tags) != "" ==> NamesLanguage(tags, LangOf(tags))
  {
    if tags != [] {
      var init, last := tags[..|tags| - 1], tags[|tags| - 1];
      LangIsNamed(init);
      assert tags == init + [last] && last in tags;
      forall v
        ensures NamesLanguage(tags, v) <==> NamesLanguage(init, v) || (IsLanguageTag(last) && last[1] == v)
      {
      }
    }
  }

  lemma {:induction false} LangConcat(a: seq<Tag>, b: seq<Tag>)
    ensures LangOf(a + b) == if LangOf(b) != "" then LangOf(b) else LangOf(a)
  {
    if b == [] {
      assert a + b == a;
    } else {
      LangConcat(a, b[..|b| - 1]);
      assert (a + b)[..|a + b| - 1] == a + b[..|b| - 1];
    }
  }

  /** A list of languages, each written as the column keeps it. */
  predicate LanguageList(alts: seq<TagValues>) {
    alts != [] && forall i :: 0 <= i < |alts| ==>
      |alts[i]| == 2 && alts[i][0].Some? && alts[i][0].value != "" && alts[i][1] == Some(LANG_ISO)
  }

  predicate LanguageFits(alts: seq<TagValues>, v: string) {
    exists i :: 0 <= i < |alts| && alts[i] == [Some(v), Some(LANG_ISO)]
  }

  lemma LanguageOfTag(alts: seq<TagValues>, t: Tag)
    requires LanguageList(alts)
    ensures TagSatisfies("l", alts, t) <==> IsLanguageTag(t) && LanguageFits(alts, t[1])
  {
    assert Constrains(alts[0]);
    forall i | 0 <= i < |alts|
      ensures Constrains(alts[i])
      ensures alts[i] == [Some(alts[i][0].value), Some(LANG_ISO)]
      ensures Key(t) == "l" ==> (AltMatches(alts[i], t) <==> IsLanguageTag(t) && alts[i] == [Some(t[1]), Some(LANG_ISO)])
    {
    }
  }

  lemma LanguageInMemory(alts: seq<TagValues>, tags: seq<Tag>)
    requires LanguageList(alts)
    ensures NameMatches("l", alts, tags) <==> exists v :: NamesLanguage(tags, v) && LanguageFits(alts, v)
  {
    hide LanguageList, LanguageFits, TagSatisfies;
    if NameMatches("l", alts, tags) {
      var k :| 0 <= k < |tags| && TagSatisfies("l", alts, tags[k]);
      LanguageOfTag(alts, tags[k]);
      assert NamesLanguage(tags, tags[k][1]);
    }
    if v :| NamesLanguage(tags, v) && LanguageFits(alts, v) {
      var t :| t in tags && IsLanguageTag(t) && t[1] == v;
      var k :| 0 <= k < |tags| && tags[k] == t;
      LanguageOfTag(alts, tags[k]);
    }
  }

  lemma LanguageInDatabase(alts: seq<TagValues>)
    requires LanguageList(alts)
    ensures LanguagesIn(alts) != {} && forall v :: v in LanguagesIn(alts) <==> LanguageFits(alts, v)
  {
    forall i | 0 <= i < |alts|
      ensures IsLanguage(alts[i]) && alts[i] == [Some(LanguageOf(alts[i])), Some(LANG_ISO)]
    {
    }
    assert LanguageOf(alts[0]) in LanguagesIn(alts);
  }

  predicate LanguagesTell(alts: seq<TagValues>, tags: seq<Tag>, lang: string) {
    lang in LanguagesIn(alts) <==> NameMatches("l", alts, tags)
  }

  /** The event is in one language, and the event it carries, by its last language tag, in no other. */
  ghost predicate OneLanguage(tags: seq<Tag>, carried: seq<Tag>) {
    && (forall v, w :: NamesLanguage(tags, v) && NamesLanguage(tags, w) ==> v == w)
    && (LangOf(carried) != "" ==> NamesLanguage(tags, LangOf(carried)))
  }

  lemma LanguagesAgree(alts: seq<TagValues>, tags: seq<Tag>, carried: seq<Tag>, lang: string)
    requires LanguageList(alts) && lang == LangOf(tags + carried) && OneLanguage(tags, carried)
    ensures LanguagesTell(alts, tags, lang)
  {
    LangConcat(tags, carried);
    LangIsNamed(tags);
    LanguageInMemory(alts, tags);
    LanguageInDatabase(alts);
    assert !LanguageFits(alts, "");
    hide NamesLanguage, LangOf, LanguageFits, LanguagesIn, NameMatches, LanguageList;
  }

  /** The column keeps one language of an event. It answers every list of languages rightly exactly when the event is in
      one language and carries no event in another. */
  lemma LanguagesTellExactly(tags: seq<Tag>, carried: seq<Tag>, lang: string)
    requires lang == LangOf(tags + carried)
    ensures (forall alts :: LanguageList(alts) ==> LanguagesTell(alts, tags, lang)) <==> OneLanguage(tags, carried)
  {
    if OneLanguage(tags, carried) {
      forall alts | LanguageList(alts)
        ensures LanguagesTell(alts, tags, lang)
      {
        LanguagesAgree(alts, tags, carried, lang);
      }
    } else {
      LangConcat(tags, carried);
      LangIsNamed(tags);
      hide NamesLanguage, LangOf, LanguagesTell;
      if v :| NamesLanguage(tags, v) && v != lang {
        WrongLanguage(v, tags, lang);
      } else {
        WrongLanguage(lang, tags, lang);
      }
    }
  }

  lemma WrongLanguage(v: string, tags: seq<Tag>, lang: string)
    requires v != "" && NamesLanguage(tags, v) != (v == lang)
    ensures LanguageList([[Some(v), Some(LANG_ISO)]]) && !LanguagesTell([[Some(v), Some(LANG_ISO)]], tags, lang)
  {
    hide NamesLanguage, NameMatches, LanguagesIn;
    var alts: seq<TagValues> := [[Some(v), Some(LANG_ISO)]];
    LanguageInMemory(alts, tags);
    LanguageInDatabase(alts);
    assert alts[0] == [Some(v), Some(LANG_ISO)];
    assert forall w :: LanguageFits(alts, w) <==> w == v;
  }

  lemma TopicsSnoc(tags: seq<Tag>, t: Tag)
    ensures forall topic :: NamesTopic(tags + [t], topic) <==>
                              NamesTopic(tags, topic) || (topic != "" && Key(t) == "t" && Value(t) == topic)
  {
    forall topic
      ensures NamesTopic(tags + [t], topic) <==>
                NamesTopic(tags, topic) || (topic != "" && Key(t) == "t" && Value(t) == topic)
    {
      assert forall u :: u in tags + [t] <==> u in tags || u == t;
    }
  }

  predicate IsAlone(alt: TagValues, v: string) {
    |alt| > 0 && alt[0] == Some(v) && forall j :: 0 < j < |alt| ==> alt[j].None?
  }

  predicate ListsAlone(alts: seq<TagValues>, v: string) {
    exists i :: 0 <= i < |alts| && IsAlone(alts[i], v)
  }

  predicate StartsNamed(alt: TagValues) {
    |alt| > 0 && alt[0].Some? && alt[0].value != ""
  }

  /** A topic entry that memory reads the way the column does: what constrains starts with a topic, and each topic named
      anywhere is also an alternative alone. */
  predicate TopicEntry(alts: seq<TagValues>) {
    && HasValues(alts)
    && (forall i :: 0 <= i < |alts| && Constrains(alts[i]) ==> StartsNamed(alts[i]))
    && (forall v :: v in Topics(alts) && v != "" ==> ListsAlone(alts, v))
  }

  /** Every topic of the carried event is also a topic of the event itself. */
  ghost predicate NoBorrowedTopic(tags: seq<Tag>, carried: seq<Tag>) {
    forall topic :: NamesTopic(carried, topic) ==> NamesTopic(tags, topic)
  }

  lemma TopicInMemory(alts: seq<TagValues>, tags: seq<Tag>)
    requires TopicEntry(alts)
    ensures NameMatches("t", alts, tags) <==> exists topic :: NamesTopic(tags, topic) && topic in Topics(alts)
  {
    hide TopicEntry, TagSatisfies, Topics;
    if NameMatches("t", alts, tags) {
      var k :| 0 <= k < |tags| && TagSatisfies("t", alts, tags[k]);
      TopicOfTag(alts, tags[k]);
      assert NamesTopic(tags, Value(tags[k]));
    }
    if topic :| NamesTopic(tags, topic) && topic in Topics(alts) {
      var t :| t in tags && Key(t) == "t" && Value(t) == topic;
      var k :| 0 <= k < |tags| && tags[k] == t;
      TopicOfTag(alts, tags[k]);
    }
  }

  lemma TopicOfTag(alts: seq<TagValues>, t: Tag)
    requires TopicEntry(alts)
    ensures TagSatisfies("t", alts, t) <==> Key(t) == "t" && Value(t) != "" && Value(t) in Topics(alts)
  {
    if TagSatisfies("t", alts, t) {
      var i :| 0 <= i < |alts| && Constrains(alts[i]) && AltMatches(alts[i], t);
      assert StartsNamed(alts[i]) && alts[i][0].Some? && alts[i][0].value == Value(t);
    }
    if Key(t) == "t" && Value(t) != "" && Value(t) in Topics(alts) {
      assert ListsAlone(alts, Value(t));
      var i :| 0 <= i < |alts| && IsAlone(alts[i], Value(t));
      assert alts[i][0].Some? && Constrains(alts[i]) && AltMatches(alts[i], t);
    }
  }

  lemma SomeTopic(alts: seq<TagValues>)
    requires HasValues(alts)
    ensures Topics(alts) != {}
  {
    var i :| 0 <= i < |alts| && Constrains(alts[i]);
    var j :| 0 <= j < |alts[i]| && alts[i][j].Some?;
    assert alts[i][j].value in Topics(alts);
  }

  predicate TopicsTell(alts: seq<TagValues>, tags: seq<Tag>, row: Row) {
    HasTopic(row, Topics(alts)) <==> NameMatches("t", alts, tags)
  }

  lemma TopicsAgree(alts: seq<TagValues>, tags: seq<Tag>, carried: seq<Tag>, row: Row)
    requires TopicEntry(alts) && ShowsTopics(row.tTags, tags + carried) && NoBorrowedTopic(tags, carried)
    ensures TopicsTell(alts, tags, row)
  {
    hide TopicEntry, NameMatches, Topics, NamesTopic;
    TopicInMemory(alts, tags);
    TopicsConcat(tags, carried);
  }

  lemma TopicsConcat(a: seq<Tag>, b: seq<Tag>)
    ensures forall topic :: NamesTopic(a + b, topic) <==> NamesTopic(a, topic) || NamesTopic(b, topic)
  {
    forall topic
      ensures NamesTopic(a + b, topic) <==> NamesTopic(a, topic) || NamesTopic(b, topic)
    {
      assert forall t :: t in a + b <==> t in a || t in b;
    }
  }

  /** The topics column answers every such entry rightly exactly when nothing is borrowed from a carried event. */
  lemma TopicsTellExactly(tags: seq<Tag>, carried: seq<Tag>, row: Row)
    requires ShowsTopics(row.tTags, tags + carried)
    ensures (forall alts :: TopicEntry(alts) ==> TopicsTell(alts, tags, row)) <==> NoBorrowedTopic(tags, carried)
  {
    hide NamesTopic, TopicsTell, TopicEntry;
    if NoBorrowedTopic(tags, carried) {
      forall alts | TopicEntry(alts)
        ensures TopicsTell(alts, tags, row)
      {
        TopicsAgree(alts, tags, carried, row);
      }
    } else {
      var topic :| NamesTopic(carried, topic) && !NamesTopic(tags, topic);
      BorrowedIsFound(topic, tags, carried, row);
    }
  }

  lemma BorrowedIsFound(topic: string, tags: seq<Tag>, carried: seq<Tag>, row: Row)
    requires ShowsTopics(row.tTags, tags + carried) && NamesTopic(carried, topic) && !NamesTopic(tags, topic)
    ensures TopicEntry([[Some(topic)]]) && !TopicsTell([[Some(topic)]], tags, row)
  {
    var alts: seq<TagValues> := [[Some(topic)]];
    assert NamesTopic(carried, topic) ==> topic != "";
    hide NameMatches, NamesTopic;
    assert alts[0][0].Some? && alts[0][0].value == topic && Constrains(alts[0]) && IsAlone(alts[0], topic);
    assert Topics(alts) == {topic};
    hide Topics;
    TopicInMemory(alts, tags);
    TopicsConcat(tags, carried);
    assert topic in row.tTags;
  }

  // ---- The `d` column

  predicate NamesD(tags: seq<Tag>, d: string) {
    exists t :: t in tags && |t| > 1 && t[0] == "d" && t[1] == d
  }

  /** All values that `d` tags name are one value; what is empty names none. */
  predicate OneD(tags: seq<Tag>) {
    forall i, j :: 0 <= i < j < |tags| && IsD(tags[i]) && IsD(tags[j]) && tags[i][1] != "" && tags[j][1] != "" ==>
                     tags[i][1] == tags[j][1]
  }

  /** An empty `d` value comes before all others. */
  predicate BlankFirst(tags: seq<Tag>) {
    exists i, j :: 0 <= i < j < |tags| && IsFirstD(tags, i) && tags[i][1] == "" && IsD(tags[j]) && tags[j][1] != ""
  }

  /** The `d` column tells for every value whether the event has it exactly when the `d` tags name one value and no
      empty one comes first. */
  lemma DTellsExactly(tags: seq<Tag>)
    ensures (forall d :: d != "" ==> (GetD(tags) == d <==> NamesD(tags, d))) <==> OneD(tags) && !BlankFirst(tags)
  {
    var first := GetDIsFirst(tags);
    hide GetD;
    if OneD(tags) && !BlankFirst(tags) {
      forall d | d != ""
        ensures GetD(tags) == d <==> NamesD(tags, d)
      {
        if t :| t in tags && |t| > 1 && t[0] == "d" && t[1] == d {
          var j :| 0 <= j < |tags| && tags[j] == t;
          assert IsD(tags[j]) && first <= j;
        }
      }
    } else {
      WrongD(tags, first);
    }
  }

  lemma WrongD(tags: seq<Tag>, first: int)
    requires !OneD(tags) || BlankFirst(tags)
    requires first < 0 ==> forall k :: 0 <= k < |tags| ==> !IsD(tags[k])
    requires first >= 0 ==> IsFirstD(tags, first) && GetD(tags) == tags[first][1]
    ensures exists d :: d != "" && NamesD(tags, d) && GetD(tags) != d
  {
    if BlankFirst(tags) {
      var i, j :| 0 <= i < j < |tags| && IsFirstD(tags, i) && tags[i][1] == "" && IsD(tags[j]) && tags[j][1] != "";
      assert tags[j] in tags && NamesD(tags, tags[j][1]);
    } else {
      var i, j :| 0 <= i < j < |tags| && IsD(tags[i]) && IsD(tags[j]) && tags[i][1] != "" && tags[j][1] != "" && tags[i][1] != tags[j][1];
      assert tags[i] in tags && NamesD(tags, tags[i][1]) && tags[j] in tags && NamesD(tags, tags[j][1]);
    }
  }
}
