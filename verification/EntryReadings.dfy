/** Which entries of a filter's tag map the WHERE text and the in-memory match read alike on all events, and an event
    they differ on for every other entry. */
module EntryReadings {
  import opened Optional
  import opened Nostr
  import opened FilterMatch
  import opened FilterSql
  import opened EventRows

  /** What the WHERE text asks of a row for one entry. */
  predicate EntryAllows(name: string, alts: seq<TagValues>, row: Row) {
    if name == "t" then Topics(alts) != {} ==> HasTopic(row, Topics(alts))
    else if name == "!t" then !HasTopic(row, Topics(alts))
    else TagAllows(name, alts, row) && (name == "l" && LanguagesIn(alts) != {} ==> row.lang in LanguagesIn(alts))
  }

  predicate Alike(name: string, alts: seq<TagValues>, tags: seq<Tag>, row: Row) {
    EntryAllows(name, alts, row) <==> NameMatches(name, alts, tags)
  }

  /** The columns an entry is compared with. */
  ghost predicate ShowsTags(row: Row, tags: seq<Tag>, carried: seq<Tag>) {
    row.tags == TagRows(tags) && ShowsTopics(row.tTags, tags + carried) && row.lang == LangOf(tags + carried)
  }

  /** Every tag that the table keeps has its own row. */
  predicate AllKept(tags: seq<Tag>) {
    forall t :: t in tags && IsIndexable(Key(t)) ==> TagRow(t) in TagRows(tags)
  }

  /** An event that the columns tell everything about. */
  ghost predicate Plain(tags: seq<Tag>, carried: seq<Tag>) {
    AllKept(tags) && NoBorrowedTopic(tags, carried) && OneLanguage(tags, carried)
  }

  ghost predicate ReadAlike(name: string, alts: seq<TagValues>) {
    forall tags, carried, row :: Plain(tags, carried) && ShowsTags(row, tags, carried) ==> Alike(name, alts, tags, row)
  }

  // ---- The condition

  /** Whatever the first asks for, the second asks for too. */
  predicate Weaker(w: TagValues, a: TagValues) {
    forall j :: 0 <= j < |w| && w[j].Some? ==> j < |a| && a[j] == w[j]
  }

  /** The last value asked for is not empty, and among the first five. */
  predicate Readable(w: TagValues) {
    exists q :: 0 <= q < |w| && EndsAt(w, q)
  }

  predicate EndsAt(w: TagValues, q: int) {
    0 <= q < |w| && q < MAX_TAG_VALUES && w[q].Some? && w[q].value != "" && forall j :: q < j < |w| ==> w[j].None?
  }

  predicate HasReadable(alts: seq<TagValues>, a: TagValues) {
    exists k :: 0 <= k < |alts| && Weaker(alts[k], a) && Readable(alts[k])
  }

  /** Each alternative that constrains is covered by one that can be read off a row. */
  predicate PositionEntry(alts: seq<TagValues>) {
    forall i :: 0 <= i < |alts| && Constrains(alts[i]) ==> HasReadable(alts, alts[i])
  }

  predicate HasLanguage(alts: seq<TagValues>) {
    exists i :: 0 <= i < |alts| && IsLanguage(alts[i])
  }

  predicate OnlyLanguages(alts: seq<TagValues>) {
    forall i :: 0 <= i < |alts| && Constrains(alts[i]) ==> IsLanguage(alts[i])
  }

  predicate StartsLanguage(alts: seq<TagValues>, a: TagValues) {
    |a| >= 2 && a[0].Some? && a[0].value != "" && a[1] == Some(LANG_ISO) && a[0].value in LanguagesIn(alts)
  }

  predicate IsLonger(a: TagValues, v: string) {
    && |a| > 2 && a[0] == Some(v) && a[1] == Some(LANG_ISO)
    && forall j :: 2 <= j < |a| && j < MAX_TAG_VALUES ==> a[j].None?
  }

  predicate ListsLonger(alts: seq<TagValues>, v: string) {
    exists i :: 0 <= i < |alts| && IsLonger(alts[i], v)
  }

  /** With languages, all that constrains names a listed language in its written form; and if anything else is listed
      beside the languages, each of them is listed there too. */
  predicate LanguageEntry(alts: seq<TagValues>) {
    && (forall i :: 0 <= i < |alts| && Constrains(alts[i]) ==> StartsLanguage(alts, alts[i]))
    && (OnlyLanguages(alts) || forall v :: v in LanguagesIn(alts) ==> ListsLonger(alts, v))
  }

  predicate EntryFits(name: string, alts: seq<TagValues>) {
    if name == "t" then TopicEntry(alts)
    else if Excludes(name) || !IsIndexable(name) then false
    else if name == "l" && HasLanguage(alts) then LanguageEntry(alts)
    else PositionEntry(alts)
  }

  // ---- Entries read by position

  lemma KeptIsCovered(tags: seq<Tag>)
    requires AllKept(tags)
    ensures NoneLost(tags)
  {
    hide IsIndexable, TagRows;
    forall t | t in tags && IsIndexable(Key(t))
      ensures IsCovered(TagRows(tags), t)
    {
      assert Covers(TagRow(t), t);
    }
  }

  /** What a tag fits, its row fits. */
  lemma RowFitsToo(t: Tag, a: TagValues)
    requires AltMatches(a, t)
    ensures AltMatches(Cut(a), TagRow(t))
  {
    var r, c := TagRow(t), Cut(a);
    forall j | 0 <= j < |c| && c[j].Some?
      ensures r[j + 1] == c[j].value
    {
      assert c[j] == a[j] && r[j + 1] == Column(t, j + 1);
    }
  }

  /** What the row fits, the tag fits, if it can be read off the row. */
  lemma ReadableFits(t: Tag, w: TagValues)
    requires Readable(w) && AltMatches(Cut(w), TagRow(t))
    ensures AltMatches(w, t)
  {
    var r, c := TagRow(t), Cut(w);
    var q :| 0 <= q < |w| && EndsAt(w, q);
    assert c[q] == w[q] && r[q + 1] == Column(t, q + 1);
    assert q + 1 < |t|;
    forall j | 0 <= j < |w| && w[j].Some?
      ensures j + 1 < |t| && t[j + 1] == w[j].value
    {
      assert j <= q && c[j] == w[j] && r[j + 1] == Column(t, j + 1);
    }
  }

  lemma WeakerFits(w: TagValues, a: TagValues, r: Tag)
    requires Weaker(w, a) && AltMatches(Cut(a), r)
    ensures AltMatches(Cut(w), r)
  {
    var c, d := Cut(w), Cut(a);
    forall j | 0 <= j < |c| && c[j].Some?
      ensures j + 1 < |r| && r[j + 1] == c[j].value
    {
      assert c[j] == w[j] && d[j] == a[j];
    }
  }

  lemma ReadableConstrains(w: TagValues)
    requires Readable(w)
    ensures Constrains(w)
  {
  }

  lemma ByPosition(name: string, alts: seq<TagValues>, row: Row)
    requires !Excludes(name) && !(name == "l" && HasLanguage(alts))
    ensures TagAllows(name, alts, row) <==>
              if HasValues(alts) then exists i :: 0 <= i < |alts| && Constrains(alts[i]) && HasTag(row.tags, name, Cut(alts[i]))
              else HasTag(row.tags, name, [])
  {
    hide Constrains, HasTag, Cut, IsLanguage;
    assert forall i :: 0 <= i < |alts| ==> (Counts(name, alts[i]) <==> Constrains(alts[i]));
  }

  lemma PositionsAgree(name: string, alts: seq<TagValues>, tags: seq<Tag>, row: Row)
    requires name != "" && !Excludes(name) && IsIndexable(name) && !(name == "l" && HasLanguage(alts)) && PositionEntry(alts)
    requires AllKept(tags) && row.tags == TagRows(tags)
    ensures TagAllows(name, alts, row) <==> NameMatches(name, alts, tags)
  {
    ByPosition(name, alts, row);
    hide TagAllows, IsIndexable, TagRows, PositionEntry;
    if TagAllows(name, alts, row) {
      RowIsOfTag(name, alts, tags, row);
    }
    if NameMatches(name, alts, tags) {
      TagHasRow(name, alts, tags, row);
    }
  }

  lemma RowIsOfTag(name: string, alts: seq<TagValues>, tags: seq<Tag>, row: Row)
    requires name != "" && PositionEntry(alts) && row.tags == TagRows(tags)
    requires if HasValues(alts) then exists i :: 0 <= i < |alts| && Constrains(alts[i]) && HasTag(row.tags, name, Cut(alts[i]))
             else HasTag(row.tags, name, [])
    ensures NameMatches(name, alts, tags)
  {
    RowsComeFromTags(tags);
    hide IsIndexable, TagRows, TagRow, Cut, AltMatches, Constrains, Readable, Weaker;
    if HasValues(alts) {
      var i :| 0 <= i < |alts| && Constrains(alts[i]) && HasTag(row.tags, name, Cut(alts[i]));
      var r :| r in row.tags && r != [] && r[0] == name && AltMatches(Cut(alts[i]), r);
      var t :| t in tags && IsRowOf(r, t);
      KeyOfRow(t);
      var k :| 0 <= k < |alts| && Weaker(alts[k], alts[i]) && Readable(alts[k]);
      WeakerFits(alts[k], alts[i], r);
      ReadableFits(t, alts[k]);
      ReadableConstrains(alts[k]);
      var j :| 0 <= j < |tags| && tags[j] == t;
      assert TagSatisfies(name, alts, tags[j]);
    } else {
      var r :| r in row.tags && r != [] && r[0] == name;
      var t :| t in tags && IsRowOf(r, t);
      KeyOfRow(t);
      var j :| 0 <= j < |tags| && tags[j] == t;
      assert TagSatisfies(name, alts, tags[j]);
    }
  }

  lemma TagHasRow(name: string, alts: seq<TagValues>, tags: seq<Tag>, row: Row)
    requires name != "" && IsIndexable(name) && AllKept(tags) && row.tags == TagRows(tags) && NameMatches(name, alts, tags)
    ensures if HasValues(alts) then exists i :: 0 <= i < |alts| && Constrains(alts[i]) && HasTag(row.tags, name, Cut(alts[i]))
            else HasTag(row.tags, name, [])
  {
    var j :| 0 <= j < |tags| && TagSatisfies(name, alts, tags[j]);
    var t := tags[j];
    assert TagRow(t) in row.tags && TagRow(t) != [] && TagRow(t)[0] == name;
    hide IsIndexable, TagRows, TagRow, Cut, AltMatches, Constrains;
    if HasValues(alts) {
      var i :| 0 <= i < |alts| && Constrains(alts[i]) && AltMatches(alts[i], t);
      RowFitsToo(t, alts[i]);
      assert HasTag(row.tags, name, Cut(alts[i]));
    } else {
      assert AltMatches([], TagRow(t)) by {
        NothingAsked(TagRow(t));
      }
    }
  }

  lemma NothingAsked(t: Tag)
    ensures AltMatches([], t)
  {
  }

  // ---- Languages

  lemma LanguagesRead(alts: seq<TagValues>, tags: seq<Tag>)
    requires HasLanguage(alts) && LanguageEntry(alts)
    ensures NameMatches("l", alts, tags) <==> exists v :: NamesLanguage(tags, v) && v in LanguagesIn(alts)
  {
    hide LanguageEntry, LanguagesIn, TagSatisfies;
    if NameMatches("l", alts, tags) {
      var k :| 0 <= k < |tags| && TagSatisfies("l", alts, tags[k]);
      LanguageRead(alts, tags[k]);
      assert NamesLanguage(tags, tags[k][1]);
    }
    if v :| NamesLanguage(tags, v) && v in LanguagesIn(alts) {
      var t :| t in tags && IsLanguageTag(t) && t[1] == v;
      var k :| 0 <= k < |tags| && tags[k] == t;
      LanguageRead(alts, tags[k]);
    }
  }

  lemma LanguageConstrains(a: TagValues)
    requires IsLanguage(a)
    ensures Constrains(a)
  {
    assert a[0].Some?;
  }

  lemma StartFits(alts: seq<TagValues>, a: TagValues, t: Tag)
    requires StartsLanguage(alts, a) && Key(t) == "l"
    ensures AltMatches(a, t) ==> IsLanguageTag(t) && t[1] in LanguagesIn(alts)
    ensures |a| == 2 && IsLanguageTag(t) && t[1] == LanguageOf(a) ==> AltMatches(a, t)
  {
    hide LanguagesIn;
  }

  lemma LanguageRead(alts: seq<TagValues>, t: Tag)
    requires HasLanguage(alts) && LanguageEntry(alts)
    ensures TagSatisfies("l", alts, t) <==> IsLanguageTag(t) && t[1] in LanguagesIn(alts)
  {
    var i :| 0 <= i < |alts| && IsLanguage(alts[i]);
    LanguageConstrains(alts[i]);
    hide Constrains, AltMatches, StartsLanguage;
    if TagSatisfies("l", alts, t) {
      var k :| 0 <= k < |alts| && Constrains(alts[k]) && AltMatches(alts[k], t);
      StartFits(alts, alts[k], t);
    }
    if IsLanguageTag(t) && t[1] in LanguagesIn(alts) {
      var k :| 0 <= k < |alts| && IsLanguage(alts[k]) && LanguageOf(alts[k]) == t[1];
      LanguageConstrains(alts[k]);
      StartFits(alts, alts[k], t);
    }
  }

  lemma LanguagesNamed(alts: seq<TagValues>)
    requires HasLanguage(alts) && LanguageEntry(alts)
    ensures LanguagesIn(alts) != {} && "" !in LanguagesIn(alts)
  {
    var i :| 0 <= i < |alts| && IsLanguage(alts[i]);
    assert LanguageOf(alts[i]) in LanguagesIn(alts);
    forall k | 0 <= k < |alts| && IsLanguage(alts[k])
      ensures LanguageOf(alts[k]) != ""
    {
      assert alts[k][0].Some? && Constrains(alts[k]) && StartsLanguage(alts, alts[k]);
    }
  }

  /** The row of an event in a listed language passes what else is listed beside the languages. */
  lemma LongerIsFound(alts: seq<TagValues>, tags: seq<Tag>, v: string, row: Row)
    requires HasLanguage(alts) && LanguageEntry(alts) && NamesLanguage(tags, v) && v in LanguagesIn(alts)
    requires row.tags == TagRows(tags) && (OnlyLanguages(alts) || NoneLost(tags))
    ensures TagAllows("l", alts, row)
  {
    var i :| 0 <= i < |alts| && IsLanguage(alts[i]);
    LanguageConstrains(alts[i]);
    if OnlyLanguages(alts) {
      NothingElse(alts, row);
    } else {
      hide HasTag, TagRows, LanguagesIn, StartsLanguage, HasLanguage, NamesLanguage, NoneLost, IsLonger;
      var k :| 0 <= k < |alts| && IsLonger(alts[k], v);
      LongerCounts(alts[k], v);
      LanguageHasRow(tags, v, alts[k]);
      OneFound("l", alts, k, row);
    }
  }

  lemma NothingElse(alts: seq<TagValues>, row: Row)
    requires HasValues(alts) && OnlyLanguages(alts)
    ensures TagAllows("l", alts, row)
  {
    hide HasTag, HasValues, Constrains, IsLanguage;
  }

  lemma OneFound(name: string, alts: seq<TagValues>, k: nat, row: Row)
    requires k < |alts| && Counts(name, alts[k]) && !Excludes(name) && HasTag(row.tags, name, Cut(alts[k]))
    ensures TagAllows(name, alts, row)
  {
    hide HasTag, Constrains, IsLanguage, Cut;
  }

  lemma LongerCounts(a: TagValues, v: string)
    requires IsLonger(a, v)
    ensures Counts("l", a)
  {
    assert a[0].Some?;
  }

  lemma LanguageHasRow(tags: seq<Tag>, v: string, a: TagValues)
    requires NamesLanguage(tags, v) && NoneLost(tags) && IsLonger(a, v)
    ensures HasTag(TagRows(tags), "l", Cut(a))
  {
    hide TagRows, IsLonger, Cut;
    var t :| t in tags && IsLanguageTag(t) && t[1] == v;
    var r :| r in TagRows(tags) && Covers(r, t);
    assert Column(t, 1) == v && Column(t, 2) == LANG_ISO && r[1] == v && r[2] == LANG_ISO;
    LongerFits(a, v, r);
  }

  lemma LongerFits(a: TagValues, v: string, r: Tag)
    requires IsLonger(a, v) && |r| == MAX_TAG_VALUES + 1 && r[1] == v && r[2] == LANG_ISO
    ensures AltMatches(Cut(a), r)
  {
    var c := Cut(a);
    forall j | 0 <= j < |c| && c[j].Some?
      ensures r[j + 1] == c[j].value
    {
      assert c[j] == a[j];
    }
  }

  lemma LanguageEntryAgrees(alts: seq<TagValues>, tags: seq<Tag>, carried: seq<Tag>, row: Row)
    requires HasLanguage(alts) && LanguageEntry(alts) && OneLanguage(tags, carried)
    requires row.tags == TagRows(tags) && row.lang == LangOf(tags + carried) && (OnlyLanguages(alts) || NoneLost(tags))
    ensures Alike("l", alts, tags, row)
  {
    LangConcat(tags, carried);
    LangIsNamed(tags);
    LanguagesRead(alts, tags);
    LanguagesNamed(alts);
    hide NamesLanguage, LangOf, LanguagesIn, NameMatches, LanguageEntry, HasLanguage, TagAllows, NoneLost, OnlyLanguages;
    if row.lang in LanguagesIn(alts) {
      LongerIsFound(alts, tags, row.lang, row);
    }
  }

  // ---- Every entry that fits is read alike

  lemma FittingIsAlike(name: string, alts: seq<TagValues>, tags: seq<Tag>, carried: seq<Tag>, row: Row)
    requires EntryFits(name, alts) && Plain(tags, carried) && ShowsTags(row, tags, carried)
    ensures Alike(name, alts, tags, row)
  {
    hide TopicEntry, LanguageEntry, PositionEntry, NameMatches, TagAllows, HasTopic, TagRows, IsIndexable, HasLanguage, LangOf, ShowsTopics;
    hide NoBorrowedTopic, OneLanguage, AllKept, NoneLost;
    if name == "t" {
      TopicsAgree(alts, tags, carried, row);
      assert Topics(alts) != {} by {
        TopicsListed(alts);
      }
    } else if name == "l" && HasLanguage(alts) {
      KeptIsCovered(tags);
      LanguageEntryAgrees(alts, tags, carried, row);
    } else {
      assert name != "" && name != "!t" by {
        NamesSomething(name);
      }
      assert name == "l" ==> LanguagesIn(alts) == {} by {
        NoLanguages(alts);
      }
      PositionsAgree(name, alts, tags, row);
    }
  }

  lemma TopicsListed(alts: seq<TagValues>)
    requires TopicEntry(alts)
    ensures Topics(alts) != {}
  {
    SomeTopic(alts);
  }

  lemma NamesSomething(name: string)
    requires IsIndexable(name) && !Excludes(name)
    ensures name != "" && name != "!t"
  {
  }

  lemma NoLanguages(alts: seq<TagValues>)
    ensures !HasLanguage(alts) ==> LanguagesIn(alts) == {}
  {
  }
}
