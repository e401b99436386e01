/** The SQL text behind the tokens: the generator decides where a connective goes by looking at the last two
    characters it wrote, and names every parameter by concatenation. */
module WhereText {
  import opened Strconv
  import opened BooleanSyntax
  import opened Conditions
  import opened Text

  // ---- Parameter names

  function NameText(name: Name): string {
    match name
    case NameIds => "e.id"
    case NameAddressFull => "address_full"
    case NameAddressId => "address_id"
    case NameRepostKind => "repost_kind"
    case NameKindPositive => "kind_positive"
    case NameKindNegative => "kind_negative"
    case NameMedia => "media"
    case NameVideos => "videos"
    case NameImages => "images"
    case NameQuote => "quote"
    case NameExpirationAfter => "expiration_after"
    case NameReferences => "references"
    case NameTtagsExclude => "ttags_exclude"
    case NameTtags => "ttags"
    case NameLangs => "langs"
    case NameAuthors => "e.pubkey"
    case NameTimestamp => "timestamp"
    case NameSince => "since"
    case NameUntil => "until"
    case NameDtag => "dtag"
    case NameTag(id) => "tag" + Digits(id)
    case NameTagValue(id) => "tagvalue" + Digits(id)
    case NameMarkerTag(id) => "mtagname" + Digits(id)
    case NameMarker(id) => "mtagvalue" + Digits(id)
    case NameFts => "fts"
    case NameGiftReceiver => "gift_receiver_pubkey"
  }

  /** `filter<position>_<name>`. */
  function KeyText(key: Key): string {
    "filter" + (Digits(key.filter) + ['_'] + NameText(key.name))
  }

  lemma DigitsAfter(prefix: string, m: nat, n: nat)
    requires prefix + Digits(m) == prefix + Digits(n)
    ensures m == n
  {
    assert Digits(m) == (prefix + Digits(m))[|prefix|..] == (prefix + Digits(n))[|prefix|..] == Digits(n);
    DigitsInjective(m, n);
  }

  /** The characters that tell the fixed names apart: the first three, and one further on. */
  function Letters(name: Name): (char, char, char, nat, char) {
    match name
    case NameIds => ('e', '.', 'i', 3, 'd')
    case NameAddressFull => ('a', 'd', 'd', 8, 'f')
    case NameAddressId => ('a', 'd', 'd', 8, 'i')
    case NameRepostKind => ('r', 'e', 'p', 3, 'o')
    case NameKindPositive => ('k', 'i', 'n', 5, 'p')
    case NameKindNegative => ('k', 'i', 'n', 5, 'n')
    case NameMedia => ('m', 'e', 'd', 3, 'i')
    case NameVideos => ('v', 'i', 'd', 3, 'e')
    case NameImages => ('i', 'm', 'a', 3, 'g')
    case NameQuote => ('q', 'u', 'o', 3, 't')
    case NameExpirationAfter => ('e', 'x', 'p', 3, 'i')
    case NameReferences => ('r', 'e', 'f', 3, 'e')
    case NameTtagsExclude => ('t', 't', 'a', 3, 'g')
    case NameTtags => ('t', 't', 'a', 3, 'g')
    case NameLangs => ('l', 'a', 'n', 3, 'g')
    case NameAuthors => ('e', '.', 'p', 3, 'u')
    case NameTimestamp => ('t', 'i', 'm', 3, 'e')
    case NameSince => ('s', 'i', 'n', 3, 'c')
    case NameUntil => ('u', 'n', 't', 3, 'i')
    case NameDtag => ('d', 't', 'a', 3, 'g')
    case NameTag(_) => ('t', 'a', 'g', 2, 'g')
    case NameTagValue(_) => ('t', 'a', 'g', 3, 'v')
    case NameMarkerTag(_) => ('m', 't', 'a', 4, 'n')
    case NameMarker(_) => ('m', 't', 'a', 4, 'v')
    case NameFts => ('f', 't', 's', 2, 's')
    case NameGiftReceiver => ('g', 'i', 'f', 3, 't')
  }

  predicate HasLetters(s: string, l: (char, char, char, nat, char)) {
    |s| >= 3 && l.3 < |s| && s[0] == l.0 && s[1] == l.1 && s[2] == l.2 && s[l.3] == l.4
  }

  lemma EarlyLetters(name: Name)
    ensures Stage(name) <= 10 ==> HasLetters(NameText(name), Letters(name))
  {
    hide Digits;
  }

  lemma LateLetters(name: Name)
    ensures Stage(name) > 10 ==> HasLetters(NameText(name), Letters(name))
  {
    hide Digits;
  }

  lemma LettersOf(name: Name)
    ensures HasLetters(NameText(name), Letters(name))
  {
    hide NameText, Letters, HasLetters;
    if Stage(name) <= 10 { EarlyLetters(name); } else { LateLetters(name); }
  }

  /** Which name of a pair that shares its first three letters; the names of no pair are all different there. */
  function Group(name: Name): nat {
    match name
    case NameAddressFull => 1
    case NameAddressId => 1
    case NameKindPositive => 2
    case NameKindNegative => 2
    case NameTtagsExclude => 3
    case NameTtags => 3
    case NameTag(_) => 4
    case NameTagValue(_) => 4
    case NameMarkerTag(_) => 5
    case NameMarker(_) => 5
    case _ => 0
  }

  lemma EarlyThree(a: Name, b: Name)
    requires Stage(a) <= 10
    requires var l, m := Letters(a), Letters(b); l.0 == m.0 && l.1 == m.1 && l.2 == m.2
    ensures Group(a) == Group(b) && (Group(a) == 0 ==> a == b)
  {
  }

  lemma LateThree(a: Name, b: Name)
    requires Stage(a) > 10
    requires var l, m := Letters(a), Letters(b); l.0 == m.0 && l.1 == m.1 && l.2 == m.2
    ensures Group(a) == Group(b) && (Group(a) == 0 ==> a == b)
  {
  }

  lemma FirstThree(a: Name, b: Name)
    requires var l, m := Letters(a), Letters(b); l.0 == m.0 && l.1 == m.1 && l.2 == m.2
    ensures Group(a) == Group(b) && (Group(a) == 0 ==> a == b)
  {
    hide Letters, Group;
    if Stage(a) <= 10 { EarlyThree(a, b); } else { LateThree(a, b); }
  }

  lemma TwinsDistinct(a: Name, b: Name)
    requires NameText(a) == NameText(b) && Group(a) == Group(b) != 0
    ensures a == b
  {
    hide Digits;
    LettersOf(a);
    LettersOf(b);
    if Group(a) == 3 {
      assert |NameText(NameTtags)| == 5 && |NameText(NameTtagsExclude)| == 13;
    } else if Group(a) == 4 {
      if a.NameTag? && b.NameTag? { DigitsAfter("tag", a.id, b.id); }
      else if a.NameTag? { TagIsNotTagValue(a.id, b.id); }
      else if b.NameTag? { TagIsNotTagValue(b.id, a.id); }
      else { DigitsAfter("tagvalue", a.id, b.id); }
    } else if Group(a) == 5 {
      assert a.NameMarker? == b.NameMarker?;
      if a.NameMarker? { DigitsAfter("mtagvalue", a.id, b.id); } else { DigitsAfter("mtagname", a.id, b.id); }
    }
  }

  lemma NamesDistinct(a: Name, b: Name)
    requires NameText(a) == NameText(b)
    ensures a == b
  {
    hide NameText, Letters;
    LettersOf(a);
    LettersOf(b);
    FirstThree(a, b);
    if Group(a) != 0 {
      TwinsDistinct(a, b);
    }
  }

  lemma TagIsNotTagValue(m: nat, n: nat)
    ensures "tag" + Digits(m) != "tagvalue" + Digits(n)
  {
    hide Digits;
    assert ("tag" + Digits(m))[3] == Digits(m)[0] && IsDigit(Digits(m)[0]);
    assert ("tagvalue" + Digits(n))[3] == 'v';
  }

  /** Parameters of different filters, or with different names, never collide in the one parameter map. */
  lemma KeysDistinct(a: Key, b: Key)
    requires KeyText(a) == KeyText(b)
    ensures a == b
  {
    var s, t := Digits(a.filter) + ['_'] + NameText(a.name), Digits(b.filter) + ['_'] + NameText(b.name);
    assert s == KeyText(a)[6..] && t == KeyText(b)[6..];
    IndexAfterPrefix(Digits(a.filter), '_', NameText(a.name));
    IndexAfterPrefix(Digits(b.filter), '_', NameText(b.name));
    assert s[..IndexOf(s, '_')] == Digits(a.filter) && t[..IndexOf(t, '_')] == Digits(b.filter);
    DigitsInjective(a.filter, b.filter);
    assert s[IndexOf(s, '_') + 1..] == NameText(a.name) && t[IndexOf(t, '_') + 1..] == NameText(b.name);
    NamesDistinct(a.name, b.name);
  }

  // ---- Text

  function ColumnText(column: Column): string {
    match column
    case ID => "e.id"
    case ADDRESS => "e.address"
    case KIND => "e.kind"
    case PUBKEY => "e.pubkey"
    case MASTER_PUBKEY => "e.master_pubkey"
    case LANG => "e.lang"
  }

  function FlagText(flag: FlagColumn): string {
    match flag
    case HAS_VIDEOS => "e.has_videos="
    case HAS_IMAGES => "e.has_images="
    case IS_QUOTE => "e.is_quote="
    case IS_REPLY => "e.is_reply = "
  }

  function BindsText(binds: seq<Bind>): string {
    if binds == [] then ""
    else
      var b := binds[|binds| - 1];
      BindsText(binds[..|binds| - 1]) + " AND event_tag_value" + Digits(b.position) + " = :" + KeyText(b.key)
  }

  function OpText(negative: bool): string {
    if negative then " != " else " = "
  }

  function SliceText(negative: bool, many: bool, key: Key): string {
    if many then (if negative then "ALL(:" else "ANY(:") + KeyText(key) + ")" else ":" + KeyText(key)
  }

  /** A condition's text up to its last piece. */
  function Head(a: Atom): string {
    match a
    case Compare(column, negative, many, key) => ColumnText(column) + OpText(negative)
    case RepostCase(many, key) =>
      "(case when e.kind = 16 then exists (select true from event_tags rk where event_id = e.id " +
      "AND rk.event_tag_key = 'k' and rk.event_tag_value1" + OpText(false) + SliceText(false, many, key)
    case FlagIs(flag, key) => FlagText(flag)
    case ExpiresAfter(key) => "e.expiration > cast(:" + KeyText(key)
    case NeverExpires => "e.expiration is "
    case ReferenceCase(key) =>
      "(case when e.reference_id is not null then true else e.has_references=:" + KeyText(key)
    case TopicsOverlap(key) => "e.t_tags && cast(:" + KeyText(key)
    case CreatedIs(key) => "e.lookup_created_at = "
    case CreatedFrom(key) => "e.lookup_created_at >= "
    case CreatedTo(key) => "e.lookup_created_at <= "
    case DTagIs(key) => "e.d_tag = "
    case TagExists(key, binds) =>
      "EXISTS (select event_id from event_tags where event_id = e.id AND event_tag_key = :"
    case MarkerExists(key, marker) =>
      "EXISTS (select true from event_tags where event_id in (e.id, e.reference_id) AND event_tag_key = :" +
      KeyText(key) + " AND event_tag_value3 = :"
    case Always => "1"
    case NotHidden => "e.hidden="
    case NotDeleted => "e.deleted="
    case LookupLike(key) => "e.lookup ILIKE "
    case CommunityCase => "(case when e.kind in (1, 30023, 30175) then e.id = e.h_tag else true"
    case NoReceiver => "e.gift_receiver_pubkey is "
    case ReceiverIs(key) => "e.gift_receiver_pubkey = "
  }

  function Tail(a: Atom): string {
    match a
    case Compare(column, negative, many, key) => SliceText(negative, many, key)
    case RepostCase(many, key) => ") else true end)"
    case FlagIs(flag, key) => ":" + KeyText(key)
    case ExpiresAfter(key) => " as bigint)"
    case NeverExpires => "null"
    case ReferenceCase(key) => " end)"
    case TopicsOverlap(key) => " as text[])"
    case CreatedIs(key) => ":" + KeyText(key)
    case CreatedFrom(key) => ":" + KeyText(key)
    case CreatedTo(key) => ":" + KeyText(key)
    case DTagIs(key) => ":" + KeyText(key)
    case TagExists(key, binds) => KeyText(key) + BindsText(binds) + ")"
    case MarkerExists(key, marker) => KeyText(marker) + ")"
    case Always => "=1"
    case NotHidden => "false"
    case NotDeleted => "false"
    case LookupLike(key) => ":" + KeyText(key)
    case CommunityCase => " end)"
    case NoReceiver => "null"
    case ReceiverIs(key) => ":" + KeyText(key)
  }

  function AtomText(a: Atom): string {
    Head(a) + Tail(a)
  }

  function TokenText(t: Token<Atom>): string {
    match t
    case LP => "("
    case RP => ")"
    case AND => " AND "
    case OR => " OR "
    case NOT => "NOT "
    case Condition(a) => AtomText(a)
  }

  function BufferText(buf: seq<Token<Atom>>): string {
    if buf == [] then "" else BufferText(buf[..|buf| - 1]) + TokenText(buf[|buf| - 1])
  }

  /** What `IsOnBegin` tests on the text. */
  predicate PeeksBegin(s: string)
    requires s == "(" || |s| >= 2
  {
    s == "(" || s[|s| - 1] == '(' || s[|s| - 2..] == "( "
  }

  predicate Closed(s: string) {
    |s| >= 2 && s[|s| - 1] != '(' && (s[|s| - 1] == ' ' ==> s[|s| - 2] != '(')
  }

  lemma ClosedAfter(s: string, t: string)
    requires Closed(t)
    ensures Closed(s + t)
  {
  }

  lemma DigitsEnd(n: nat)
    ensures IsDigit(Digits(n)[|Digits(n)| - 1])
  {
  }

  lemma NameTextClosed(name: Name)
    ensures Closed(NameText(name))
  {
    hide Digits, IsDigit;
    match name
    case NameTag(id) => NumberedClosed("tag", id);
    case NameTagValue(id) => NumberedClosed("tagvalue", id);
    case NameMarkerTag(id) => NumberedClosed("mtagname", id);
    case NameMarker(id) => NumberedClosed("mtagvalue", id);
    case _ =>
  }

  lemma NumberedClosed(prefix: string, id: nat)
    requires |prefix| >= 1
    ensures Closed(prefix + Digits(id))
  {
    DigitsEnd(id);
    var s := prefix + Digits(id);
    assert s[|s| - 1] == Digits(id)[|Digits(id)| - 1];
  }

  lemma EndsWithKey(s: string, key: Key)
    ensures Closed(s + KeyText(key))
  {
    hide Digits, NameText;
    NameTextClosed(key.name);
    ClosedAfter(s + "filter" + Digits(key.filter) + ['_'], NameText(key.name));
    assert s + KeyText(key) == s + "filter" + Digits(key.filter) + ['_'] + NameText(key.name);
  }

  lemma EndsWithParen(s: string)
    requires |s| >= 1
    ensures Closed(s + ")")
  {
    assert (s + ")")[|s|] == ')';
  }

  lemma SliceClosed(negative: bool, many: bool, key: Key)
    ensures Closed(SliceText(negative, many, key))
  {
    hide KeyText, Closed;
    EndsWithKey(":", key);
    EndsWithParen("ALL(:" + KeyText(key));
    EndsWithParen("ANY(:" + KeyText(key));
  }

  lemma KeyTextBegins(key: Key)
    ensures |KeyText(key)| >= 1
  {
    hide Digits, NameText;
  }

  lemma TailClosed(a: Atom)
    ensures Closed(Tail(a))
  {
    hide KeyText, SliceText, BindsText;
    match a
    case Compare(column, negative, many, key) => SliceClosed(negative, many, key);
    case FlagIs(flag, key) => EndsWithKey(":", key);
    case CreatedIs(key) => EndsWithKey(":", key);
    case CreatedFrom(key) => EndsWithKey(":", key);
    case CreatedTo(key) => EndsWithKey(":", key);
    case DTagIs(key) => EndsWithKey(":", key);
    case TagExists(key, binds) =>
      KeyTextBegins(key);
      EndsWithParen(KeyText(key) + BindsText(binds));
    case MarkerExists(key, marker) =>
      KeyTextBegins(marker);
      EndsWithParen(KeyText(marker));
    case LookupLike(key) => EndsWithKey(":", key);
    case ReceiverIs(key) => EndsWithKey(":", key);
    case _ =>
  }

  /** No condition's text could be taken for the beginning of a list. */
  lemma AtomClosed(a: Atom)
    ensures Closed(AtomText(a))
  {
    hide Head, Tail, Closed;
    TailClosed(a);
    ClosedAfter(Head(a), Tail(a));
  }

  lemma {:induction false} BufferTextGrows(buf: seq<Token<Atom>>)
    requires buf != [] && buf[0] != RP
    ensures BufferText(buf) == "(" || |BufferText(buf)| >= 2
    ensures BufferText(buf) == "(" ==> buf == [LP]
  {
    hide AtomText;
    var init, last := buf[..|buf| - 1], buf[|buf| - 1];
    if last.Condition? {
      AtomClosed(last.atom);
    }
    if init != [] {
      BufferTextGrows(init);
    }
  }

  /** Peeking at the characters tells exactly whether the last token opened a list, and never looks before the
      start of the text. */
  lemma PeekAgrees(buf: seq<Token<Atom>>)
    requires buf != [] && buf[0] != RP
    ensures BufferText(buf) == "(" || |BufferText(buf)| >= 2
    ensures PeeksBegin(BufferText(buf)) <==> OnBegin(buf)
  {
    hide AtomText;
    BufferTextGrows(buf);
    var init, last := buf[..|buf| - 1], buf[|buf| - 1];
    if last.Condition? {
      AtomClosed(last.atom);
      ClosedNotBegin(BufferText(init), AtomText(last.atom));
    } else if last != LP && last != RP {
      ClosedNotBegin(BufferText(init), TokenText(last));
    } else if last == RP {
      ParenNotBegin(BufferText(init));
    }
  }

  lemma ClosedNotBegin(s: string, t: string)
    requires Closed(t)
    ensures |s + t| >= 2 && !PeeksBegin(s + t)
  {
    assert (s + t)[|s + t| - 2..] == t[|t| - 2..];
  }

  lemma ParenNotBegin(s: string)
    requires s != ""
    ensures !PeeksBegin(s + ")")
  {
    var t := s + ")";
    assert t[|t| - 2..][1] == ')' && "( "[1] == ' ';
  }
}
