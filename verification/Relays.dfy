/** Comparing and deduplicating relay URLs (`model/relay.go`, `push-notifications/pushnotifications.go`,
    `compactRelays`). */
module Relays {
  import opened Optional

  // ---- Comparison

  datatype Url = Url(scheme: string, path: string, host: string)

  /** URL parsing, Unicode case folding and lower-casing belong to Go's library: two strings are equal under folding
      when their folded forms are. A parsed host comes without its port. */
  datatype Library = Library(fold: string -> string, parse: string -> Option<Url>, lower: string -> string)

  predicate SameFolded(lib: Library, u: Url, v: Url) {
    lib.fold(u.scheme) == lib.fold(v.scheme) && lib.fold(u.path) == lib.fold(v.path) && lib.fold(u.host) == lib.fold(v.host)
  }

  predicate ParseAlike(lib: Library, r: string, s: string) {
    lib.parse(r).Some? && lib.parse(s).Some? && SameFolded(lib, lib.parse(r).value, lib.parse(s).value)
  }

  predicate CompareRelays(lib: Library, r: string, s: string) {
    lib.fold(r) == lib.fold(s) || ParseAlike(lib, r, s)
  }

  function Comparison(lib: Library): (string, string) -> bool {
    (r: string, s: string) => CompareRelays(lib, r, s)
  }

  /** Relays that do not fold alike are told apart by any of scheme, path and host, not by the port; and a relay that does
      not parse equals its folded twins only. */
  lemma ToldApart(lib: Library, r: string, s: string)
    requires lib.fold(r) != lib.fold(s)
    ensures lib.parse(r) == None || lib.parse(s) == None ==> !CompareRelays(lib, r, s)
    ensures forall u, v :: lib.parse(r) == Some(u) && lib.parse(s) == Some(v) ==>
              (CompareRelays(lib, r, s) <==>
                 lib.fold(u.scheme) == lib.fold(v.scheme) && lib.fold(u.path) == lib.fold(v.path) && lib.fold(u.host) == lib.fold(v.host))
  {
  }

  /** The relays under consideration: all strings, or those of one list, or any others. */
  type Domain = iset<string>

  ghost predicate Within(d: Domain, relays: seq<string>) {
    forall r :: r in relays ==> r in d
  }

  ghost predicate IsTransitive(d: Domain, equal: (string, string) -> bool) {
    forall r, s, t :: r in d && s in d && t in d && equal(r, s) && equal(s, t) ==> equal(r, t)
  }

  ghost predicate IsEquivalence(d: Domain, equal: (string, string) -> bool) {
    && (forall r :: r in d ==> equal(r, r))
    && (forall r, s :: r in d && s in d && equal(r, s) ==> equal(s, r))
    && IsTransitive(d, equal)
  }

  /** Whatever folds like the relay also parses like it. */
  ghost predicate TwinsParseAlike(lib: Library, d: Domain, r: string) {
    forall s :: s in d && lib.fold(r) == lib.fold(s) ==> r == s || ParseAlike(lib, r, s)
  }

  /** Whatever parses like the relay also folds like it. */
  ghost predicate ParseTwinsFoldAlike(lib: Library, d: Domain, r: string) {
    forall s :: s in d && ParseAlike(lib, r, s) ==> lib.fold(r) == lib.fold(s)
  }

  /** For every relay one of the comparison's two tests covers the other. */
  ghost predicate OneTestCovers(lib: Library, d: Domain) {
    forall r :: r in d ==> TwinsParseAlike(lib, d, r) || ParseTwinsFoldAlike(lib, d, r)
  }

  /** On any relays the comparison is an equivalence exactly when for every one of them one of its two tests covers the
      other. */
  lemma EquivalenceExactly(lib: Library, d: Domain)
    ensures IsEquivalence(d, Comparison(lib)) <==> OneTestCovers(lib, d)
    ensures IsEquivalence(d, Comparison(lib)) <==> IsTransitive(d, Comparison(lib))
  {
    hide ParseAlike;
    var equal := Comparison(lib);
    ParsingIsPartialEquivalence(lib);
    if IsTransitive(d, equal) {
      forall r | r in d
        ensures TwinsParseAlike(lib, d, r) || ParseTwinsFoldAlike(lib, d, r)
      {
        if t :| t in d && ParseAlike(lib, r, t) && lib.fold(r) != lib.fold(t) {
          forall s | s in d && lib.fold(r) == lib.fold(s)
            ensures ParseAlike(lib, r, s)
          {
            TwinParses(lib, d, r, s, t);
          }
        }
      }
    }
    if OneTestCovers(lib, d) {
      forall r, s, t | r in d && s in d && t in d && equal(r, s) && equal(s, t)
        ensures equal(r, t)
      {
        assert TwinsParseAlike(lib, d, s) || ParseTwinsFoldAlike(lib, d, s);
        assert CompareRelays(lib, r, s) && CompareRelays(lib, s, t);
      }
    }
  }

  /** Where the comparison is transitive, a relay that parses like one of another folding has its folded twins parse
      like it. */
  lemma TwinParses(lib: Library, d: Domain, r: string, s: string, t: string)
    requires IsTransitive(d, Comparison(lib)) && r in d && s in d && t in d
    requires lib.fold(r) == lib.fold(s) != lib.fold(t) && ParseAlike(lib, r, t)
    ensures ParseAlike(lib, r, s)
  {
    hide ParseAlike;
    ParsingIsPartialEquivalence(lib);
    assert Comparison(lib)(s, r) && Comparison(lib)(r, t);
    assert ParseAlike(lib, s, t) && ParseAlike(lib, t, r);
  }

  lemma ParsingIsPartialEquivalence(lib: Library)
    ensures forall r, s :: ParseAlike(lib, r, s) ==> ParseAlike(lib, s, r)
    ensures forall r, s, t :: ParseAlike(lib, r, s) && ParseAlike(lib, s, t) ==> ParseAlike(lib, r, t)
  {
  }

  // ---- The long s: equal to an s under folding, but its own lower case, and no letter of a URL scheme

  const LONG_S := '\U{17F}'

  function FoldChar(c: char): char {
    if 'A' <= c <= 'Z' then c - 'A' + 'a' else if c == LONG_S then 's' else c
  }

  function LowerChar(c: char): char {
    if 'A' <= c <= 'Z' then c - 'A' + 'a' else c
  }

  function BeforeColon(s: string): string {
    if s == "" || s[0] == ':' then "" else [s[0]] + BeforeColon(s[1..])
  }

  function FoldAll(s: string): string {
    seq(|s|, (i: nat) requires i < |s| => FoldChar(s[i]))
  }

  function LowerAll(s: string): string {
    seq(|s|, (i: nat) requires i < |s| => LowerChar(s[i]))
  }

  const SECURE := "wss://"

  function ParseSecure(s: string): Option<Url> {
    if SECURE <= s then Some(Url("wss", "", BeforeColon(s[|SECURE|..]))) else None
  }

  /** A library that folds and lowers letter by letter and parses web-socket URLs without a path. */
  const SIMPLE := Library(s => FoldAll(s), s => ParseSecure(s), s => LowerAll(s))

  lemma Parsed(rest: string)
    ensures SIMPLE.parse(SECURE + rest) == Some(Url("wss", "", BeforeColon(rest)))
  {
    assert (SECURE + rest)[|SECURE|..] == rest;
  }

  lemma {:induction false} NoPort(host: string, port: string)
    requires ':' !in host
    ensures BeforeColon(host) == host && BeforeColon(host + ":" + port) == host
  {
    if host == "" {
    } else {
      NoPort(host[1..], port);
      assert (host + ":" + port)[1..] == host[1..] + ":" + port;
      assert host[0] in host && forall c :: c in host[1..] ==> c in host;
    }
  }

  lemma FoldsConcat(a: string, b: string)
    ensures FoldAll(a + b) == FoldAll(a) + FoldAll(b)
  {
  }

  lemma LongScheme()
    ensures FoldAll("w\U{17F}s://") == FoldAll(SECURE)
  {
  }

  /** For every host: a relay spelled with a long s in its scheme folds like one that parses and does not parse
      itself; that one parses like a third with a port, which folds differently. */
  lemma NotTransitive(host: string, port: string)
    requires ':' !in host
    ensures var r, s, t := "w\U{17F}s://" + host, SECURE + host, SECURE + (host + ":" + port);
            CompareRelays(SIMPLE, r, s) && CompareRelays(SIMPLE, s, t) && !CompareRelays(SIMPLE, r, t)
  {
    hide BeforeColon, FoldAll;
    var r, s, t := "w\U{17F}s://" + host, SECURE + host, SECURE + (host + ":" + port);
    FoldsConcat("w\U{17F}s://", host);
    FoldsConcat(SECURE, host);
    LongScheme();
    Parsed(host);
    Parsed(host + ":" + port);
    NoPort(host, port);
    NotSecure(r);
    FoldKeepsLength(r);
    FoldKeepsLength(t);
  }

  lemma FoldKeepsLength(s: string)
    ensures |FoldAll(s)| == |s|
  {
  }

  lemma NotSecure(s: string)
    requires |s| > 1 && s[1] == LONG_S
    ensures SIMPLE.parse(s) == None
  {
    assert SECURE[1] == 's';
  }

  // ---- Deduplication

  predicate Equals(equal: (string, string) -> bool, r: string, list: seq<string>) {
    exists i :: 0 <= i < |list| && equal(r, list[i])
  }

  /** The relays kept when each is compared with all kept before it, filtered out or not. */
  function Quadratic(relays: seq<string>, equal: (string, string) -> bool): seq<string> {
    if relays == [] then []
    else
      var kept, last := Quadratic(relays[..|relays| - 1], equal), relays[|relays| - 1];
      if Equals(equal, last, kept) then kept else kept + [last]
  }

  function InBucket(list: seq<string>, bucket: string -> string, key: string): seq<string> {
    if list == [] then []
    else
      var init, last := InBucket(list[..|list| - 1], bucket, key), list[|list| - 1];
      if bucket(last) == key then init + [last] else init
  }

  /** The relays kept when each is compared only with those of its own bucket. */
  function Bucketed(relays: seq<string>, equal: (string, string) -> bool, bucket: string -> string): seq<string> {
    if relays == [] then []
    else
      var kept, last := Bucketed(relays[..|relays| - 1], equal, bucket), relays[|relays| - 1];
      if Equals(equal, last, InBucket(kept, bucket, bucket(last))) then kept else kept + [last]
  }

  function Wanted(list: seq<string>, equal: (string, string) -> bool, filterOut: seq<string>): seq<string> {
    if list == [] then []
    else
      var init, last := Wanted(list[..|list| - 1], equal, filterOut), list[|list| - 1];
      if Equals(equal, last, filterOut) then init else init + [last]
  }

  ghost predicate SharesBuckets(d: Domain, equal: (string, string) -> bool, bucket: string -> string) {
    forall r, s :: r in d && s in d && equal(r, s) ==> bucket(r) == bucket(s)
  }

  /** Equal relays of the list share a bucket. */
  predicate SharesBucketsIn(relays: seq<string>, equal: (string, string) -> bool, bucket: string -> string) {
    forall r, s :: r in relays && s in relays && equal(r, s) ==> bucket(r) == bucket(s)
  }

  lemma {:induction false} InBucketMembers(list: seq<string>, bucket: string -> string, key: string)
    ensures forall x :: x in InBucket(list, bucket, key) <==> x in list && bucket(x) == key
  {
    if list != [] {
      InBucketMembers(list[..|list| - 1], bucket, key);
      assert list == list[..|list| - 1] + [list[|list| - 1]];
    }
  }

  lemma EqualsMembers(equal: (string, string) -> bool, r: string, list: seq<string>)
    ensures Equals(equal, r, list) <==> exists x :: x in list && equal(r, x)
  {
    if x :| x in list && equal(r, x) {
      var i :| 0 <= i < |list| && list[i] == x;
    }
  }

  lemma {:induction false} BucketsSuffice(relays: seq<string>, equal: (string, string) -> bool,
                                          bucket: string -> string)
    requires SharesBucketsIn(relays, equal, bucket)
    ensures Bucketed(relays, equal, bucket) == Quadratic(relays, equal)
    ensures forall x :: x in Quadratic(relays, equal) ==> x in relays
  {
    if relays != [] {
      var init, last := relays[..|relays| - 1], relays[|relays| - 1];
      assert relays == init + [last];
      BucketsSuffice(init, equal, bucket);
      var kept := Quadratic(init, equal);
      EqualsMembers(equal, last, kept);
      EqualsMembers(equal, last, InBucket(kept, bucket, bucket(last)));
      InBucketMembers(kept, bucket, bucket(last));
    }
  }

  lemma TwoRelays(r: string, s: string, equal: (string, string) -> bool, bucket: string -> string)
    requires equal(r, s) && bucket(r) != bucket(s)
    ensures Bucketed([s, r], equal, bucket) == [s, r] && Quadratic([s, r], equal) == [s]
  {
    hide Bucketed, Quadratic, InBucket;
    Snoc([], s, equal, bucket);
    Snoc([s], r, equal, bucket);
    NothingKept(equal, bucket, bucket(s));
    NothingKept(equal, bucket, bucket(r));
    KeptSnoc([], s, equal, bucket, []);
    assert [] + [s] == [s] && [s] + [r] == [s, r];
    assert Bucketed([s], equal, bucket) == [s] && Quadratic([s], equal) == [s];
    assert InBucket([s], bucket, bucket(r)) == [];
    assert equal(r, [s][0]);
  }

  lemma NothingKept(equal: (string, string) -> bool, bucket: string -> string, key: string)
    ensures Bucketed([], equal, bucket) == [] && Quadratic([], equal) == [] && InBucket([], bucket, key) == []
  {
  }

  lemma Snoc(relays: seq<string>, last: string, equal: (string, string) -> bool, bucket: string -> string)
    ensures var kept := Bucketed(relays, equal, bucket);
            Bucketed(relays + [last], equal, bucket) ==
            if Equals(equal, last, InBucket(kept, bucket, bucket(last))) then kept else kept + [last]
    ensures var kept := Quadratic(relays, equal);
            Quadratic(relays + [last], equal) == if Equals(equal, last, kept) then kept else kept + [last]
  {
    assert (relays + [last])[..|relays|] == relays;
  }

  lemma KeptSnoc(kept: seq<string>, last: string, equal: (string, string) -> bool, bucket: string -> string,
                 filterOut: seq<string>)
    ensures forall key :: InBucket(kept + [last], bucket, key) ==
                          if bucket(last) == key then InBucket(kept, bucket, key) + [last] else InBucket(kept, bucket, key)
    ensures Wanted(kept + [last], equal, filterOut) ==
            if Equals(equal, last, filterOut) then Wanted(kept, equal, filterOut) else Wanted(kept, equal, filterOut) + [last]
  {
    assert (kept + [last])[..|kept|] == kept;
  }

  /** On lists of any relays, buckets lose nothing exactly when equal ones share a bucket. */
  lemma BucketsExactly(d: Domain, equal: (string, string) -> bool, bucket: string -> string)
    ensures (forall relays :: Within(d, relays) ==> Bucketed(relays, equal, bucket) == Quadratic(relays, equal)) <==>
              SharesBuckets(d, equal, bucket)
  {
    hide Bucketed, Quadratic;
    if SharesBuckets(d, equal, bucket) {
      forall relays | Within(d, relays)
        ensures Bucketed(relays, equal, bucket) == Quadratic(relays, equal)
      {
        BucketsSuffice(relays, equal, bucket);
      }
    } else {
      var r, s :| r in d && s in d && equal(r, s) && bucket(r) != bucket(s);
      TwoRelays(r, s, equal, bucket);
      assert Within(d, [s, r]);
    }
  }

  /** The first relay of each class, in order. */
  predicate IsFirst(relays: seq<string>, i: nat, equal: (string, string) -> bool)
    requires i < |relays|
  {
    forall j :: 0 <= j < i ==> !equal(relays[i], relays[j])
  }

  function Firsts(relays: seq<string>, equal: (string, string) -> bool): seq<string> {
    if relays == [] then []
    else
      var init := Firsts(relays[..|relays| - 1], equal);
      if IsFirst(relays, |relays| - 1, equal) then init + [relays[|relays| - 1]] else init
  }

  /** Looking back through the list, what equals an equal of an earlier relay equals that relay. */
  predicate TransitiveIn(relays: seq<string>, equal: (string, string) -> bool) {
    forall i, j, k :: 0 <= k < j < i < |relays| && equal(relays[i], relays[j]) && equal(relays[j], relays[k]) ==>
                        equal(relays[i], relays[k])
  }

  /** Every relay is kept, or equals one that is: the first of each class is kept itself. */
  predicate Represented(relays: seq<string>, equal: (string, string) -> bool, kept: seq<string>) {
    forall i :: 0 <= i < |relays| ==> if IsFirst(relays, i, equal) then relays[i] in kept else Equals(equal, relays[i], kept)
  }

  /** On a list that is transitive looking back, the kept relays are the first of each class, and every other relay
      equals one of them. */
  lemma {:induction false} QuadraticKeepsFirsts(relays: seq<string>, equal: (string, string) -> bool)
    requires TransitiveIn(relays, equal)
    ensures Quadratic(relays, equal) == Firsts(relays, equal)
    ensures forall x :: x in Quadratic(relays, equal) ==> x in relays
    ensures Represented(relays, equal, Quadratic(relays, equal))
  {
    hide Quadratic, Firsts, TransitiveIn, IsFirst, Equals, Represented;
    FirstsNothing(equal);
    if relays == [] {
      NothingToRepresent(equal);
      assert relays == [];
    } else {
      var init, last := relays[..|relays| - 1], relays[|relays| - 1];
      assert relays == init + [last];
      FirstsSnoc(init, last, equal);
      TransitiveInit(init, last, equal);
      QuadraticKeepsFirsts(init, equal);
      var kept := Quadratic(init, equal);
      KeptMeansSeen(init, kept, last, equal);
      RepresentedSnoc(init, last, equal, kept);
    }
  }

  lemma NothingToRepresent(equal: (string, string) -> bool)
    ensures Represented([], equal, [])
  {
  }

  lemma TransitiveInit(init: seq<string>, last: string, equal: (string, string) -> bool)
    requires TransitiveIn(init + [last], equal)
    ensures TransitiveIn(init, equal)
  {
    assert forall i :: 0 <= i < |init| ==> (init + [last])[i] == init[i];
  }

  lemma StillFirst(init: seq<string>, last: string, equal: (string, string) -> bool, i: nat)
    requires i < |init|
    ensures (init + [last])[i] == init[i] && (IsFirst(init + [last], i, equal) <==> IsFirst(init, i, equal))
  {
    assert forall j :: 0 <= j < |init| ==> (init + [last])[j] == init[j];
  }

  lemma RepresentedSnoc(init: seq<string>, last: string, equal: (string, string) -> bool, kept: seq<string>)
    requires Represented(init, equal, kept) && (IsFirst(init + [last], |init|, equal) <==> !Equals(equal, last, kept))
    ensures Represented(init + [last], equal, if Equals(equal, last, kept) then kept else kept + [last])
  {
    hide IsFirst, Equals;
    var all := init + [last];
    var after := if Equals(equal, last, kept) then kept else kept + [last];
    forall i | 0 <= i < |all|
      ensures if IsFirst(all, i, equal) then all[i] in after else Equals(equal, all[i], after)
    {
      if i < |init| {
        StillFirst(init, last, equal, i);
        if !IsFirst(init, i, equal) {
          EqualsMore(equal, init[i], kept, last);
        }
      }
    }
  }

  lemma FirstsNothing(equal: (string, string) -> bool)
    ensures Quadratic([], equal) == [] && Firsts([], equal) == []
  {
  }

  lemma FirstsSnoc(init: seq<string>, last: string, equal: (string, string) -> bool)
    ensures Quadratic(init + [last], equal) ==
            if Equals(equal, last, Quadratic(init, equal)) then Quadratic(init, equal) else Quadratic(init, equal) + [last]
    ensures Firsts(init + [last], equal) ==
            if IsFirst(init + [last], |init|, equal) then Firsts(init, equal) + [last] else Firsts(init, equal)
  {
    assert (init + [last])[..|init|] == init;
  }

  lemma EqualsMore(equal: (string, string) -> bool, r: string, list: seq<string>, last: string)
    requires Equals(equal, r, list)
    ensures Equals(equal, r, list + [last])
  {
    var i :| 0 <= i < |list| && equal(r, list[i]);
    assert equal(r, (list + [last])[i]);
  }

  lemma KeptMeansSeen(init: seq<string>, kept: seq<string>, last: string, equal: (string, string) -> bool)
    requires TransitiveIn(init + [last], equal) && Represented(init, equal, kept) && forall x :: x in kept ==> x in init
    ensures IsFirst(init + [last], |init|, equal) <==> !Equals(equal, last, kept)
  {
    hide Represented, TransitiveIn;
    var all := init + [last];
    assert forall j :: 0 <= j < |init| ==> all[j] == init[j];
    if Equals(equal, last, kept) {
      var i :| 0 <= i < |kept| && equal(last, kept[i]);
      assert kept[i] in init;
      var j :| 0 <= j < |init| && init[j] == kept[i];
      assert equal(all[|init|], all[j]);
    }
    if j :| 0 <= j < |init| && equal(last, init[j]) {
      EqualsKept(init, kept, last, equal, j);
    }
  }

  /** What equals a relay of the list equals a kept one: the relay itself, or one before it. */
  lemma {:induction false} EqualsKept(init: seq<string>, kept: seq<string>, last: string, equal: (string, string) -> bool,
                                      j: nat)
    requires TransitiveIn(init + [last], equal) && Represented(init, equal, kept)
    requires j < |init| && equal(last, init[j])
    ensures Equals(equal, last, kept)
  {
    if IsFirst(init, j, equal) {
      assert init[j] in kept;
      var i :| 0 <= i < |kept| && kept[i] == init[j];
    } else {
      var k :| 0 <= k < j && equal(init[j], init[k]);
      var all := init + [last];
      assert all[|init|] == last && all[j] == init[j] && all[k] == init[k];
      EqualsKept(init, kept, last, equal, k);
    }
  }

  /** On lists of any relays, the kept ones are the first of each class exactly when the comparison is transitive on
      them. */
  lemma FirstsExactly(d: Domain, equal: (string, string) -> bool)
    ensures (forall relays :: Within(d, relays) ==> Quadratic(relays, equal) == Firsts(relays, equal)) <==>
              IsTransitive(d, equal)
  {
    hide Quadratic, Firsts;
    if IsTransitive(d, equal) {
      forall relays | Within(d, relays)
        ensures Quadratic(relays, equal) == Firsts(relays, equal)
      {
        TransitiveEverywhere(d, equal, relays);
        QuadraticKeepsFirsts(relays, equal);
      }
    } else {
      var r, s, t :| r in d && s in d && t in d && equal(r, s) && equal(s, t) && !equal(r, t);
      ThreeRelays(r, s, t, equal);
      assert Within(d, [t, s, r]);
    }
  }

  lemma TransitiveEverywhere(d: Domain, equal: (string, string) -> bool, relays: seq<string>)
    requires IsTransitive(d, equal) && Within(d, relays)
    ensures TransitiveIn(relays, equal)
  {
    assert forall i :: 0 <= i < |relays| ==> relays[i] in relays;
  }

  /** The middle one goes, and with it what would have kept the last one out. */
  lemma ThreeRelays(r: string, s: string, t: string, equal: (string, string) -> bool)
    requires equal(r, s) && equal(s, t) && !equal(r, t)
    ensures Quadratic([t, s, r], equal) == [t, r] && Firsts([t, s, r], equal) == [t]
  {
    hide Quadratic, Firsts, Equals, IsFirst;
    FirstsNothing(equal);
    var one, two := [t], [t, s];
    assert [] + [t] == one && one + [s] == two && two + [r] == [t, s, r] && one + [r] == [t, r];
    FirstsSnoc([], t, equal);
    FirstsSnoc(one, s, equal);
    FirstsSnoc(two, r, equal);
    EqualOfThree(r, s, t, equal);
  }

  lemma EqualOfThree(r: string, s: string, t: string, equal: (string, string) -> bool)
    requires equal(r, s) && equal(s, t) && !equal(r, t)
    ensures !Equals(equal, t, []) && Equals(equal, s, [t]) && !Equals(equal, r, [t])
    ensures IsFirst([t], 0, equal) && !IsFirst([t, s], 1, equal) && !IsFirst([t, s, r], 2, equal)
  {
    assert equal(s, [t][0]);
    assert equal([t, s][1], [t, s][0]);
    assert equal([t, s, r][2], [t, s, r][1]);
  }

  /** The three relays above: the one with the long s is kept, although it equals the plain one. */
  lemma LongSchemeIsKept(host: string, port: string)
    requires ':' !in host
    ensures var r, s, t := "w\U{17F}s://" + host, SECURE + host, SECURE + (host + ":" + port);
            Quadratic([t, s, r], Comparison(SIMPLE)) == [t, r] && Firsts([t, s, r], Comparison(SIMPLE)) == [t]
  {
    hide Quadratic, Firsts, CompareRelays;
    NotTransitive(host, port);
    ThreeRelays("w\U{17F}s://" + host, SECURE + host, SECURE + (host + ":" + port), Comparison(SIMPLE));
  }

  // ---- The bucket key of the source

  /** The lower-cased host of a relay that parses, the whole lower-cased relay otherwise. */
  function BucketKey(lib: Library): string -> string {
    (r: string) => match lib.parse(r)
                   case Some(u) => lib.lower(u.host)
                   case None => lib.lower(r)
  }

  ghost predicate TwinsShareKey(lib: Library, d: Domain) {
    forall r, s :: r in d && s in d && lib.fold(r) == lib.fold(s) ==> BucketKey(lib)(r) == BucketKey(lib)(s)
  }

  ghost predicate ParsedShareHost(lib: Library, d: Domain) {
    forall r, s :: r in d && s in d && ParseAlike(lib, r, s) ==>
                     lib.lower(lib.parse(r).value.host) == lib.lower(lib.parse(s).value.host)
  }

  lemma SharesKeyExactly(lib: Library, d: Domain)
    ensures SharesBuckets(d, Comparison(lib), BucketKey(lib)) <==> TwinsShareKey(lib, d) && ParsedShareHost(lib, d)
  {
    hide ParseAlike;
    KeyOfParsed(lib);
    if SharesBuckets(d, Comparison(lib), BucketKey(lib)) {
      forall r, s | r in d && s in d && CompareRelays(lib, r, s)
        ensures BucketKey(lib)(r) == BucketKey(lib)(s)
      {
        assert Comparison(lib)(r, s);
      }
    }
  }

  /** On lists of any relays, buckets lose nothing exactly when both tests of the comparison keep to one key. */
  lemma KeyLosesNothingExactly(lib: Library, d: Domain)
    ensures (forall relays :: Within(d, relays) ==>
               Bucketed(relays, Comparison(lib), BucketKey(lib)) == Quadratic(relays, Comparison(lib))) <==>
              TwinsShareKey(lib, d) && ParsedShareHost(lib, d)
  {
    hide Bucketed, Quadratic;
    SharesKeyExactly(lib, d);
    BucketsExactly(d, Comparison(lib), BucketKey(lib));
  }

  lemma KeyOfParsed(lib: Library)
    ensures forall r, s :: ParseAlike(lib, r, s) ==>
                             && lib.parse(r).Some? && BucketKey(lib)(r) == lib.lower(lib.parse(r).value.host)
                             && lib.parse(s).Some? && BucketKey(lib)(s) == lib.lower(lib.parse(s).value.host)
  {
  }

  /** The pass of the source keeps the first relay of each class, on every list of the relays. */
  ghost predicate KeepsFirsts(lib: Library, d: Domain) {
    forall relays :: Within(d, relays) ==> Bucketed(relays, Comparison(lib), BucketKey(lib)) == Firsts(relays, Comparison(lib))
  }

  /** Exactly when it does: one of the comparison's two tests covers the other for every relay, and both keep to one
      key. */
  lemma KeepsFirstsExactly(lib: Library, d: Domain)
    ensures KeepsFirsts(lib, d) <==> OneTestCovers(lib, d) && TwinsShareKey(lib, d) && ParsedShareHost(lib, d)
  {
    hide Bucketed, Quadratic, Firsts, OneTestCovers, TwinsShareKey, ParsedShareHost, IsTransitive, SharesBuckets;
    var equal, bucket := Comparison(lib), BucketKey(lib);
    SharesKeyExactly(lib, d);
    EquivalenceExactly(lib, d);
    BucketsExactly(d, equal, bucket);
    FirstsExactly(d, equal);
    if KeepsFirsts(lib, d) {
      OneBucket(lib, d);
    }
  }

  lemma OneBucket(lib: Library, d: Domain)
    requires KeepsFirsts(lib, d)
    ensures SharesBuckets(d, Comparison(lib), BucketKey(lib))
  {
    hide Bucketed, Firsts;
    var equal, bucket := Comparison(lib), BucketKey(lib);
    if r, s :| r in d && s in d && equal(r, s) && bucket(r) != bucket(s) {
      assert Within(d, [s, r]);
      TwoRelays(r, s, equal, bucket);
      FirstOfTwo(r, s, equal);
    }
  }

  lemma FirstOfTwo(r: string, s: string, equal: (string, string) -> bool)
    requires equal(r, s)
    ensures |Firsts([s, r], equal)| == 1
  {
    FirstsNothing(equal);
    FirstsSnoc([], s, equal);
    FirstsSnoc([s], r, equal);
    assert [] + [s] == [s] && [s] + [r] == [s, r];
    assert equal([s, r][1], [s, r][0]);
  }

  /** Relays among which those equal under folding parse alike, or not at all, and have one lower case, as have hosts
      equal under folding. */
  ghost predicate Orderly(lib: Library, d: Domain) {
    && (forall r, s :: r in d && s in d && lib.fold(r) == lib.fold(s) ==>
          && (ParseAlike(lib, r, s) || (lib.parse(r).None? && lib.parse(s).None?))
          && lib.lower(r) == lib.lower(s))
    && (forall r, s :: r in d && s in d && lib.parse(r).Some? && lib.parse(s).Some? &&
                       lib.fold(lib.parse(r).value.host) == lib.fold(lib.parse(s).value.host) ==>
                       lib.lower(lib.parse(r).value.host) == lib.lower(lib.parse(s).value.host))
  }

  /** Lists of orderly relays are compacted to the first of each class. */
  lemma OrderlyKeepsFirsts(lib: Library, d: Domain)
    requires Orderly(lib, d)
    ensures KeepsFirsts(lib, d)
  {
    KeepsFirstsExactly(lib, d);
    OrderlyTests(lib, d);
    OrderlyKeys(lib, d);
    hide KeepsFirsts, OneTestCovers, TwinsShareKey, ParsedShareHost;
  }

  lemma OrderlyTests(lib: Library, d: Domain)
    requires Orderly(lib, d)
    ensures OneTestCovers(lib, d)
  {
    hide ParseAlike, Orderly;
    forall r | r in d
      ensures TwinsParseAlike(lib, d, r) || ParseTwinsFoldAlike(lib, d, r)
    {
      if lib.parse(r).Some? {
        forall s | s in d && lib.fold(r) == lib.fold(s)
          ensures ParseAlike(lib, r, s)
        {
          OrderlyTwins(lib, d, r, s);
        }
      } else {
        UnparsedIsAlone(lib, r);
      }
    }
  }

  lemma UnparsedIsAlone(lib: Library, r: string)
    requires lib.parse(r).None?
    ensures forall s :: !ParseAlike(lib, r, s)
  {
  }

  lemma OrderlyKeys(lib: Library, d: Domain)
    requires Orderly(lib, d)
    ensures TwinsShareKey(lib, d) && ParsedShareHost(lib, d)
  {
    hide Orderly, SameFolded;
    forall r, s | r in d && s in d && lib.fold(r) == lib.fold(s)
      ensures BucketKey(lib)(r) == BucketKey(lib)(s)
    {
      OrderlyTwins(lib, d, r, s);
      if lib.parse(r).Some? {
        OrderlyHosts(lib, d, r, s);
      }
    }
    forall r, s | r in d && s in d && ParseAlike(lib, r, s)
      ensures lib.lower(lib.parse(r).value.host) == lib.lower(lib.parse(s).value.host)
    {
      OrderlyHosts(lib, d, r, s);
    }
  }

  lemma OrderlyTwins(lib: Library, d: Domain, r: string, s: string)
    requires Orderly(lib, d) && r in d && s in d && lib.fold(r) == lib.fold(s)
    ensures lib.lower(r) == lib.lower(s)
    ensures ParseAlike(lib, r, s) || (lib.parse(r).None? && lib.parse(s).None?)
  {
    hide ParseAlike;
  }

  lemma OrderlyHosts(lib: Library, d: Domain, r: string, s: string)
    requires Orderly(lib, d) && r in d && s in d && ParseAlike(lib, r, s)
    ensures lib.parse(r).Some? && lib.parse(s).Some?
    ensures lib.lower(lib.parse(r).value.host) == lib.lower(lib.parse(s).value.host)
  {
  }

  /** A host with a long s: equal relays in two buckets, and both are kept. */
  lemma LongHostIsKeptTwice()
    ensures var r, s := SECURE + "s", SECURE + "\U{17F}";
            && CompareRelays(SIMPLE, s, r)
            && Quadratic([r, s], Comparison(SIMPLE)) == [r]
            && Bucketed([r, s], Comparison(SIMPLE), BucketKey(SIMPLE)) == [r, s]
  {
    hide Bucketed, Quadratic, BeforeColon, FoldAll, LowerAll;
    var r, s := SECURE + "s", SECURE + "\U{17F}";
    FoldsConcat(SECURE, "s");
    FoldsConcat(SECURE, "\U{17F}");
    LongLetter();
    Parsed("s");
    Parsed("\U{17F}");
    NoPort("s", "");
    NoPort("\U{17F}", "");
    TwoRelays(s, r, Comparison(SIMPLE), BucketKey(SIMPLE));
  }

  lemma LongLetter()
    ensures FoldAll("s") == FoldAll("\U{17F}") && LowerAll("s") != LowerAll("\U{17F}")
  {
    assert LowerAll("s")[0] == 's' && LowerAll("\U{17F}")[0] == LONG_S;
  }

  /** One pass with buckets of the relays seen so far. */
  method CompactRelays(relays: seq<string>, filterOut: seq<string>, lib: Library) returns (compacted: seq<string>)
    ensures compacted == Wanted(Bucketed(relays, Comparison(lib), BucketKey(lib)), Comparison(lib), filterOut)
    ensures SharesBucketsIn(relays, Comparison(lib), BucketKey(lib)) && TransitiveIn(relays, Comparison(lib)) ==>
              compacted == Wanted(Firsts(relays, Comparison(lib)), Comparison(lib), filterOut)
  {
    hide Bucketed, InBucket, Wanted, Equals, Firsts, Quadratic, CompareRelays, TransitiveIn, Represented;
    ghost var equal, bucket := Comparison(lib), BucketKey(lib);
    compacted := [];
    NothingYet(equal, bucket, filterOut);
    var seen: map<string, seq<string>> := map[];
    ghost var kept: seq<string> := [];
    for i := 0 to |relays|
      invariant kept == Bucketed(relays[..i], equal, bucket)
      invariant forall key :: Bucket(seen, key) == InBucket(kept, bucket, key)
      invariant compacted == Wanted(kept, equal, filterOut)
    {
      var relay := relays[i];
      assert relays[..i + 1] == relays[..i] + [relay];
      Snoc(relays[..i], relay, equal, bucket);
      KeptSnoc(kept, relay, equal, bucket, filterOut);
      var key := lib.lower(relay);
      var parsed := lib.parse(relay);
      if parsed.Some? {
        key := lib.lower(parsed.value.host);
      }
      var isDuplicate := Search(relay, Bucket(seen, key), lib);
      if !isDuplicate {
        seen := seen[key := Bucket(seen, key) + [relay]];
        kept := kept + [relay];
        var shouldFilterOut := Search(relay, filterOut, lib);
        if !shouldFilterOut {
          compacted := compacted + [relay];
        }
      }
    }
    assert relays[..|relays|] == relays;
    if SharesBucketsIn(relays, equal, bucket) && TransitiveIn(relays, equal) {
      BucketsSuffice(relays, equal, bucket);
      QuadraticKeepsFirsts(relays, equal);
    }
  }

  lemma NothingYet(equal: (string, string) -> bool, bucket: string -> string, filterOut: seq<string>)
    ensures Bucketed([], equal, bucket) == [] && Wanted([], equal, filterOut) == []
    ensures forall key :: InBucket([], bucket, key) == []
  {
  }

  function Bucket(seen: map<string, seq<string>>, key: string): seq<string> {
    if key in seen then seen[key] else []
  }

  method Search(relay: string, list: seq<string>, lib: Library) returns (found: bool)
    ensures found <==> Equals(Comparison(lib), relay, list)
  {
    for i := 0 to |list|
      invariant forall j :: 0 <= j < i ==> !CompareRelays(lib, relay, list[j])
    {
      if CompareRelays(lib, relay, list[i]) {
        assert Comparison(lib)(relay, list[i]);
        return true;
      }
    }
    return false;
  }
}
