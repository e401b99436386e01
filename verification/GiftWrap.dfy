/** Paging through stored gift wraps (`streamGiftWrapEvents` in `server/ws/subscriptions.go`): each page
    is the newest `limit` events up to and including the oldest timestamp of the page before. */
module GiftWrap {
  import opened Optional

  datatype Stored = Stored(id: string, createdAt: int)

  /** The stored matching events within the filter's time range. */
  function Matching(all: set<Stored>, since: Option<int>, until: Option<int>): set<Stored> {
    set e | e in all && (since.Some? ==> since.value <= e.createdAt) && (until.Some? ==> e.createdAt <= until.value)
  }

  predicate Newest(page: seq<Stored>) {
    forall i, j :: 0 <= i < j < |page| ==> page[i] != page[j] && page[i].createdAt >= page[j].createdAt
  }

  function Members(page: seq<Stored>): set<Stored> {
    set i | 0 <= i < |page| :: page[i]
  }

  /** A page of the newest events: as many as asked for if there are that many, newest first, ties broken
      any way the database likes. */
  ghost predicate IsPage(page: seq<Stored>, from: set<Stored>, limit: nat) {
    && Newest(page)
    && Members(page) <= from
    && |page| <= limit
    && (|page| < limit ==> Members(page) == from)
    && forall e :: e in from && e !in Members(page) && page != [] ==> e.createdAt <= page[|page| - 1].createdAt
  }

  function AtTime(from: set<Stored>, t: int): set<Stored> {
    set e | e in from && e.createdAt == t
  }

  /** Fewer events than a page holds share any one timestamp. */
  ghost predicate Spread(from: set<Stored>, limit: nat) {
    forall t :: |AtTime(from, t)| < limit
  }

  /** A database that answers every query for the range with a page of it. */
  ghost predicate Answers(fetch: Option<int> -> seq<Stored>, all: set<Stored>, since: Option<int>, limit: nat) {
    forall until :: IsPage(fetch(until), Matching(all, since, until), limit)
  }

  lemma PageSize(page: seq<Stored>)
    requires Newest(page)
    ensures |Members(page)| == |page|
  {
    if page != [] {
      var init, last := page[..|page| - 1], page[|page| - 1];
      PageSize(init);
      assert Members(page) == Members(init) + {last};
      assert last !in Members(init);
    } else {
      assert Members(page) == {};
    }
  }

  lemma SubsetSize<T>(a: set<T>, b: set<T>)
    requires a <= b
    ensures |a| <= |b|
  {
    assert b == a + (b - a);
  }

  /** Unless a full page holds nothing but one timestamp, the next bound is strictly older than its
      newest event. */
  lemma PageSpansTime(page: seq<Stored>, from: set<Stored>, limit: nat)
    requires IsPage(page, from, limit) && |page| == limit && limit > 0
    requires |AtTime(from, page[|page| - 1].createdAt)| < limit
    ensures page[0].createdAt > page[|page| - 1].createdAt
  {
    var t := page[|page| - 1].createdAt;
    if page[0].createdAt == t {
      assert Members(page) <= AtTime(from, t);
      PageSize(page);
      SubsetSize(Members(page), AtTime(from, t));
    }
  }

  /** A full page moves the bound so that strictly fewer events remain, and all that drop out are on it. */
  lemma FullPageAdvances(all: set<Stored>, since: Option<int>, bound: Option<int>, page: seq<Stored>,
                         range: set<Stored>, limit: nat)
    requires limit > 0 && |page| == limit && Spread(range, limit)
    requires Matching(all, since, bound) <= range && IsPage(page, Matching(all, since, bound), limit)
    ensures var next := Matching(all, since, Some(page[|page| - 1].createdAt));
            next < Matching(all, since, bound) && Matching(all, since, bound) <= next + Members(page)
    ensures since.Some? ==> since.value <= page[|page| - 1].createdAt
  {
    var current, oldest := Matching(all, since, bound), page[|page| - 1];
    var next := Matching(all, since, Some(oldest.createdAt));
    AtTimeShrinks(current, range, oldest.createdAt, limit);
    PageSpansTime(page, current, limit);
    assert oldest in Members(page) && page[0] in Members(page);
    assert page[0] in current && page[0] !in next;
    assert next <= current;
  }

  /** The paging loop. Events the reducer skips are fetched but not written. */
  method StreamGiftWraps(ghost all: set<Stored>, fetch: Option<int> -> seq<Stored>, reduces: Stored -> bool,
                         since: Option<int>, until: Option<int>, limit: nat)
    returns (written: seq<Stored>)
    requires limit > 0 && Answers(fetch, all, since, limit)
    requires Spread(Matching(all, since, until), limit)
    ensures forall e :: e in written <==> e in Matching(all, since, until) && !reduces(e)
  {
    hide Matching, AtTime, Spread, Newest, IsPage;
    written := [];
    var bound := until;
    ghost var range := Matching(all, since, until);
    while true
      invariant Matching(all, since, bound) <= range
      invariant forall e :: e in written ==> e in range && !reduces(e)
      invariant forall e :: e in range && e !in Matching(all, since, bound) && !reduces(e) ==> e in written
      decreases Matching(all, since, bound)
    {
      ghost var current := Matching(all, since, bound);
      var page := fetch(bound);
      PageFacts(page, current, limit);
      written := WritePage(page, reduces, written);
      if |page| < limit {
        break;
      }
      FullPageAdvances(all, since, bound, page, range, limit);
      bound := Some(page[|page| - 1].createdAt);
      if since.Some? && since.value > bound.value {
        break;
      }
    }
  }

  lemma PageFacts(page: seq<Stored>, from: set<Stored>, limit: nat)
    requires IsPage(page, from, limit)
    ensures Members(page) <= from && |page| <= limit && (|page| < limit ==> Members(page) == from)
  {
  }

  method WritePage(page: seq<Stored>, reduces: Stored -> bool, before: seq<Stored>) returns (written: seq<Stored>)
    ensures forall e :: e in written <==> e in before || (e in Members(page) && !reduces(e))
  {
    written := before;
    for i := 0 to |page|
      invariant forall e :: e in written <==> e in before || (e in Members(page[..i]) && !reduces(e))
    {
      assert Members(page[..i + 1]) == Members(page[..i]) + {page[i]};
      if !reduces(page[i]) {
        written := written + [page[i]];
      }
    }
    assert page[..|page|] == page;
  }

  lemma AtTimeShrinks(current: set<Stored>, range: set<Stored>, t: int, limit: nat)
    requires current <= range && Spread(range, limit)
    ensures |AtTime(current, t)| < limit
  {
    SubsetSize(AtTime(current, t), AtTime(range, t));
  }

  // ---- Exactly when the loop ends

  /** The loop's control state: the bound of the next query, or done. */
  datatype Loop = Running(bound: Option<int>) | Done

  function Turn(fetch: Option<int> -> seq<Stored>, since: Option<int>, limit: nat, s: Loop): Loop {
    if s.Done? || |fetch(s.bound)| < limit || limit == 0 then Done
    else
      var oldest := fetch(s.bound)[limit - 1].createdAt;
      if since.Some? && since.value > oldest then Done else Running(Some(oldest))
  }

  function Turns(fetch: Option<int> -> seq<Stored>, since: Option<int>, limit: nat, s: Loop, n: nat): Loop
    decreases n
  {
    if n == 0 then s else Turns(fetch, since, limit, Turn(fetch, since, limit, s), n - 1)
  }

  lemma FullPageOfCrowd(page: seq<Stored>, from: set<Stored>, limit: nat, t: int)
    requires IsPage(page, from, limit) && limit > 0 && |AtTime(from, t)| >= limit
    ensures |page| == limit && page[limit - 1].createdAt >= t && page[limit - 1] in from
  {
    PageSize(page);
    SubsetSize(AtTime(from, t), from);
    assert page[|page| - 1] in Members(page);
    if page[|page| - 1].createdAt < t {
      assert AtTime(from, t) + {page[|page| - 1]} <= Members(page);
      SubsetSize(AtTime(from, t) + {page[|page| - 1]}, Members(page));
    }
  }

  /** While a page's worth of events share a timestamp, a turn leads to another with them still ahead. */
  lemma CrowdStays(all: set<Stored>, fetch: Option<int> -> seq<Stored>, since: Option<int>, bound: Option<int>,
                   limit: nat, t: int)
    requires limit > 0 && IsPage(fetch(bound), Matching(all, since, bound), limit)
    requires |AtTime(Matching(all, since, bound), t)| >= limit
    ensures var s := Turn(fetch, since, limit, Running(bound));
            s.Running? && |AtTime(Matching(all, since, s.bound), t)| >= limit
  {
    var page := fetch(bound);
    FullPageOfCrowd(page, Matching(all, since, bound), limit, t);
    var next := Some(page[limit - 1].createdAt);
    assert AtTime(Matching(all, since, bound), t) <= AtTime(Matching(all, since, next), t);
    SubsetSize(AtTime(Matching(all, since, bound), t), AtTime(Matching(all, since, next), t));
  }

  lemma {:induction false} CrowdedNeverEnds(all: set<Stored>, fetch: Option<int> -> seq<Stored>, since: Option<int>,
                                           bound: Option<int>, limit: nat, t: int, n: nat)
    requires limit > 0 && Answers(fetch, all, since, limit)
    requires |AtTime(Matching(all, since, bound), t)| >= limit
    ensures Turns(fetch, since, limit, Running(bound), n).Running?
    decreases n
  {
    if n > 0 {
      CrowdStays(all, fetch, since, bound, limit, t);
      CrowdedNeverEnds(all, fetch, since, Turn(fetch, since, limit, Running(bound)).bound, limit, t, n - 1);
    }
  }

  lemma {:induction false} SpreadEnds(all: set<Stored>, fetch: Option<int> -> seq<Stored>, since: Option<int>,
                                     bound: Option<int>, range: set<Stored>, limit: nat) returns (m: nat)
    requires limit > 0 && Answers(fetch, all, since, limit)
    requires Spread(range, limit) && Matching(all, since, bound) <= range
    ensures Turns(fetch, since, limit, Running(bound), m) == Done
    decreases Matching(all, since, bound)
  {
    var page := fetch(bound);
    assert IsPage(page, Matching(all, since, bound), limit);
    if |page| < limit {
      m := 1;
    } else {
      FullPageAdvances(all, since, bound, page, range, limit);
      m := SpreadEnds(all, fetch, since, Some(page[limit - 1].createdAt), range, limit);
      m := m + 1;
    }
  }

  /** Whatever pages the database answers with, the loop ends if and only if fewer than a page of the
      matching events share any one timestamp. */
  lemma EndsExactly(all: set<Stored>, fetch: Option<int> -> seq<Stored>, since: Option<int>, until: Option<int>,
                    limit: nat)
    requires limit > 0 && Answers(fetch, all, since, limit)
    ensures Spread(Matching(all, since, until), limit) <==>
              exists n :: Turns(fetch, since, limit, Running(until), n) == Done
  {
    if Spread(Matching(all, since, until), limit) {
      var m := SpreadEnds(all, fetch, since, until, Matching(all, since, until), limit);
    } else {
      var t :| |AtTime(Matching(all, since, until), t)| >= limit;
      forall n: nat
        ensures Turns(fetch, since, limit, Running(until), n) != Done
      {
        CrowdedNeverEnds(all, fetch, since, until, limit, t, n);
      }
    }
  }
}
