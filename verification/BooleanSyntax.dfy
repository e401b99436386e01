/** Boolean SQL as tokens: a grammar with NOT above AND above OR, a recursive-descent parser, its inverse, and
    evaluation. */
module BooleanSyntax {
  import opened Optional

  /** An atom is a condition whose text holds no connective the surrounding expression could see. */
  datatype Token<A> = LP | RP | AND | OR | NOT | Condition(atom: A)

  datatype Literal<A> = Basic(atom: A) | Negated(arg: Literal<A>) | Group(body: Disjunction<A>)
  datatype Conjunction<A> = Conjunction(parts: seq<Literal<A>>)
  datatype Disjunction<A> = Disjunction(alternatives: seq<Conjunction<A>>)

  /** No empty parentheses and no missing operand anywhere. */
  predicate WellFormed<A>(l: Literal<A>) {
    match l
    case Basic(_) => true
    case Negated(arg) => WellFormed(arg)
    case Group(body) => WellFormedDisjunction(body)
  }

  predicate WellFormedConjunction<A>(c: Conjunction<A>) {
    c.parts != [] && forall i :: 0 <= i < |c.parts| ==> WellFormed(c.parts[i])
  }

  predicate WellFormedDisjunction<A>(d: Disjunction<A>) {
    d.alternatives != [] && forall i :: 0 <= i < |d.alternatives| ==> WellFormedConjunction(d.alternatives[i])
  }

  // ---- Writing

  function Write<A>(l: Literal<A>): (tokens: seq<Token<A>>)
    ensures tokens != [] && tokens[|tokens| - 1] != LP
  {
    match l
    case Basic(a) => [Condition(a)]
    case Negated(arg) => [NOT] + Write(arg)
    case Group(body) => [LP] + WriteAny(body.alternatives) + [RP]
  }

  function WriteAll<A>(parts: seq<Literal<A>>): (tokens: seq<Token<A>>)
    ensures parts != [] ==> tokens != [] && tokens[|tokens| - 1] != LP
  {
    if parts == [] then []
    else if |parts| == 1 then Write(parts[0])
    else WriteAll(parts[..|parts| - 1]) + [AND] + Write(parts[|parts| - 1])
  }

  function WriteAny<A>(alternatives: seq<Conjunction<A>>): (tokens: seq<Token<A>>)
    ensures alternatives != [] && alternatives[|alternatives| - 1].parts != [] ==>
              tokens != [] && tokens[|tokens| - 1] != LP
  {
    if alternatives == [] then []
    else if |alternatives| == 1 then WriteAll(alternatives[0].parts)
    else WriteAny(alternatives[..|alternatives| - 1]) + [OR] + WriteAll(alternatives[|alternatives| - 1].parts)
  }

  // ---- Reading

  function ReadLiteral<A>(tokens: seq<Token<A>>): (r: Option<(Literal<A>, seq<Token<A>>)>)
    ensures r.Some? ==> |r.value.1| < |tokens| && WellFormed(r.value.0)
    decreases |tokens|, 0
  {
    if tokens == [] then None
    else
      match tokens[0]
      case Condition(a) => Some((Basic(a), tokens[1..]))
      case NOT => (
        match ReadLiteral(tokens[1..])
        case Some((arg, rest)) => Some((Negated(arg), rest))
        case None => None)
      case LP => (
        match ReadAny(tokens[1..])
        case Some((body, rest)) => if rest != [] && rest[0] == RP then Some((Group(body), rest[1..])) else None
        case None => None)
      case _ => None
  }

  function ReadAll<A>(tokens: seq<Token<A>>): (r: Option<(Conjunction<A>, seq<Token<A>>)>)
    ensures r.Some? ==> |r.value.1| < |tokens| && WellFormedConjunction(r.value.0)
    decreases |tokens|, 1
  {
    match ReadLiteral(tokens)
    case None => None
    case Some((first, rest)) =>
      if rest == [] || rest[0] != AND then Some((Conjunction([first]), rest))
      else
        match ReadAll(rest[1..])
        case Some((others, end)) => Some((Conjunction([first] + others.parts), end))
        case None => None
  }

  function ReadAny<A>(tokens: seq<Token<A>>): (r: Option<(Disjunction<A>, seq<Token<A>>)>)
    ensures r.Some? ==> |r.value.1| < |tokens| && WellFormedDisjunction(r.value.0)
    decreases |tokens|, 2
  {
    match ReadAll(tokens)
    case None => None
    case Some((first, rest)) =>
      if rest == [] || rest[0] != OR then Some((Disjunction([first]), rest))
      else
        match ReadAny(rest[1..])
        case Some((others, end)) => Some((Disjunction([first] + others.alternatives), end))
        case None => None
  }

  /** The whole text as one expression; None when the text is not a boolean expression. */
  function Parse<A>(tokens: seq<Token<A>>): Option<Disjunction<A>> {
    match ReadAny(tokens)
    case Some((d, rest)) => if rest == [] then Some(d) else None
    case None => None
  }

  // ---- Reading inverts writing

  lemma {:induction false} WriteAllFirst<A>(parts: seq<Literal<A>>)
    requires |parts| > 1
    ensures WriteAll(parts) == Write(parts[0]) + [AND] + WriteAll(parts[1..])
  {
    var init := parts[..|parts| - 1];
    assert parts[1..][..|parts| - 2] == init[1..];
    if |init| > 1 {
      WriteAllFirst(init);
    }
  }

  lemma {:induction false} WriteAnyFirst<A>(alternatives: seq<Conjunction<A>>)
    requires |alternatives| > 1
    ensures WriteAny(alternatives) == WriteAll(alternatives[0].parts) + [OR] + WriteAny(alternatives[1..])
  {
    var init := alternatives[..|alternatives| - 1];
    assert alternatives[1..][..|alternatives| - 2] == init[1..];
    if |init| > 1 {
      WriteAnyFirst(init);
    }
  }

  lemma {:induction false} ReadWrite<A>(l: Literal<A>, rest: seq<Token<A>>)
    requires WellFormed(l)
    ensures ReadLiteral(Write(l) + rest) == Some((l, rest))
    decreases |Write(l)|, 0
  {
    match l
    case Basic(a) =>
      assert (Write(l) + rest)[1..] == rest;
    case Negated(arg) =>
      ReadWrite(arg, rest);
      hide ReadAny, WriteAny;
      assert (Write(l) + rest)[1..] == Write(arg) + rest;
    case Group(body) =>
      assert Write(l) == [LP] + WriteAny(body.alternatives) + [RP];
      ReadWriteAny(body.alternatives, [RP] + rest);
      ReadGroupStep(WriteAny(body.alternatives), body, rest);
  }

  lemma ReadGroupStep<A>(inner: seq<Token<A>>, body: Disjunction<A>, rest: seq<Token<A>>)
    requires ReadAny(inner + ([RP] + rest)) == Some((body, [RP] + rest))
    ensures ReadLiteral([LP] + inner + [RP] + rest) == Some((Group(body), rest))
  {
    hide ReadAny, ReadAll;
    var tokens := [LP] + inner + [RP] + rest;
    assert tokens[1..] == inner + ([RP] + rest) && ([RP] + rest)[1..] == rest;
  }

  lemma ReadAllStep<A>(first: seq<Token<A>>, l: Literal<A>, tail: seq<Token<A>>,
                                          others: seq<Literal<A>>,
                       end: seq<Token<A>>)
    requires ReadLiteral(first + ([AND] + tail)) == Some((l, [AND] + tail))
    requires ReadAll(tail) == Some((Conjunction(others), end))
    ensures ReadAll(first + [AND] + tail) == Some((Conjunction([l] + others), end))
  {
    assert first + [AND] + tail == first + ([AND] + tail) && ([AND] + tail)[1..] == tail;
  }

  lemma ReadAnyStep<A>(first: seq<Token<A>>, c: Conjunction<A>, tail: seq<Token<A>>,
                                          others: seq<Conjunction<A>>,
                       end: seq<Token<A>>)
    requires ReadAll(first + ([OR] + tail)) == Some((c, [OR] + tail))
    requires ReadAny(tail) == Some((Disjunction(others), end))
    ensures ReadAny(first + [OR] + tail) == Some((Disjunction([c] + others), end))
  {
    assert first + [OR] + tail == first + ([OR] + tail) && ([OR] + tail)[1..] == tail;
  }

  lemma {:induction false} ReadWriteAll<A>(parts: seq<Literal<A>>, rest: seq<Token<A>>)
    requires WellFormedConjunction(Conjunction(parts)) && (rest == [] || rest[0] != AND)
    ensures ReadAll(WriteAll(parts) + rest) == Some((Conjunction(parts), rest))
    decreases |WriteAll(parts)|, 2
  {
    hide ReadLiteral, ReadAll, Write, WriteAll, WellFormed;
    var first := parts[0];
    assert WellFormed(first);
    if |parts| == 1 {
      assert [first] == parts;
      ReadAllOne(first, rest);
    } else {
      var tail := WriteAll(parts[1..]) + rest;
      WriteAllFirst(parts);
      assert WriteAll(parts) + rest == Write(first) + [AND] + tail;
      assert parts == [first] + parts[1..];
      ReadWrite(first, [AND] + tail);
      ReadWriteAll(parts[1..], rest);
      ReadAllStep(Write(first), first, tail, parts[1..], rest);
    }
  }

  lemma {:induction false} ReadAllOne<A>(l: Literal<A>, rest: seq<Token<A>>)
    requires WellFormed(l) && (rest == [] || rest[0] != AND)
    ensures ReadAll(WriteAll([l]) + rest) == Some((Conjunction([l]), rest))
    decreases |WriteAll([l])|, 1
  {
    assert WriteAll([l]) == Write(l);
    ReadWrite(l, rest);
  }

  lemma {:induction false} ReadWriteAny<A>(alternatives: seq<Conjunction<A>>, rest: seq<Token<A>>)
    requires WellFormedDisjunction(Disjunction(alternatives)) && (rest == [] || rest[0] !in {AND, OR})
    ensures ReadAny(WriteAny(alternatives) + rest) == Some((Disjunction(alternatives), rest))
    decreases |WriteAny(alternatives)|, 4
  {
    hide ReadAll, ReadAny, WriteAll, WriteAny, WellFormedConjunction;
    var first := alternatives[0];
    assert WellFormedConjunction(first);
    if |alternatives| == 1 {
      assert [first] == alternatives;
      ReadAnyOne(first, rest);
    } else {
      var tail := WriteAny(alternatives[1..]) + rest;
      WriteAnyFirst(alternatives);
      assert WriteAny(alternatives) + rest == WriteAll(first.parts) + [OR] + tail;
      assert alternatives == [first] + alternatives[1..];
      ReadWriteAll(first.parts, [OR] + tail);
      ReadWriteAny(alternatives[1..], rest);
      ReadAnyStep(WriteAll(first.parts), first, tail, alternatives[1..], rest);
    }
  }

  lemma {:induction false} ReadAnyOne<A>(c: Conjunction<A>, rest: seq<Token<A>>)
    requires WellFormedConjunction(c) && (rest == [] || rest[0] !in {AND, OR})
    ensures ReadAny(WriteAny([c]) + rest) == Some((Disjunction([c]), rest))
    decreases |WriteAny([c])|, 3
  {
    assert WriteAny([c]) == WriteAll(c.parts);
    ReadWriteAll(c.parts, rest);
  }

  /** What is written as a disjunction is read back as exactly that disjunction. */
  lemma ParseWrite<A>(alternatives: seq<Conjunction<A>>)
    requires WellFormedDisjunction(Disjunction(alternatives))
    ensures Parse(WriteAny(alternatives)) == Some(Disjunction(alternatives))
  {
    ReadWriteAny(alternatives, []);
    assert WriteAny(alternatives) + [] == WriteAny(alternatives);
  }

  // ---- Meaning

  predicate Holds<A>(l: Literal<A>, verdict: A -> bool) {
    match l
    case Basic(a) => verdict(a)
    case Negated(arg) => !Holds(arg, verdict)
    case Group(body) => SomeHolds(body, verdict)
  }

  predicate AllHold<A>(c: Conjunction<A>, verdict: A -> bool) {
    forall i :: 0 <= i < |c.parts| ==> Holds(c.parts[i], verdict)
  }

  predicate SomeHolds<A>(d: Disjunction<A>, verdict: A -> bool) {
    exists i :: 0 <= i < |d.alternatives| && AllHold(d.alternatives[i], verdict)
  }

  /** Every condition of the expression satisfies a test. */
  predicate Every<A>(l: Literal<A>, test: A -> bool) {
    match l
    case Basic(a) => test(a)
    case Negated(arg) => Every(arg, test)
    case Group(body) => EveryAny(body, test)
  }

  predicate EveryAll<A>(c: Conjunction<A>, test: A -> bool) {
    forall i :: 0 <= i < |c.parts| ==> Every(c.parts[i], test)
  }

  predicate EveryAny<A>(d: Disjunction<A>, test: A -> bool) {
    forall i :: 0 <= i < |d.alternatives| ==> EveryAll(d.alternatives[i], test)
  }

  /** Verdicts that agree on the conditions of an expression agree on the expression. */
  lemma {:induction false} SameVerdicts<A(!new)>(l: Literal<A>, test: A -> bool, one: A -> bool, other: A -> bool)
    requires Every(l, test) && forall a :: test(a) ==> one(a) == other(a)
    ensures Holds(l, one) == Holds(l, other)
  {
    match l
    case Basic(a) =>
    case Negated(arg) => SameVerdicts(arg, test, one, other);
    case Group(body) =>
      forall i | 0 <= i < |body.alternatives|
        ensures AllHold(body.alternatives[i], one) == AllHold(body.alternatives[i], other)
      {
        var c := body.alternatives[i];
        assert EveryAll(c, test);
        forall j | 0 <= j < |c.parts|
          ensures Holds(c.parts[j], one) == Holds(c.parts[j], other)
        {
          SameVerdicts(c.parts[j], test, one, other);
        }
      }
  }

  lemma {:induction false} EveryWeaker<A(!new)>(l: Literal<A>, strong: A -> bool, weak: A -> bool)
    requires Every(l, strong) && forall a :: strong(a) ==> weak(a)
    ensures Every(l, weak)
  {
    match l
    case Basic(a) =>
    case Negated(arg) => EveryWeaker(arg, strong, weak);
    case Group(body) =>
      forall i, j | 0 <= i < |body.alternatives| && 0 <= j < |body.alternatives[i].parts|
        ensures Every(body.alternatives[i].parts[j], weak)
      {
        assert EveryAll(body.alternatives[i], strong);
        EveryWeaker(body.alternatives[i].parts[j], strong, weak);
      }
  }

  // ---- Small groups

  function Only<A>(l: Literal<A>): Literal<A> {
    Group(Disjunction([Conjunction([l])]))
  }

  function Both<A>(l: Literal<A>, r: Literal<A>): Literal<A> {
    Group(Disjunction([Conjunction([l, r])]))
  }

  function Either<A>(l: Literal<A>, r: Literal<A>): Literal<A> {
    Group(Disjunction([Conjunction([l]), Conjunction([r])]))
  }

  /** `(l AND x OR r AND x)`, which the precedence of AND makes a choice of two conjunctions. */
  function EitherWith<A>(l: Literal<A>, r: Literal<A>, x: Literal<A>): Literal<A> {
    Group(Disjunction([Conjunction([l, x]), Conjunction([r, x])]))
  }

  lemma WritePair<A>(l: Literal<A>, r: Literal<A>)
    ensures WriteAll([l]) == Write(l) && WriteAll([l, r]) == Write(l) + [AND] + Write(r)
  {
    assert [l, r][..1] == [l];
  }

  lemma WriteGroups<A>(l: Literal<A>, r: Literal<A>, x: Literal<A>)
    ensures Write(Only(l)) == [LP] + Write(l) + [RP]
    ensures Write(Both(l, r)) == [LP] + Write(l) + [AND] + Write(r) + [RP]
    ensures Write(Either(l, r)) == [LP] + Write(l) + [OR] + Write(r) + [RP]
    ensures Write(EitherWith(l, r, x)) ==
            [LP] + Write(l) + [AND] + Write(x) + [OR] + Write(r) + [AND] + Write(x) + [RP]
  {
    hide Write, WriteAll;
    WritePair(l, r);
    WritePair(r, x);
    WritePair(l, x);
    WriteTwo(Conjunction([l]), Conjunction([r]));
    WriteTwo(Conjunction([l, x]), Conjunction([r, x]));
    WriteTwo(Conjunction([l, r]), Conjunction([r, x]));
    WriteGroup(Disjunction([Conjunction([l])]));
    WriteGroup(Disjunction([Conjunction([l, r])]));
    WriteGroup(Disjunction([Conjunction([l]), Conjunction([r])]));
    WriteGroup(Disjunction([Conjunction([l, x]), Conjunction([r, x])]));
  }

  lemma WriteGroup<A>(body: Disjunction<A>)
    ensures Write(Group(body)) == [LP] + WriteAny(body.alternatives) + [RP]
  {
  }

  lemma WriteTwo<A>(c: Conjunction<A>, d: Conjunction<A>)
    ensures WriteAny([c]) == WriteAll(c.parts) && WriteAny([c, d]) == WriteAll(c.parts) + [OR] + WriteAll(d.parts)
  {
    assert [c, d][..1] == [c];
  }

  lemma GroupsWellFormed<A>(l: Literal<A>, r: Literal<A>, x: Literal<A>)
    requires WellFormed(l) && WellFormed(r) && WellFormed(x)
    ensures WellFormed(Only(l)) && WellFormed(Both(l, r)) && WellFormed(Either(l, r)) && WellFormed(EitherWith(l, r, x))
  {
    assert forall c :: c in {Conjunction([l]), Conjunction([r]), Conjunction([l, r]), Conjunction([l, x]), Conjunction([r, x])} ==>
                         WellFormedConjunction(c);
  }

  lemma GroupsEvery<A>(l: Literal<A>, r: Literal<A>, x: Literal<A>, test: A -> bool)
    ensures Every(l, test) ==> Every(Only(l), test)
    ensures Every(l, test) && Every(r, test) ==> Every(Both(l, r), test) && Every(Either(l, r), test)
    ensures Every(l, test) && Every(r, test) && Every(x, test) ==> Every(EitherWith(l, r, x), test)
  {
  }

  lemma GroupsHold<A>(l: Literal<A>, r: Literal<A>, x: Literal<A>, verdict: A -> bool)
    ensures Holds(Only(l), verdict) <==> Holds(l, verdict)
    ensures Holds(Both(l, r), verdict) <==> Holds(l, verdict) && Holds(r, verdict)
    ensures Holds(Either(l, r), verdict) <==> Holds(l, verdict) || Holds(r, verdict)
    ensures Holds(EitherWith(l, r, x), verdict) <==> (Holds(l, verdict) || Holds(r, verdict)) && Holds(x, verdict)
  {
    PairHolds(l, r, verdict);
    PairHolds(l, x, verdict);
    PairHolds(r, x, verdict);
    ChoiceHolds(Conjunction([l]), Conjunction([r]), verdict);
    ChoiceHolds(Conjunction([l, r]), Conjunction([r]), verdict);
    ChoiceHolds(Conjunction([l, x]), Conjunction([r, x]), verdict);
    hide AllHold, SomeHolds;
  }

  lemma PairHolds<A>(l: Literal<A>, r: Literal<A>, verdict: A -> bool)
    ensures AllHold(Conjunction([l]), verdict) <==> Holds(l, verdict)
    ensures AllHold(Conjunction([r]), verdict) <==> Holds(r, verdict)
    ensures AllHold(Conjunction([l, r]), verdict) <==> Holds(l, verdict) && Holds(r, verdict)
  {
    hide Holds;
    assert Conjunction([l]).parts[0] == l && Conjunction([r]).parts[0] == r;
    assert Conjunction([l, r]).parts[0] == l && Conjunction([l, r]).parts[1] == r;
  }

  lemma ChoiceHolds<A>(c: Conjunction<A>, d: Conjunction<A>, verdict: A -> bool)
    ensures SomeHolds(Disjunction([c]), verdict) <==> AllHold(c, verdict)
    ensures SomeHolds(Disjunction([c, d]), verdict) <==> AllHold(c, verdict) || AllHold(d, verdict)
  {
    hide AllHold;
    assert Disjunction([c]).alternatives[0] == c;
    assert Disjunction([c, d]).alternatives[0] == c && Disjunction([c, d]).alternatives[1] == d;
  }
}
