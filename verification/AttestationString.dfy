/** The attestation string `<action>:<timestamp>[:<kind>,<kind>,...]` (`model/onbehalf.go`). */
module AttestationString {
  import opened Optional
  import opened Strconv
  import opened Text

  datatype Attestation = Attestation(action: string, ts: int, kinds: seq<int>)

  function ParseKinds(tokens: seq<string>): Option<seq<int>> {
    if tokens == [] then Some([])
    else match (ParseKinds(tokens[..|tokens| - 1]), Atoi(tokens[|tokens| - 1]))
         case (Some(ks), Some(k)) => Some(ks + [k])
         case _ => None
  }

  /** None is a parse error. */
  function ParseAttestationString(s: string): Option<Attestation> {
    var actionEnd := IndexOf(s, ':');
    if actionEnd == |s| then None
    else
      var tsStr := s[actionEnd + 1..];
      var tsEnd := IndexOf(tsStr, ':');
      match Atoi(tsStr[..tsEnd])
      case None => None
      case Some(ts) =>
        if tsEnd == |tsStr| then Some(Attestation(s[..actionEnd], ts, []))
        else match ParseKinds(Split(tsStr[tsEnd + 1..], ','))
             case None => None
             case Some(kinds) => Some(Attestation(s[..actionEnd], ts, kinds))
  }

  function RenderKinds(kinds: seq<int>): seq<string> {
    if kinds == [] then [] else RenderKinds(kinds[..|kinds| - 1]) + [Itoa(kinds[|kinds| - 1])]
  }

  function Render(a: Attestation): string {
    var head := a.action + [':'] + Itoa(a.ts);
    if a.kinds == [] then head else head + [':'] + Join(RenderKinds(a.kinds), ',')
  }

  lemma NumbersHaveNoSeparators(n: int)
    ensures Free(Itoa(n), ':') && Free(Itoa(n), ',')
  {
  }

  lemma {:induction false} RenderedKindsAreFree(kinds: seq<int>)
    ensures |RenderKinds(kinds)| == |kinds|
    ensures forall i :: 0 <= i < |kinds| ==> Free(RenderKinds(kinds)[i], ',')
  {
    if kinds != [] {
      RenderedKindsAreFree(kinds[..|kinds| - 1]);
      NumbersHaveNoSeparators(kinds[|kinds| - 1]);
    }
  }

  predicate Fits(n: int) {
    MIN_INT64 <= n <= MAX_INT64
  }

  lemma {:induction false} ParseEach(tokens: seq<string>, kinds: seq<int>)
    requires |tokens| == |kinds| && forall i :: 0 <= i < |tokens| ==> Atoi(tokens[i]) == Some(kinds[i])
    ensures ParseKinds(tokens) == Some(kinds)
  {
    hide Atoi;
    if tokens != [] {
      var n := |tokens| - 1;
      ParseEach(tokens[..n], kinds[..n]);
      assert kinds == kinds[..n] + [kinds[n]];
    }
  }

  lemma {:induction false} RenderedKindsParse(kinds: seq<int>)
    requires forall i :: 0 <= i < |kinds| ==> Fits(kinds[i])
    ensures |RenderKinds(kinds)| == |kinds|
    ensures forall i :: 0 <= i < |kinds| ==> Atoi(RenderKinds(kinds)[i]) == Some(kinds[i])
  {
    hide Atoi, Itoa;
    if kinds != [] {
      RenderedKindsParse(kinds[..|kinds| - 1]);
      assert Fits(kinds[|kinds| - 1]);
      AtoiItoa(kinds[|kinds| - 1]);
    }
  }

  /** The string with its parts apart. */
  lemma ParseParts(action: string, ts: string, kinds: Option<string>)
    requires Free(action, ':') && Free(ts, ':')
    ensures var s := action + [':'] + ts + (if kinds.Some? then [':'] + kinds.value else []);
            ParseAttestationString(s) ==
            match Atoi(ts)
            case None => None
            case Some(t) =>
              match (if kinds.Some? then ParseKinds(Split(kinds.value, ',')) else Some([]))
              case None => None
              case Some(ks) => Some(Attestation(action, t, ks))
  {
    hide Atoi, ParseKinds, Split;
    var tail := ts + (if kinds.Some? then [':'] + kinds.value else []);
    var s := action + [':'] + ts + (if kinds.Some? then [':'] + kinds.value else []);
    assert s == action + [':'] + tail;
    IndexAfterPrefix(action, ':', tail);
    assert s[..|action|] == action && s[|action| + 1..] == tail;
    if kinds.Some? {
      assert tail == ts + [':'] + kinds.value;
      IndexAfterPrefix(ts, ':', kinds.value);
      assert tail[..|ts|] == ts && tail[|ts| + 1..] == kinds.value;
    } else {
      assert tail == ts && ts[..|ts|] == ts;
    }
  }

  /** Parsing inverts rendering. */
  lemma ParseRender(a: Attestation)
    requires Free(a.action, ':') && Fits(a.ts) && forall i :: 0 <= i < |a.kinds| ==> Fits(a.kinds[i])
    ensures ParseAttestationString(Render(a)) == Some(a)
  {
    AtoiItoa(a.ts);
    NumbersHaveNoSeparators(a.ts);
    var head := a.action + [':'] + Itoa(a.ts);
    if a.kinds == [] {
      ParseParts(a.action, Itoa(a.ts), None);
      assert head + [] == head;
    } else {
      var kinds := Join(RenderKinds(a.kinds), ',');
      ParseParts(a.action, Itoa(a.ts), Some(kinds));
      assert head + ([':'] + kinds) == head + [':'] + kinds;
      RenderedKindsAreFree(a.kinds);
      SplitJoin(RenderKinds(a.kinds), ',');
      RenderedKindsParse(a.kinds);
      ParseEach(RenderKinds(a.kinds), a.kinds);
    }
  }
}
