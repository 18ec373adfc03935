/**
  DN.java on parsed lists: the parser `stringToRdns`, the serialiser `rdnsToString`, the
  index arithmetic behind navigation, and the order of `compareTo`. Index 0 of a parsed
  list is the right-most token of the string.
 */
module DnLists {
  import opened JavaStrings
  import opened Results
  import opened Patterns
  import opened Rdn

  /** The RuntimeException "Malformed DN string '%s'", with the string it names. */
  datatype Error = MalformedDn(dn: JString)

  // ---------------------------------------------------------------------------
  // Parsing
  // ---------------------------------------------------------------------------

  /** The runs `find()` returns for DN_REGEXP from `from` on, in textual order. */
  function Tokens(s: JString, from: nat): (ts: seq<JString>)
    requires from <= |s|
    ensures forall j | 0 <= j < |ts| :: ts[j] != []
    decreases |s| - from
  {
    match Find(DN_PATTERN, s, from)
    case None => []
    case Some(m) => [s[m.start..m.end]] + Tokens(s, m.end)
  }

  /** The attribute run and the value run of one token: its first two RDN_REGEXP matches. */
  function SplitToken(t: JString): (av: Option<(JString, JString)>)
    ensures av.Some? ==> av.value.0 != [] && av.value.1 != []
  {
    match Find(RDN_PATTERN, t, 0)
    case None => None
    case Some(m1) =>
      match Find(RDN_PATTERN, t, m1.end)
      case None => None
      case Some(m2) => Some((t[m1.start..m1.end], t[m2.start..m2.end]))
  }

  /** The RDN one token stands for: `new RDN(attribute, value, true)`. */
  function RdnOfToken(t: JString): RDN
    requires SplitToken(t).Some?
  {
    FromEscaped(SplitToken(t).value.0, SplitToken(t).value.1)
  }

  /**
    The tokens parsed in textual order. Parsing fails, naming the whole DN string, exactly
    when some token lacks an attribute run or a value run; otherwise every token gives the
    RDN built from its two runs.
   */
  function ParseTokens(dn: JString, ts: seq<JString>): (r: Result<seq<RDN>, Error>)
    ensures r.Success? <==> forall j | 0 <= j < |ts| :: SplitToken(ts[j]).Some?
    ensures r.Failure? ==> r.error == MalformedDn(dn)
    ensures r.Success? ==> |r.value| == |ts| && forall j | 0 <= j < |ts| :: r.value[j] == RdnOfToken(ts[j])
  {
    if ts == [] then Success([])
    else match SplitToken(ts[0])
      case None => Failure(MalformedDn(dn))
      case Some(av) =>
        match ParseTokens(dn, ts[1..])
        case Failure(e) =>
          UnsplitInTail(ts);
          Failure(e)
        case Success(rest) =>
          ParsedCons(ts, FromEscaped(av.0, av.1), rest);
          Success([FromEscaped(av.0, av.1)] + rest)
  }

  /** A token of the tail that does not split is a token of the whole list that does not split. */
  lemma UnsplitInTail(ts: seq<JString>)
    requires ts != [] && !forall j | 0 <= j < |ts| - 1 :: SplitToken(ts[1..][j]).Some?
    ensures !forall j | 0 <= j < |ts| :: SplitToken(ts[j]).Some?
  {
    var j :| 0 <= j < |ts| - 1 && SplitToken(ts[1..][j]).None?;
    assert ts[1..][j] == ts[j + 1];
  }

  /** The first token's RDN in front of the RDNs of the tail: every token splits, and RDN `j` is token `j`'s. */
  lemma ParsedCons(ts: seq<JString>, x: RDN, rest: seq<RDN>)
    requires ts != [] && SplitToken(ts[0]).Some? && x == RdnOfToken(ts[0])
    requires forall j | 0 <= j < |ts| - 1 :: SplitToken(ts[1..][j]).Some?
    requires |rest| == |ts| - 1 && forall j | 0 <= j < |rest| :: rest[j] == RdnOfToken(ts[1..][j])
    ensures forall j | 0 <= j < |ts| :: SplitToken(ts[j]).Some?
    ensures |[x] + rest| == |ts| && forall j | 0 <= j < |ts| :: ([x] + rest)[j] == RdnOfToken(ts[j])
  {
    assert forall j | 1 <= j < |ts| :: ts[j] == ts[1..][j - 1];
  }

  function Reverse<T>(xs: seq<T>): seq<T> {
    seq(|xs|, i requires 0 <= i < |xs| => xs[|xs| - 1 - i])
  }

  /**
    What `stringToRdns` yields: the tokens parsed, then the list reversed, so that index
    `i` holds the RDN of the `i`-th token counted from the right.
   */
  function ParseDn(s: JString): (r: Result<seq<RDN>, Error>)
    ensures r.Failure? <==> exists j | 0 <= j < |Tokens(s, 0)| :: SplitToken(Tokens(s, 0)[j]).None?
    ensures r.Failure? ==> r.error == MalformedDn(s)
    ensures r.Success? ==> |r.value| == |Tokens(s, 0)|
    ensures r.Success? ==> forall j | 0 <= j < |r.value| :: r.value[|r.value| - 1 - j] == RdnOfToken(Tokens(s, 0)[j])
  {
    match ParseTokens(s, Tokens(s, 0))
    case Failure(e) => Failure(e)
    case Success(rs) =>
      MirrorOfReverse(rs);
      Success(Reverse(rs))
  }

  /** Reading `xs` reversed from the end gives `xs` from the start. */
  lemma MirrorOfReverse<T>(xs: seq<T>)
    ensures |Reverse(xs)| == |xs| && forall j | 0 <= j < |xs| :: Reverse(xs)[|xs| - 1 - j] == xs[j]
  {
  }

  /** A parse with some RDNs already collected in front of it. */
  function Prepend(front: seq<RDN>, r: Result<seq<RDN>, Error>): Result<seq<RDN>, Error> {
    match r
    case Success(rest) => Success(front + rest)
    case Failure(e) => Failure(e)
  }

  /** Parsing from a token on: that token's RDN in front of the parse of the rest, or the failure. */
  lemma ParseStep(s: JString, pos: nat, m: Match)
    requires pos <= |s| && Find(DN_PATTERN, s, pos) == Some(m)
    ensures Tokens(s, pos) == [s[m.start..m.end]] + Tokens(s, m.end)
    ensures SplitToken(s[m.start..m.end]).None? ==>
              ParseTokens(s, Tokens(s, pos)) == Failure(MalformedDn(s))
    ensures SplitToken(s[m.start..m.end]).Some? ==>
              ParseTokens(s, Tokens(s, pos)) == Prepend([RdnOfToken(s[m.start..m.end])], ParseTokens(s, Tokens(s, m.end)))
  {
    var ts := Tokens(s, pos);
    assert ts[1..] == Tokens(s, m.end);
  }

  lemma PrependTwice(a: seq<RDN>, b: seq<RDN>, r: Result<seq<RDN>, Error>)
    ensures Prepend(a, Prepend(b, r)) == Prepend(a + b, r)
    ensures Prepend([], r) == r
  {
    if r.Success? {
      assert a + (b + r.value) == (a + b) + r.value;
      assert [] + r.value == r.value;
    }
  }

  /** `stringToRdns(dnString)`, DN.java:153-169. */
  method StringToRdns(dnString: JString) returns (r: Result<seq<RDN>, Error>)
    ensures r == ParseDn(dnString)
  {
    var res: seq<RDN> := [];
    var pos := 0;
    var m := Find(DN_PATTERN, dnString, 0);
    PrependTwice([], [], ParseTokens(dnString, Tokens(dnString, 0)));
    while m.Some?
      invariant pos <= |dnString| && m == Find(DN_PATTERN, dnString, pos)
      invariant ParseTokens(dnString, Tokens(dnString, 0)) == Prepend(res, ParseTokens(dnString, Tokens(dnString, pos)))
      decreases |dnString| - pos
    {
      var token := dnString[m.value.start..m.value.end];
      ParseStep(dnString, pos, m.value);
      var m2 := Find(RDN_PATTERN, token, 0);
      if m2.None? {
        return Failure(MalformedDn(dnString));
      }
      var attribute := token[m2.value.start..m2.value.end];
      var m3 := Find(RDN_PATTERN, token, m2.value.end);
      if m3.None? {
        return Failure(MalformedDn(dnString));
      }
      var rdn := NewRdn(attribute, token[m3.value.start..m3.value.end], true);
      assert rdn == RdnOfToken(token);
      PrependTwice(res, [rdn], ParseTokens(dnString, Tokens(dnString, m.value.end)));
      res := res + [rdn];
      pos := m.value.end;
      m := Find(DN_PATTERN, dnString, pos);
    }
    assert Tokens(dnString, pos) == [];
    PrependTwice(res, [], ParseTokens(dnString, []));
    assert res + [] == res;
    r := Success(Reverse(res));
  }

  // ---------------------------------------------------------------------------
  // Serialising
  // ---------------------------------------------------------------------------

  /** Texts joined by commas. */
  function Join(xs: seq<JString>): JString
  {
    if xs == [] then []
    else if |xs| == 1 then xs[0]
    else xs[0] + [COMMA] + Join(xs[1..])
  }

  /** The `toString()` of every RDN in textual order: the highest index first. */
  function Texts(rs: seq<RDN>): seq<JString> {
    seq(|rs|, i requires 0 <= i < |rs| => ToString(rs[|rs| - 1 - i]))
  }

  /** What `rdnsToString` yields. */
  function Serialize(rs: seq<RDN>): JString {
    Join(Texts(rs))
  }

  /** Joining one more text adds a comma and that text at the end. */
  lemma {:induction false} JoinSnoc(xs: seq<JString>, y: JString)
    requires xs != []
    ensures Join(xs + [y]) == Join(xs) + [COMMA] + y
    decreases |xs|
  {
    if |xs| == 1 {
      assert (xs + [y])[1..] == [y];
    } else {
      JoinSnoc(xs[1..], y);
      assert (xs + [y])[1..] == xs[1..] + [y];
    }
  }

  /** `rdnsToString(rdns)`, DN.java:171-180. */
  method RdnsToString(rdns: seq<RDN>) returns (s: JString)
    ensures s == Serialize(rdns)
  {
    ghost var texts := Texts(rdns);
    var sb: JString := [];
    var i := |rdns| - 1;
    while i > -1
      invariant -1 <= i < |rdns|
      invariant i == |rdns| - 1 ==> sb == []
      invariant i < |rdns| - 1 ==> sb == Join(texts[..|rdns| - 1 - i]) + (if i >= 0 then [COMMA] else [])
      decreases i
    {
      ghost var k := |rdns| - 1 - i;
      assert texts[..k + 1] == texts[..k] + [ToString(rdns[i])];
      if k > 0 {
        JoinSnoc(texts[..k], ToString(rdns[i]));
      }
      sb := sb + ToString(rdns[i]);
      if i > 0 {
        sb := sb + [COMMA];
      }
      i := i - 1;
    }
    assert texts[..|rdns|] == texts;
    s := sb;
  }

  // ---------------------------------------------------------------------------
  // Parsing inverts serialising
  // ---------------------------------------------------------------------------

  /** An RDN whose `toString()` parses back to it: both runs nonempty and clean, and the value the unescaped form. */
  predicate WellFormed(r: RDN) {
    r.attribute != [] && Clean(r.attribute, COMMA) && Clean(r.attribute, EQUALS)
    && r.valueEscaped != [] && Clean(r.valueEscaped, COMMA) && Clean(r.valueEscaped, EQUALS)
    && r.value == UnescapeRef(r.valueEscaped)
  }

  /** A nonempty clean text followed by the delimiter or the end is the match found where it starts. */
  lemma RunMatch(s: JString, i: nat, x: JString, d: CodeUnit)
    requires d != BACKSLASH && x != [] && Clean(x, d)
    requires i + |x| <= |s| && s[i..i + |x|] == x
    requires i + |x| == |s| || s[i + |x|] == d
    ensures Find(RunWithout(d), s, i) == Some(Match(i, i + |x|))
  {
    RunOfClean(s, i, x, d);
    assert s[i] != d by { assert s[i] == x[0]; }
    assert MatchAt(RunWithout(d), s, i) == Some(i + |x|);
  }

  /** A clean token at `i`, ended by a comma or the end of the string, is the next token. */
  lemma TokensStep(s: JString, i: nat, x: JString)
    requires x != [] && Clean(x, COMMA)
    requires i + |x| <= |s| && s[i..i + |x|] == x
    requires i + |x| == |s| || s[i + |x|] == COMMA
    ensures Tokens(s, i) == [x] + Tokens(s, i + |x|)
  {
    RunMatch(s, i, x, COMMA);
  }

  /** A clean token at `i` followed by a comma is the next token, and the tokens go on after the comma. */
  lemma TokensStepComma(s: JString, i: nat, x: JString, rest: seq<JString>)
    requires x != [] && Clean(x, COMMA)
    requires i + |x| < |s| && s[i..i + |x|] == x && s[i + |x|] == COMMA
    requires Tokens(s, i + |x| + 1) == rest
    ensures Tokens(s, i) == [x] + rest
  {
    TokensStep(s, i, x);
    CommaSkipped(s, i + |x|);
  }

  /** A join of two or more texts: the first text, a comma, and the join of the rest. */
  lemma JoinParts(s: JString, i: nat, xs: seq<JString>)
    requires i <= |s| && s[i..] == Join(xs) && |xs| >= 2
    ensures i + |xs[0]| < |s| && s[i..i + |xs[0]|] == xs[0] && s[i + |xs[0]|] == COMMA
    ensures s[i + |xs[0]| + 1..] == Join(xs[1..])
  {
    var x := xs[0];
    var e := i + |x|;
    var rest := Join(xs[1..]);
    assert s[i..] == x + [COMMA] + rest;
    assert s[i..e] == x;
    assert s[e] == COMMA by { assert s[e] == s[i..][|x|]; }
    assert s[e + 1..] == rest by { assert s[e + 1..] == s[i..][|x| + 1..]; }
  }

  /**
    The texts `xs` lie in `s` from `i` to the end, one after another with a comma between
    each two: `Join(xs)` spelled out position by position.
   */
  ghost predicate JoinedAt(s: JString, i: nat, xs: seq<JString>)
    decreases |xs|
  {
    if xs == [] then i == |s|
    else if |xs| == 1 then i + |xs[0]| == |s| && s[i..] == xs[0]
    else i + |xs[0]| < |s| && s[i..i + |xs[0]|] == xs[0] && s[i + |xs[0]|] == COMMA
         && JoinedAt(s, i + |xs[0]| + 1, xs[1..])
  }

  /** A suffix equal to `Join(xs)` holds the texts `xs` at their positions. */
  lemma {:induction false} JoinedAtOfJoin(s: JString, i: nat, xs: seq<JString>)
    requires i <= |s| && s[i..] == Join(xs)
    ensures JoinedAt(s, i, xs)
    decreases |xs|
  {
    if |xs| >= 2 {
      JoinParts(s, i, xs);
      JoinedAtOfJoin(s, i + |xs[0]| + 1, xs[1..]);
    }
  }

  /** The tokens of clean texts laid out by `JoinedAt` are those texts. */
  lemma {:induction false} TokensOfJoined(s: JString, i: nat, xs: seq<JString>)
    requires forall j | 0 <= j < |xs| :: xs[j] != [] && Clean(xs[j], COMMA)
    requires JoinedAt(s, i, xs)
    ensures Tokens(s, i) == xs
    decreases |xs|
  {
    if xs == [] {
      TokensAtEnd(s, i);
    } else if |xs| == 1 {
      TokensOfOne(s, i, xs[0]);
    } else {
      TokensOfJoined(s, i + |xs[0]| + 1, xs[1..]);
      TokensOfJoinedStep(s, i, xs);
    }
  }

  /** The step of `TokensOfJoined`: the first text is the next token, and the rest follow it. */
  lemma TokensOfJoinedStep(s: JString, i: nat, xs: seq<JString>)
    requires xs != [] && xs[0] != [] && Clean(xs[0], COMMA)
    requires i + |xs[0]| < |s| && s[i..i + |xs[0]|] == xs[0] && s[i + |xs[0]|] == COMMA
    requires Tokens(s, i + |xs[0]| + 1) == xs[1..]
    ensures Tokens(s, i) == xs
  {
    TokensStepComma(s, i, xs[0], xs[1..]);
    assert [xs[0]] + xs[1..] == xs;
  }

  /** Nothing is left after the end: no tokens. */
  lemma TokensAtEnd(s: JString, i: nat)
    requires i == |s|
    ensures Tokens(s, i) == []
  {
    assert Find(DN_PATTERN, s, i).None?;
  }

  /** One clean text running to the end is the only token. */
  lemma TokensOfOne(s: JString, i: nat, x: JString)
    requires x != [] && Clean(x, COMMA)
    requires i + |x| == |s| && s[i..] == x
    ensures Tokens(s, i) == [x]
  {
    assert s[i..i + |x|] == x;
    TokensStep(s, i, x);
    TokensAtEnd(s, i + |x|);
  }

  /** The tokens of comma-joined clean texts are those texts. */
  lemma TokensOfJoin(s: JString, i: nat, xs: seq<JString>)
    requires forall j | 0 <= j < |xs| :: xs[j] != [] && Clean(xs[j], COMMA)
    requires i <= |s| && s[i..] == Join(xs)
    ensures Tokens(s, i) == xs
  {
    JoinedAtOfJoin(s, i, xs);
    TokensOfJoined(s, i, xs);
  }

  /** A token made of a clean attribute, `=`, a clean value and nothing or a further `=` run splits into those two runs. */
  lemma SplitOfPair(t: JString, a: JString, e: JString, rest: JString)
    requires a != [] && Clean(a, EQUALS) && e != [] && Clean(e, EQUALS)
    requires t == a + [EQUALS] + e + rest
    requires rest == [] || rest[0] == EQUALS
    ensures SplitToken(t) == Some((a, e))
  {
    assert t[..|a|] == a;
    RunMatch(t, 0, a, EQUALS);
    FindSkipsDelimiter(t, |a|, EQUALS);
    assert t[|a| + 1..|a| + 1 + |e|] == e;
    RunMatch(t, |a| + 1, e, EQUALS);
  }

  /** The `toString()` of a well-formed RDN is one clean token that splits into its attribute and escaped value. */
  lemma TextOfWellFormed(r: RDN)
    requires WellFormed(r)
    ensures ToString(r) != [] && Clean(ToString(r), COMMA)
    ensures SplitToken(ToString(r)).Some? && RdnOfToken(ToString(r)) == r
  {
    assert Clean([EQUALS], COMMA);
    CleanConcat([EQUALS], r.valueEscaped, COMMA);
    CleanConcat(r.attribute, [EQUALS] + r.valueEscaped, COMMA);
    assert ToString(r) == r.attribute + ([EQUALS] + r.valueEscaped);
    SplitOfPair(ToString(r), r.attribute, r.valueEscaped, []);
  }

  /** Token lists whose RDNs, read from the end, are `rs` parse to `rs` reversed. */
  lemma ParseTokensReversed(dn: JString, ts: seq<JString>, rs: seq<RDN>)
    requires |ts| == |rs|
    requires forall j | 0 <= j < |rs| :: SplitToken(ts[j]).Some? && RdnOfToken(ts[j]) == rs[|rs| - 1 - j]
    ensures ParseTokens(dn, ts) == Success(Reverse(rs))
  {
    var r := ParseTokens(dn, ts);
    assert r.Success?;
    ReverseOfMirror(r.value, rs);
  }

  /** A list holding the elements of `ys` from the last to the first is `ys` reversed. */
  lemma ReverseOfMirror<T>(xs: seq<T>, ys: seq<T>)
    requires |xs| == |ys| && forall j | 0 <= j < |xs| :: xs[j] == ys[|ys| - 1 - j]
    ensures xs == Reverse(ys)
  {
  }

  /** A string parses to `rs` when its tokens, read from the right, split into the RDNs of `rs`. */
  lemma ParseOfTokens(s: JString, rs: seq<RDN>)
    requires |Tokens(s, 0)| == |rs|
    requires forall j | 0 <= j < |rs| :: SplitToken(Tokens(s, 0)[j]).Some? && RdnOfToken(Tokens(s, 0)[j]) == rs[|rs| - 1 - j]
    ensures ParseDn(s) == Success(rs)
  {
    ParseTokensReversed(s, Tokens(s, 0), rs);
    assert Reverse(Reverse(rs)) == rs;
  }

  /** The texts of well-formed RDNs are clean tokens that split back into those RDNs. */
  lemma TextsOfWellFormed(rs: seq<RDN>)
    requires forall i | 0 <= i < |rs| :: WellFormed(rs[i])
    ensures forall j | 0 <= j < |rs| :: Texts(rs)[j] != [] && Clean(Texts(rs)[j], COMMA)
    ensures forall j | 0 <= j < |rs| :: SplitToken(Texts(rs)[j]).Some? && RdnOfToken(Texts(rs)[j]) == rs[|rs| - 1 - j]
  {
    forall j | 0 <= j < |rs|
      ensures Texts(rs)[j] != [] && Clean(Texts(rs)[j], COMMA)
      ensures SplitToken(Texts(rs)[j]).Some? && RdnOfToken(Texts(rs)[j]) == rs[|rs| - 1 - j]
    {
      TextOfWellFormed(rs[|rs| - 1 - j]);
    }
  }

  /** Parsing the serialised form of well-formed RDNs gives the same list back. */
  lemma ParseInvertsSerialize(rs: seq<RDN>)
    requires forall i | 0 <= i < |rs| :: WellFormed(rs[i])
    ensures ParseDn(Serialize(rs)) == Success(rs)
  {
    var str := Serialize(rs);
    assert str[0..] == str;
    TextsOfWellFormed(rs);
    TokensOfJoin(str, 0, Texts(rs));
    ParseOfTokens(str, rs);
  }

  /** Serialising is one-to-one on well-formed lists: two such lists with the same string are the same list. */
  lemma SerializeInjective(a: seq<RDN>, b: seq<RDN>)
    requires forall i | 0 <= i < |a| :: WellFormed(a[i])
    requires forall i | 0 <= i < |b| :: WellFormed(b[i])
    ensures Serialize(a) == Serialize(b) <==> a == b
  {
    ParseInvertsSerialize(a);
    ParseInvertsSerialize(b);
  }

  /**
    A DN string made of `attribute=value` tokens, both runs nonempty and clean, parses,
    and serialising the parsed list gives the string back.
   */
  lemma ReserializeParsed(pairs: seq<(JString, JString)>)
    requires forall j | 0 <= j < |pairs| :: CleanPair(pairs[j])
    ensures ParseDn(PairsText(pairs)).Success? && Serialize(ParseDn(PairsText(pairs)).value) == PairsText(pairs)
  {
    PairsRdns(pairs);
    ParseInvertsSerialize(RdnsOfPairs(pairs));
  }

  /** A DN string written as `attribute=value` pairs, left to right. */
  function PairsText(pairs: seq<(JString, JString)>): JString {
    Join(seq(|pairs|, j requires 0 <= j < |pairs| => pairs[j].0 + [EQUALS] + pairs[j].1))
  }

  /** The RDNs those pairs stand for, right-most pair at index 0. */
  function RdnsOfPairs(pairs: seq<(JString, JString)>): seq<RDN> {
    var n := |pairs|;
    seq(n, i requires 0 <= i < n => FromEscaped(pairs[n - 1 - i].0, pairs[n - 1 - i].1))
  }

  lemma PairsRdns(pairs: seq<(JString, JString)>)
    requires forall j | 0 <= j < |pairs| :: CleanPair(pairs[j])
    ensures forall i | 0 <= i < |pairs| :: WellFormed(RdnsOfPairs(pairs)[i])
    ensures Serialize(RdnsOfPairs(pairs)) == PairsText(pairs)
  {
    var n := |pairs|;
    var rs := RdnsOfPairs(pairs);
    var texts := seq(n, j requires 0 <= j < n => pairs[j].0 + [EQUALS] + pairs[j].1);
    forall i | 0 <= i < n
      ensures WellFormed(rs[i])
    {
      PairRdn(pairs[n - 1 - i]);
    }
    forall j | 0 <= j < n
      ensures Texts(rs)[j] == texts[j]
    {
      PairRdn(pairs[j]);
      assert rs[n - 1 - j] == FromEscaped(pairs[j].0, pairs[j].1);
    }
    assert Texts(rs) == texts;
  }

  /** Both runs of an `attribute=value` token nonempty and clean for both patterns. */
  predicate CleanPair(p: (JString, JString)) {
    p.0 != [] && Clean(p.0, COMMA) && Clean(p.0, EQUALS)
    && p.1 != [] && Clean(p.1, COMMA) && Clean(p.1, EQUALS)
  }

  /** The RDN of a clean pair is well formed and prints as the pair. */
  lemma PairRdn(p: (JString, JString))
    requires CleanPair(p)
    ensures WellFormed(FromEscaped(p.0, p.1))
    ensures ToString(FromEscaped(p.0, p.1)) == p.0 + [EQUALS] + p.1
  {
  }

  /** A comma where `find()` resumes is passed over: an empty run between tokens yields nothing. */
  lemma CommaSkipped(s: JString, i: nat)
    requires i < |s| && s[i] == COMMA
    ensures Tokens(s, i) == Tokens(s, i + 1)
  {
    FindSkipsDelimiter(s, i, COMMA);
  }

  // ---------------------------------------------------------------------------
  // Navigation on parsed lists
  // ---------------------------------------------------------------------------

  /** `getFirstIndex(attribute)`: the smallest index whose attribute is exactly `attribute`, or -1. */
  function FirstIndex(rs: seq<RDN>, attribute: JString): (i: int)
    ensures -1 <= i < |rs|
    ensures 0 <= i ==> rs[i].attribute == attribute
    ensures forall j | 0 <= j < |rs| && (i == -1 || j < i) :: rs[j].attribute != attribute
  {
    if rs == [] then -1
    else if rs[0].attribute == attribute then 0
    else
      var i := FirstIndex(rs[1..], attribute);
      assert forall j | 1 <= j < |rs| :: rs[j] == rs[1..][j - 1];
      if i == -1 then -1 else i + 1
  }

  /** A scan that stops at `i`, having seen no match before it, finds `FirstIndex`. */
  lemma FirstIndexAt(rs: seq<RDN>, attribute: JString, i: int)
    requires 0 <= i <= |rs|
    requires forall j | 0 <= j < i :: rs[j].attribute != attribute
    requires i < |rs| ==> rs[i].attribute == attribute
    ensures FirstIndex(rs, attribute) == if i < |rs| then i else -1
  {
  }

  /** `getParent()`: none below two RDNs, otherwise the list without its highest index. */
  function Parent(rs: seq<RDN>): Option<seq<RDN>> {
    if |rs| < 2 then None else Some(rs[..|rs| - 1])
  }

  /** `getParents()`: element `k` is the list cut to its first `|rs| - 1 - k` RDNs. */
  function Parents(rs: seq<RDN>): seq<seq<RDN>> {
    if |rs| < 2 then [] else seq(|rs| - 1, k requires 0 <= k < |rs| - 1 => rs[..|rs| - 1 - k])
  }

  /**
    The parents run from the parent down to the root-most RDN alone, each the parent of
    the one before it.
   */
  lemma ParentsChain(rs: seq<RDN>)
    ensures |Parents(rs)| == if |rs| < 2 then 0 else |rs| - 1
    ensures Parents(rs) != [] ==> Parent(rs) == Some(Parents(rs)[0]) && Parents(rs)[|Parents(rs)| - 1] == rs[..1]
    ensures forall k | 0 <= k < |Parents(rs)| - 1 :: Parent(Parents(rs)[k]) == Some(Parents(rs)[k + 1])
    ensures Parents(rs) == [] <==> Parent(rs) == None
  {
    var ps := Parents(rs);
    forall k | 0 <= k < |ps| - 1
      ensures Parent(ps[k]) == Some(ps[k + 1])
    {
      assert ps[k][..|ps[k]| - 1] == rs[..|rs| - 1 - (k + 1)];
    }
  }

  /** `append(attribute, value)` puts the new RDN at the highest index, so it is written first. */
  lemma {:induction false} AppendSerialized(rs: seq<RDN>, x: RDN)
    requires rs != []
    ensures Serialize(rs + [x]) == ToString(x) + [COMMA] + Serialize(rs)
    ensures Parent(rs + [x]) == Some(rs)
  {
    var t := Texts(rs + [x]);
    assert t == [ToString(x)] + Texts(rs);
    assert t[1..] == Texts(rs);
    assert (rs + [x])[..|rs|] == rs;
  }

  /** An RDN built from a raw value is well formed when its attribute is a clean run and its trimmed value is not empty. */
  lemma FromRawWellFormed(attribute: JString, v: JString)
    requires attribute != [] && Clean(attribute, COMMA) && Clean(attribute, EQUALS)
    requires Trim(v) != []
    ensures WellFormed(FromRaw(attribute, v))
  {
    var t := Trim(v);
    EscapeIsClean(t, COMMA);
    EscapeIsClean(t, EQUALS);
    RoundTrip(t);
  }

  /** Appending to a well-formed list keeps its string parseable back to the appended list. */
  lemma AppendReparses(rs: seq<RDN>, attribute: JString, v: JString)
    requires forall i | 0 <= i < |rs| :: WellFormed(rs[i])
    requires attribute != [] && Clean(attribute, COMMA) && Clean(attribute, EQUALS)
    requires Trim(v) != []
    ensures ParseDn(Serialize(rs + [FromRaw(attribute, v)])) == Success(rs + [FromRaw(attribute, v)])
  {
    FromRawWellFormed(attribute, v);
    ParseInvertsSerialize(rs + [FromRaw(attribute, v)]);
  }

  /** A value that trims to nothing serialises as `attribute=`, which does not parse back. */
  lemma BlankValueDoesNotReparse(attribute: JString, v: JString)
    requires attribute != [] && Clean(attribute, COMMA) && Clean(attribute, EQUALS)
    requires Trim(v) == []
    ensures ParseDn(Serialize([FromRaw(attribute, v)])).Failure?
  {
    var r := FromRaw(attribute, v);
    assert Texts([r]) == [ToString(r)];
    assert Serialize([r]) == attribute + [EQUALS];
    MissingValueDoesNotParse(attribute + [EQUALS], attribute);
  }

  /** `attribute=` with nothing after the `=` is one token without a value run, so it does not parse. */
  lemma MissingValueDoesNotParse(s: JString, attribute: JString)
    requires attribute != [] && Clean(attribute, COMMA) && Clean(attribute, EQUALS)
    requires s == attribute + [EQUALS]
    ensures ParseDn(s).Failure?
  {
    assert Clean([EQUALS], COMMA);
    CleanConcat(attribute, [EQUALS], COMMA);
    TokensOfJoin(s, 0, [s]);
    assert s[0..] == s;
    assert s[..|attribute|] == attribute;
    RunMatch(s, 0, attribute, EQUALS);
    FindSkipsDelimiter(s, |attribute|, EQUALS);
    assert SplitToken(Tokens(s, 0)[0]).None?;
  }

  /** A token with no unescaped `=` is one RDN_REGEXP run from start to end: there is no second run, so no value. */
  lemma NoEqualsDoesNotSplit(t: JString)
    requires t != [] && Clean(t, EQUALS)
    ensures SplitToken(t).None?
  {
    assert t[0..|t|] == t;
    RunMatch(t, 0, t, EQUALS);
    assert Find(RDN_PATTERN, t, |t|).None?;
  }

  /** A DN with a token that holds no unescaped `=` does not parse. */
  lemma TokenWithoutEqualsDoesNotParse(s: JString, j: nat)
    requires j < |Tokens(s, 0)| && Clean(Tokens(s, 0)[j], EQUALS)
    ensures ParseDn(s).Failure?
  {
    NoEqualsDoesNotSplit(Tokens(s, 0)[j]);
  }

  // ---------------------------------------------------------------------------
  // Order
  // ---------------------------------------------------------------------------

  /** The unescaped values of a list, in index order. */
  function Values(rs: seq<RDN>): seq<JString> {
    seq(|rs|, i requires 0 <= i < |rs| => rs[i].value)
  }

  /**
    `compareTo` on two parsed lists: the first index whose values differ decides, else the
    shorter list comes first. The result is -1, 0 or 1, and 0 exactly for equal values.
   */
  function CompareLists(a: seq<RDN>, b: seq<RDN>): (r: int)
    ensures r == -1 || r == 0 || r == 1
    ensures r == 0 <==> Values(a) == Values(b)
  {
    if a == [] || b == [] then (if |a| > |b| then 1 else if |a| < |b| then -1 else 0)
    else
      var c := CompareTo(a[0], b[0]);
      ValuesSplit(a, b);
      if c > 0 then 1 else if c < 0 then -1 else CompareLists(a[1..], b[1..])
  }

  /**
    Lexicographic order on lists of values, stated apart from `CompareLists`: at the first
    index where they differ `a` has the lexicographically smaller value, or `a` is a proper
    prefix of `b`.
   */
  ghost predicate ValuesLess(a: seq<JString>, b: seq<JString>) {
    exists k :: ValuesLessAt(a, b, k)
  }

  /** `a` and `b` agree below `k`, and `k` is where `a` has the smaller value or ends first. */
  ghost predicate ValuesLessAt(a: seq<JString>, b: seq<JString>, k: int) {
    0 <= k <= |a| && k <= |b| && a[..k] == b[..k]
    && ((k < |a| && k < |b| && LexLess(a[k], b[k])) || (k == |a| && k < |b|))
  }

  /** Two nonempty lists have equal values exactly when their first values and the rest agree. */
  lemma ValuesSplit(a: seq<RDN>, b: seq<RDN>)
    requires a != [] && b != []
    ensures Values(a) == [a[0].value] + Values(a[1..]) && Values(b) == [b[0].value] + Values(b[1..])
    ensures Values(a) == Values(b) <==> a[0].value == b[0].value && Values(a[1..]) == Values(b[1..])
  {
    assert Values(a) == [a[0].value] + Values(a[1..]);
    assert Values(b) == [b[0].value] + Values(b[1..]);
    if Values(a) == Values(b) {
      assert Values(a)[0] == Values(b)[0];
      assert Values(a)[1..] == Values(b)[1..];
    }
  }

  lemma ValuesLessEmpty(va: seq<JString>, vb: seq<JString>)
    requires va == [] || vb == []
    ensures ValuesLess(va, vb) <==> va == [] && vb != []
  {
    if va == [] && vb != [] {
      assert ValuesLessAt(va, vb, 0);
    }
  }

  lemma ValuesLessHead(va: seq<JString>, vb: seq<JString>)
    requires va != [] && vb != []
    ensures LexLess(va[0], vb[0]) ==> ValuesLess(va, vb)
    ensures LexLess(vb[0], va[0]) ==> !ValuesLess(va, vb)
  {
    if LexLess(va[0], vb[0]) {
      assert ValuesLessAt(va, vb, 0);
    }
    if LexLess(vb[0], va[0]) && ValuesLess(va, vb) {
      var k :| ValuesLessAt(va, vb, k);
      if k == 0 {
        LexLessAsymmetric(va[0], vb[0]);
      } else {
        assert va[0] == va[..k][0] == vb[..k][0] == vb[0];
        LexLessIrreflexive(va[0]);
      }
    }
  }

  lemma ValuesLessTail(va: seq<JString>, vb: seq<JString>)
    requires va != [] && vb != [] && va[0] == vb[0]
    ensures ValuesLess(va, vb) <==> ValuesLess(va[1..], vb[1..])
  {
    var ta, tb := va[1..], vb[1..];
    if ValuesLess(ta, tb) {
      var k :| ValuesLessAt(ta, tb, k);
      assert va[..k + 1] == [va[0]] + ta[..k];
      assert vb[..k + 1] == [vb[0]] + tb[..k];
      assert ValuesLessAt(va, vb, k + 1);
    }
    if ValuesLess(va, vb) {
      var k :| ValuesLessAt(va, vb, k);
      if k == 0 {
        LexLessIrreflexive(va[0]);
      } else {
        assert ta[..k - 1] == va[..k][1..] == vb[..k][1..] == tb[..k - 1];
        assert ValuesLessAt(ta, tb, k - 1);
      }
    }
  }

  /** `compareTo` is -1 exactly when the values come first in lexicographic order. */
  lemma {:induction false} CompareListsSign(a: seq<RDN>, b: seq<RDN>)
    ensures CompareLists(a, b) == -1 <==> ValuesLess(Values(a), Values(b))
  {
    if a == [] || b == [] {
      ValuesLessEmpty(Values(a), Values(b));
    } else {
      ValuesSplit(a, b);
      ValuesLessHead(Values(a), Values(b));
      if a[0].value == b[0].value {
        CompareListsSign(a[1..], b[1..]);
        ValuesLessTail(Values(a), Values(b));
        assert Values(a)[1..] == Values(a[1..]) && Values(b)[1..] == Values(b[1..]);
      }
    }
  }

  lemma LexLessIrreflexive(x: JString)
    ensures !LexLess(x, x)
  {
  }

  lemma LexLessAsymmetric(x: JString, y: JString)
    requires LexLess(y, x)
    ensures !LexLess(x, y)
  {
    CompareStringsSign(x, y);
    CompareStringsSign(y, x);
    CompareStringsAntisymmetric(x, y);
  }

  /** Swapping the operands of `compareTo` negates the result. */
  lemma {:induction false} CompareListsAntisymmetric(a: seq<RDN>, b: seq<RDN>)
    ensures CompareLists(b, a) == -CompareLists(a, b)
  {
    if a != [] && b != [] {
      CompareStringsAntisymmetric(a[0].value, b[0].value);
      CompareListsAntisymmetric(a[1..], b[1..]);
    }
  }

  /** The order `compareTo` induces on lists is transitive. */
  lemma {:induction false} CompareListsTransitive(a: seq<RDN>, b: seq<RDN>, c: seq<RDN>)
    requires CompareLists(a, b) == -1 && CompareLists(b, c) == -1
    ensures CompareLists(a, c) == -1
  {
    if a != [] && b != [] && c != [] {
      var ab, bc := CompareTo(a[0], b[0]), CompareTo(b[0], c[0]);
      if ab < 0 && bc < 0 {
        CompareStringsTransitive(a[0].value, b[0].value, c[0].value);
      } else if ab == 0 && bc == 0 {
        CompareListsTransitive(a[1..], b[1..], c[1..]);
      }
    }
  }

  /** Only the values take part: attributes and escaped forms never change the order. */
  lemma {:induction false} CompareListsOnlyValues(a: seq<RDN>, b: seq<RDN>, a2: seq<RDN>, b2: seq<RDN>)
    requires Values(a) == Values(a2) && Values(b) == Values(b2)
    ensures CompareLists(a, b) == CompareLists(a2, b2)
  {
    assert |a2| == |Values(a2)| == |a| && |b2| == |Values(b2)| == |b|;
    if a != [] && b != [] {
      assert a[0].value == Values(a)[0] == Values(a2)[0] == a2[0].value;
      assert b[0].value == Values(b)[0] == Values(b2)[0] == b2[0].value;
      assert Values(a[1..]) == Values(a)[1..] == Values(a2)[1..] == Values(a2[1..]);
      assert Values(b[1..]) == Values(b)[1..] == Values(b2)[1..] == Values(b2[1..]);
      CompareListsOnlyValues(a[1..], b[1..], a2[1..], b2[1..]);
    }
  }

  /** A proper prefix sorts first, so every parent sorts before its child. */
  lemma {:induction false} PrefixSortsFirst(p: seq<RDN>, rs: seq<RDN>)
    requires |p| < |rs| && p == rs[..|p|]
    ensures CompareLists(p, rs) == -1
  {
    if p != [] {
      assert p[1..] == rs[1..][..|p| - 1];
      PrefixSortsFirst(p[1..], rs[1..]);
    }
  }
}
