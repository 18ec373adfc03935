/**
  Two scenarios of the repository's DN tests, stated on the model: the escaping of the
  value in the `append` test, and the order `Collections.sort` puts five DNs in.
 */
module DnExamples {
  import opened JavaStrings
  import opened Results
  import opened Patterns
  import opened Rdn
  import opened DnLists

  // ---------------------------------------------------------------------------
  // The append test: escaping a value that holds every reserved code unit
  // ---------------------------------------------------------------------------

  /** No marker text contains a space. */
  lemma MarkerNotAcrossSpace(s: JString, k: nat)
    requires k < 5 && k < |s| && s[k] == SPACE
    ensures !MarkerAt(s, 0)
  {
    assert LF_MARKER[k] != SPACE && CR_MARKER[k] != SPACE;
    if 5 <= |s| {
      assert s[..5][k] == SPACE;
    }
  }

  /** A space before the rest is copied. */
  lemma EscapeBodyLeadingSpace(b: JString)
    ensures EscapeBody([SPACE] + b) == [SPACE] + EscapeBody(b)
  {
    var s := [SPACE] + b;
    MarkerNotAcrossSpace(s, 0);
    EscapeBodyHead(s);
    assert s[1..] == b;
  }

  /** Regrouping a common head: `h + (x + m + y)` is `(h + x) + m + y`. */
  lemma Regroup(h: JString, whole: JString, rest: JString, part: JString, x: JString, m: JString, y: JString)
    requires whole == h + rest && rest == x + m + y && part == h + x
    ensures whole == part + m + y
  {
    AppendAssociative(h, x + m, y);
    AppendAssociative(h, x, m);
  }

  /** Putting a space and more text after `a` keeps its first `k` code units, and moves the rest. */
  lemma SpacedSplit(a: JString, b: JString, k: nat)
    requires k <= |a|
    ensures (a + [SPACE] + b)[..k] == a[..k]
    ensures (a + [SPACE] + b)[k..] == a[k..] + [SPACE] + b
  {
  }

  /** A space after `a` does not make a marker text start where `a` had none. */
  lemma SpacedNoMarker(a: JString, b: JString)
    requires a != [] && !MarkerAt(a, 0)
    ensures !MarkerAt(a + [SPACE] + b, 0)
  {
    var s := a + [SPACE] + b;
    if |a| >= 5 {
      SpacedSplit(a, b, 5);
    } else {
      MarkerNotAcrossSpace(s, |a|);
    }
  }

  /** The step of `EscapeBodySpace` past a code unit that does not start a marker text. */
  lemma EscapeBodySpaceUnit(a: JString, b: JString)
    requires a != [] && !MarkerAt(a, 0)
    requires EscapeBody(a[1..] + [SPACE] + b) == EscapeBody(a[1..]) + [SPACE] + EscapeBody(b)
    ensures EscapeBody(a + [SPACE] + b) == EscapeBody(a) + [SPACE] + EscapeBody(b)
  {
    var s := a + [SPACE] + b;
    SpacedNoMarker(a, b);
    SpacedSplit(a, b, 1);
    assert s[0] == a[0];
    EscapeBodyHead(s);
    EscapeBodyHead(a);
    Regroup(EscapedHead(a[0]), EscapeBody(s), EscapeBody(s[1..]), EscapeBody(a), EscapeBody(a[1..]), [SPACE], EscapeBody(b));
  }

  /** The step of `EscapeBodySpace` past a marker text. */
  lemma EscapeBodySpaceMarker(a: JString, b: JString)
    requires MarkerAt(a, 0)
    requires EscapeBody(a[5..] + [SPACE] + b) == EscapeBody(a[5..]) + [SPACE] + EscapeBody(b)
    ensures EscapeBody(a + [SPACE] + b) == EscapeBody(a) + [SPACE] + EscapeBody(b)
  {
    var s := a + [SPACE] + b;
    SpacedSplit(a, b, 5);
    assert s[..5] == a[..5];
    EscapeBodyMarker(s);
    EscapeBodyMarker(a);
    Regroup([BACKSLASH] + a[..5], EscapeBody(s), EscapeBody(s[5..]), EscapeBody(a), EscapeBody(a[5..]), [SPACE], EscapeBody(b));
  }

  /** A space splits the escaped form: nothing escapes across it. */
  lemma {:induction false} EscapeBodySpace(a: JString, b: JString)
    ensures EscapeBody(a + [SPACE] + b) == EscapeBody(a) + [SPACE] + EscapeBody(b)
    decreases |a|
  {
    if a == [] {
      assert a + [SPACE] + b == [SPACE] + b;
      EscapeBodyLeadingSpace(b);
    } else if MarkerAt(a, 0) {
      EscapeBodySpace(a[5..], b);
      EscapeBodySpaceMarker(a, b);
    } else {
      EscapeBodySpace(a[1..], b);
      EscapeBodySpaceUnit(a, b);
    }
  }

  /** Words joined by single spaces. */
  function Spaced(ws: seq<JString>): JString
  {
    if ws == [] then [] else if |ws| == 1 then ws[0] else ws[0] + [SPACE] + Spaced(ws[1..])
  }

  /** Each word escaped on its own. */
  function EscapedWords(ws: seq<JString>): seq<JString>
  {
    seq(|ws|, i requires 0 <= i < |ws| => EscapeBody(ws[i]))
  }

  /** Escaping spaced words escapes each word on its own. */
  lemma {:induction false} EscapeSpaced(ws: seq<JString>)
    ensures EscapeBody(Spaced(ws)) == Spaced(EscapedWords(ws))
  {
    if |ws| > 1 {
      EscapeBodySpace(ws[0], Spaced(ws[1..]));
      EscapeSpaced(ws[1..]);
      assert EscapedWords(ws)[1..] == EscapedWords(ws[1..]);
    }
  }

  /** Trimming a text framed by spaces gives the text, when it has no blank at either end. */
  lemma TrimFramed(x: JString)
    requires x != [] && SPACE < x[0] && SPACE < x[|x| - 1]
    ensures Trim([SPACE] + x + [SPACE]) == x
  {
    var s := [SPACE] + x + [SPACE];
    assert SkipLeading(s, 1) == 1;
    assert SkipTrailing(s, 1, |s| - 1) == |s| - 1;
    assert s[1..|s| - 1] == x;
  }

  /**
    The words of the value in the `append` test, `" # , # + \" \\ < > ; u0x0Ah u0x0Di = / "`,
    between its leading and trailing space.
   */
  function TestWords(): seq<JString>
  {
    [[HASH], [COMMA], [HASH], ['+' as CodeUnit], ['"' as CodeUnit], [BACKSLASH],
     ['<' as CodeUnit], ['>' as CodeUnit], [';' as CodeUnit],
     LF_MARKER + ['h' as CodeUnit], CR_MARKER + ['i' as CodeUnit], [EQUALS], ['/' as CodeUnit]]
  }

  /** The escaped words the test expects, `"\\# \\, # \\+ \\\" \\\\ \\< \\> \\; \\u0x0Ah \\u0x0Di \\= \\/"`. */
  function ExpectedWords(): seq<JString>
  {
    [[BACKSLASH, HASH], [BACKSLASH, COMMA], [HASH], [BACKSLASH, '+' as CodeUnit],
     [BACKSLASH, '"' as CodeUnit], [BACKSLASH, BACKSLASH], [BACKSLASH, '<' as CodeUnit],
     [BACKSLASH, '>' as CodeUnit], [BACKSLASH, ';' as CodeUnit],
     [BACKSLASH] + LF_MARKER + ['h' as CodeUnit], [BACKSLASH] + CR_MARKER + ['i' as CodeUnit],
     [BACKSLASH, EQUALS], [BACKSLASH, '/' as CodeUnit]]
  }

  /** A lone backslash or reserved code unit gets one backslash in front. */
  lemma EscapeUnit(c: CodeUnit)
    requires c == BACKSLASH || IsReservedUnit(c)
    ensures EscapeBody([c]) == [BACKSLASH, c]
  {
    assert [c][1..] == [];
  }

  /** A marker text followed by one more code unit gets one backslash in front. */
  lemma EscapeMarkerWord(m: JString, c: CodeUnit)
    requires m == LF_MARKER || m == CR_MARKER
    requires c != BACKSLASH && !IsReservedUnit(c)
    ensures EscapeBody(m + [c]) == [BACKSLASH] + m + [c]
  {
    var w := m + [c];
    assert w[0] == m[0] == 'u' as CodeUnit;
    assert w[..5] == m && MarkerAt(w, 0);
    assert w[5..] == [c];
    assert EscapeBody(w) == [BACKSLASH] + m + EscapeBody([c]);
    assert EscapeBody([c]) == [c] by {
      assert [c][1..] == [];
    }
  }

  /** Every word after the leading `#` escapes to the word the test expects. */
  lemma TestWordsEscaped()
    ensures EscapedWords(TestWords()[1..]) == ExpectedWords()[1..]
  {
    var ws := TestWords()[1..];
    var es := EscapedWords(ws);
    var ex := ExpectedWords()[1..];
    EscapeUnit(COMMA);
    assert es[0] == ex[0];
    assert es[1] == ex[1];
    EscapeUnit('+' as CodeUnit);
    assert es[2] == ex[2];
    EscapeUnit('"' as CodeUnit);
    assert es[3] == ex[3];
    EscapeUnit(BACKSLASH);
    assert es[4] == ex[4];
    EscapeUnit('<' as CodeUnit);
    assert es[5] == ex[5];
    EscapeUnit('>' as CodeUnit);
    assert es[6] == ex[6];
    EscapeUnit(';' as CodeUnit);
    assert es[7] == ex[7];
    EscapeMarkerWord(LF_MARKER, 'h' as CodeUnit);
    assert es[8] == ex[8];
    EscapeMarkerWord(CR_MARKER, 'i' as CodeUnit);
    assert es[9] == ex[9];
    EscapeUnit(EQUALS);
    assert es[10] == ex[10];
    EscapeUnit('/' as CodeUnit);
    assert es[11] == ex[11];
  }

  /** The last code unit of spaced words is the last code unit of the last word. */
  lemma {:induction false} SpacedLast(ws: seq<JString>)
    requires ws != [] && ws[|ws| - 1] != []
    ensures Spaced(ws) != [] && Spaced(ws)[|Spaced(ws)| - 1] == ws[|ws| - 1][|ws[|ws| - 1]| - 1]
  {
    if |ws| > 1 {
      SpacedLast(ws[1..]);
    }
  }

  /** Framing spaces around words that start and end with a visible code unit are trimmed away. */
  lemma TrimWords(ws: seq<JString>)
    requires ws != [] && ws[0] != [] && SPACE < ws[0][0]
    requires ws[|ws| - 1] != [] && SPACE < ws[|ws| - 1][|ws[|ws| - 1]| - 1]
    ensures Trim([SPACE] + Spaced(ws) + [SPACE]) == Spaced(ws)
  {
    SpacedLast(ws);
    assert Spaced(ws)[0] == ws[0][0];
    TrimFramed(Spaced(ws));
  }

  /** Words led by a lone `#` escape to `\#`, a space, and the other words escaped one by one. */
  lemma EscapeHashWords(ws: seq<JString>)
    requires |ws| > 1 && ws[0] == [HASH]
    ensures EscapeRef(Spaced(ws)) == [BACKSLASH, HASH, SPACE] + Spaced(EscapedWords(ws[1..]))
  {
    var x := Spaced(ws);
    assert x[1..] == [] + [SPACE] + Spaced(ws[1..]);
    EscapeBodySpace([], Spaced(ws[1..]));
    EscapeSpaced(ws[1..]);
  }

  /** Spaced words are the first word, a space, and the rest spaced. */
  lemma SpacedCons(ws: seq<JString>)
    requires |ws| > 1
    ensures Spaced(ws) == ws[0] + [SPACE] + Spaced(ws[1..])
  {
  }

  /** Words led by `\#` spell `\#`, a space, and the other words. */
  lemma SpacedEscapedHash(es: seq<JString>)
    requires |es| > 1 && es[0] == [BACKSLASH, HASH]
    ensures Spaced(es) == [BACKSLASH, HASH, SPACE] + Spaced(es[1..])
  {
    SpacedCons(es);
  }

  /**
    The `append` test: `new RDN("ou", value)` for its value trims the framing spaces and
    escapes the leading `#`, every reserved code unit, the backslash and both marker texts,
    giving the escaped words the test expects.
   */
  lemma AppendTestValue()
    ensures FromRaw(Str("ou"), [SPACE] + Spaced(TestWords()) + [SPACE])
            == RDN(Str("ou"), Spaced(TestWords()), Spaced(ExpectedWords()))
  {
    TrimWords(TestWords());
    EscapeHashWords(TestWords());
    TestWordsEscaped();
    SpacedEscapedHash(ExpectedWords());
  }

  // ---------------------------------------------------------------------------
  // The compareTo test: five DNs in sorted order
  // ---------------------------------------------------------------------------

  /** An RDN whose attribute and value are one letter each, so nothing needs escaping. */
  function Letters(a: char, v: char): (r: RDN)
    requires 'a' <= a <= 'z' && 'A' <= v <= 'Z'
    ensures WellFormed(r) && r.value == [v as CodeUnit]
    ensures ToString(r) == [a as CodeUnit, EQUALS, v as CodeUnit]
  {
    var r := RDN([a as CodeUnit], [v as CodeUnit], [v as CodeUnit]);
    assert [v as CodeUnit][1..] == [];
    assert Clean([v as CodeUnit][1..], COMMA) && Clean([v as CodeUnit][1..], EQUALS);
    assert Clean([a as CodeUnit][1..], COMMA) && Clean([a as CodeUnit][1..], EQUALS);
    r
  }

  /** Three RDNs serialise highest index first, joined by commas. */
  lemma SerializeThree(x: RDN, y: RDN, z: RDN)
    ensures Serialize([x, y, z]) == ToString(z) + [COMMA] + ToString(y) + [COMMA] + ToString(x)
  {
    var ts := Texts([x, y, z]);
    assert ts == [ToString(z), ToString(y), ToString(x)];
    assert ts[1..] == [ToString(y), ToString(x)];
    assert ts[1..][1..] == [ToString(x)];
    assert Join(ts[1..][1..]) == ToString(x);
    assert Join(ts[1..]) == ToString(y) + [COMMA] + ToString(x);
  }

  /** Four RDNs serialise highest index first, joined by commas. */
  lemma SerializeFour(w: RDN, x: RDN, y: RDN, z: RDN)
    ensures Serialize([w, x, y, z])
            == ToString(z) + [COMMA] + ToString(y) + [COMMA] + ToString(x) + [COMMA] + ToString(w)
  {
    var ts := Texts([w, x, y, z]);
    assert ts == [ToString(z), ToString(y), ToString(x), ToString(w)];
    assert ts[1..] == [ToString(y), ToString(x), ToString(w)];
    assert ts[1..][1..] == [ToString(x), ToString(w)];
    assert ts[1..][1..][1..] == [ToString(w)];
    assert Join(ts[1..][1..][1..]) == ToString(w);
    assert Join(ts[1..][1..]) == ToString(x) + [COMMA] + ToString(w);
    assert Join(ts[1..]) == ToString(y) + [COMMA] + ToString(x) + [COMMA] + ToString(w);
  }

  /** Three one-letter RDNs serialise to their letters, highest index first. */
  lemma SerializeLetters3(a0: char, v0: char, a1: char, v1: char, a2: char, v2: char)
    requires 'a' <= a0 <= 'z' && 'A' <= v0 <= 'Z' && 'a' <= a1 <= 'z' && 'A' <= v1 <= 'Z'
    requires 'a' <= a2 <= 'z' && 'A' <= v2 <= 'Z'
    ensures Serialize([Letters(a0, v0), Letters(a1, v1), Letters(a2, v2)])
            == Str([a2, '=', v2, ',', a1, '=', v1, ',', a0, '=', v0])
  {
    SerializeThree(Letters(a0, v0), Letters(a1, v1), Letters(a2, v2));
  }

  /** Four one-letter RDNs serialise to their letters, highest index first. */
  lemma SerializeLetters4(a0: char, v0: char, a1: char, v1: char, a2: char, v2: char, a3: char, v3: char)
    requires 'a' <= a0 <= 'z' && 'A' <= v0 <= 'Z' && 'a' <= a1 <= 'z' && 'A' <= v1 <= 'Z'
    requires 'a' <= a2 <= 'z' && 'A' <= v2 <= 'Z' && 'a' <= a3 <= 'z' && 'A' <= v3 <= 'Z'
    ensures Serialize([Letters(a0, v0), Letters(a1, v1), Letters(a2, v2), Letters(a3, v3)])
            == Str([a3, '=', v3, ',', a2, '=', v2, ',', a1, '=', v1, ',', a0, '=', v0])
  {
    SerializeFour(Letters(a0, v0), Letters(a1, v1), Letters(a2, v2), Letters(a3, v3));
  }

  /** "cn=x,abc" does not parse: its second token "abc" has no `=`. */
  lemma MalformedSecondToken()
    ensures ParseDn(Str("cn=x,abc")).Failure?
  {
    var s := Str("cn=x,abc");
    var x, y := Str("cn=x"), Str("abc");
    assert s == x + [COMMA] + y;
    CleanOfPlain(x, COMMA);
    CleanOfPlain(y, COMMA);
    CleanOfPlain(y, EQUALS);
    assert s[0..] == Join([x, y]);
    TokensOfJoin(s, 0, [x, y]);
    TokenWithoutEqualsDoesNotParse(s, 1);
  }

  // The five DNs of the sort test, each as the list it parses to (index 0 right-most).
  function CDA(): seq<RDN> { [Letters('a', 'C'), Letters('b', 'A'), Letters('c', 'D')] }
  function ABD(): seq<RDN> { [Letters('a', 'B'), Letters('b', 'D'), Letters('c', 'A')] }
  function AHG(): seq<RDN> { [Letters('a', 'A'), Letters('b', 'H'), Letters('c', 'G')] }
  function DCCF(): seq<RDN> { [Letters('a', 'D'), Letters('b', 'C'), Letters('c', 'C'), Letters('d', 'F')] }
  function DCC(): seq<RDN> { [Letters('a', 'D'), Letters('b', 'C'), Letters('c', 'C')] }

  /** CDA() serialises to "c=D,b=A,a=C". */
  lemma SerializedCDA()
    ensures Serialize(CDA()) == Str("c=D,b=A,a=C")
  {
    SerializeLetters3('a', 'C', 'b', 'A', 'c', 'D');
  }

  /** "c=D,b=A,a=C" parses to a=C, b=A and c=D, right-most first. */
  lemma ParsesCDA()
    ensures ParseDn(Str("c=D,b=A,a=C")) == Success(CDA())
  {
    SerializedCDA();
    var rs := CDA();
    assert WellFormed(rs[0]) && WellFormed(rs[1]) && WellFormed(rs[2]);
    ParseInvertsSerialize(rs);
  }

  /** ABD() serialises to "c=A,b=D,a=B". */
  lemma SerializedABD()
    ensures Serialize(ABD()) == Str("c=A,b=D,a=B")
  {
    SerializeLetters3('a', 'B', 'b', 'D', 'c', 'A');
  }

  /** "c=A,b=D,a=B" parses to a=B, b=D and c=A, right-most first. */
  lemma ParsesABD()
    ensures ParseDn(Str("c=A,b=D,a=B")) == Success(ABD())
  {
    SerializedABD();
    var rs := ABD();
    assert WellFormed(rs[0]) && WellFormed(rs[1]) && WellFormed(rs[2]);
    ParseInvertsSerialize(rs);
  }

  /** AHG() serialises to "c=G,b=H,a=A". */
  lemma SerializedAHG()
    ensures Serialize(AHG()) == Str("c=G,b=H,a=A")
  {
    SerializeLetters3('a', 'A', 'b', 'H', 'c', 'G');
  }

  /** "c=G,b=H,a=A" parses to a=A, b=H and c=G, right-most first. */
  lemma ParsesAHG()
    ensures ParseDn(Str("c=G,b=H,a=A")) == Success(AHG())
  {
    SerializedAHG();
    var rs := AHG();
    assert WellFormed(rs[0]) && WellFormed(rs[1]) && WellFormed(rs[2]);
    ParseInvertsSerialize(rs);
  }

  /** DCCF() serialises to "d=F,c=C,b=C,a=D". */
  lemma SerializedDCCF()
    ensures Serialize(DCCF()) == Str("d=F,c=C,b=C,a=D")
  {
    SerializeLetters4('a', 'D', 'b', 'C', 'c', 'C', 'd', 'F');
  }

  /** "d=F,c=C,b=C,a=D" parses to a=D, b=C, c=C and d=F, right-most first. */
  lemma ParsesDCCF()
    ensures ParseDn(Str("d=F,c=C,b=C,a=D")) == Success(DCCF())
  {
    SerializedDCCF();
    var rs := DCCF();
    assert WellFormed(rs[0]) && WellFormed(rs[1]) && WellFormed(rs[2]) && WellFormed(rs[3]);
    ParseInvertsSerialize(rs);
  }

  /** DCC() serialises to "c=C,b=C,a=D". */
  lemma SerializedDCC()
    ensures Serialize(DCC()) == Str("c=C,b=C,a=D")
  {
    SerializeLetters3('a', 'D', 'b', 'C', 'c', 'C');
  }

  /** "c=C,b=C,a=D" parses to a=D, b=C and c=C, right-most first. */
  lemma ParsesDCC()
    ensures ParseDn(Str("c=C,b=C,a=D")) == Success(DCC())
  {
    SerializedDCC();
    var rs := DCC();
    assert WellFormed(rs[0]) && WellFormed(rs[1]) && WellFormed(rs[2]);
    ParseInvertsSerialize(rs);
  }

  /**
    `compareTo` orders them as the sort test expects: A,H,G before B,D,A before C,A,D
    before D,C,C before D,C,C,F (the shorter list first when one is a prefix of the other).
   */
  lemma SortTestOrder()
    ensures CompareLists(AHG(), ABD()) == -1
    ensures CompareLists(ABD(), CDA()) == -1
    ensures CompareLists(CDA(), DCC()) == -1
    ensures CompareLists(DCC(), DCCF()) == -1
  {
    FirstLetterDecides(AHG(), ABD());
    FirstLetterDecides(ABD(), CDA());
    FirstLetterDecides(CDA(), DCC());
    PrefixSortTest();
  }

  /** D,C,C is a proper prefix of D,C,C,F, so it sorts first. */
  lemma PrefixSortTest()
    ensures CompareLists(DCC(), DCCF()) == -1
  {
    assert DCC() == DCCF()[..3];
    PrefixSortsFirst(DCC(), DCCF());
  }

  /** Lists whose first values are single, increasing code units are ordered by them alone. */
  lemma FirstLetterDecides(a: seq<RDN>, b: seq<RDN>)
    requires a != [] && b != [] && |a[0].value| == 1 && |b[0].value| == 1
    requires a[0].value[0] < b[0].value[0]
    ensures CompareLists(a, b) == -1
  {
    assert CompareStrings(a[0].value, b[0].value) < 0;
  }
}
