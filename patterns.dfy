/**
  The five regular expressions of RDN.java and DN.java, as explicit scanners.
  `Find` is `Matcher.find()`: the leftmost match at or after a position.
  `Replace` is RDN.java's `StringReplacer.replace`: a find loop that copies the text
  between matches and appends each match's replacement.
 */
module Patterns {
  import opened JavaStrings
  import opened Results

  const BACKSLASH: CodeUnit := '\\' as CodeUnit
  const COMMA: CodeUnit := ',' as CodeUnit
  const EQUALS: CodeUnit := '=' as CodeUnit
  const HASH: CodeUnit := '#' as CodeUnit

  /** "u0x0A" and "u0x0D": the literal five-unit texts the escaping rule names (not the control characters). */
  const LF_MARKER: JString := ['u' as CodeUnit, '0' as CodeUnit, 'x' as CodeUnit, '0' as CodeUnit, 'A' as CodeUnit]
  const CR_MARKER: JString := ['u' as CodeUnit, '0' as CodeUnit, 'x' as CodeUnit, '0' as CodeUnit, 'D' as CodeUnit]

  /** The code units that `.` in a Java regular expression does not match. */
  predicate IsLineTerminator(c: CodeUnit) {
    c == 0x0A || c == 0x0D || c == 0x85 || c == 0x2028 || c == 0x2029
  }

  /** The single code units escaped anywhere in a value: , + " < > ; = / */
  predicate IsReservedUnit(c: CodeUnit) {
    c == COMMA || c == '+' as CodeUnit || c == '"' as CodeUnit || c == '<' as CodeUnit
    || c == '>' as CodeUnit || c == ';' as CodeUnit || c == EQUALS || c == '/' as CodeUnit
  }

  /** `s[i..]` begins with one of the two marker texts. */
  predicate MarkerAt(s: JString, i: nat) {
    i + 5 <= |s| && (s[i..i + 5] == LF_MARKER || s[i..i + 5] == CR_MARKER)
  }

  /** `\\.` matches at `i`: a backslash and a partner that is not a line terminator. */
  predicate EscapePairAt(s: JString, i: nat) {
    i + 1 < |s| && s[i] == BACKSLASH && !IsLineTerminator(s[i + 1])
  }

  datatype Pattern =
    | Backslash                        // MATCH_BACKSLASH   "\\"
    | Reserved                         // MATCH_OTHER       "^(#)|(,|\+|"|<|>|;|u0x0A|u0x0D|=|\/)"
    | EscapedUnit                      // MATCH_ESCAPED     "(?:\\(.))"
    | RunWithout(delimiter: CodeUnit)  // DN_REGEXP, RDN_REGEXP   "(\\.|[^d])+"

  /** DN_REGEXP: runs between commas. */
  const DN_PATTERN: Pattern := RunWithout(COMMA)
  /** RDN_REGEXP: runs between equals signs. */
  const RDN_PATTERN: Pattern := RunWithout(EQUALS)

  /**
    Where the greedy repetition `(\\.|[^d])+` that has reached `i` stops: an escape pair
    is taken whole, any other code unit but `d` alone.
   */
  function RunEnd(s: JString, i: nat, d: CodeUnit): (e: nat)
    requires i <= |s|
    ensures i <= e <= |s|
    ensures e < |s| ==> s[e] == d
    decreases |s| - i
  {
    if i == |s| then i
    else if EscapePairAt(s, i) then RunEnd(s, i + 2, d)
    else if s[i] == d then i
    else RunEnd(s, i + 1, d)
  }

  /**
    A run that stops before the end stops at the first `d` outside an escape pair: what it
    passed over is clean.
   */
  lemma {:induction false} RunEndClean(s: JString, i: nat, d: CodeUnit)
    requires i <= |s| && !IsLineTerminator(d)
    ensures RunEnd(s, i, d) < |s| ==> Clean(s[i..RunEnd(s, i, d)], d)
    decreases |s| - i
  {
    var e := RunEnd(s, i, d);
    if i == |s| {
    } else if EscapePairAt(s, i) {
      RunEndClean(s, i + 2, d);
      assert e < |s| ==> s[i..e][2..] == s[i + 2..e];
    } else if s[i] == d {
      assert s[i..i] == [];
    } else {
      RunEndClean(s, i + 1, d);
      assert e < |s| ==> s[i..e][1..] == s[i + 1..e];
      assert e < |s| && s[i] == BACKSLASH ==> e >= i + 2 && s[i..e][1] == s[i + 1];
    }
  }

  /** The end of the match of `p` that begins at `i`, if `p` matches there. */
  function MatchAt(p: Pattern, s: JString, i: nat): (e: Option<nat>)
    requires i < |s|
    ensures e.Some? ==> i < e.value <= |s|
  {
    match p
    case Backslash =>
      if s[i] == BACKSLASH then Some(i + 1) else None
    case Reserved =>
      if i == 0 && s[i] == HASH then Some(1)
      else if IsReservedUnit(s[i]) then Some(i + 1)
      else if MarkerAt(s, i) then Some(i + 5)
      else None
    case EscapedUnit =>
      if EscapePairAt(s, i) then Some(i + 2) else None
    case RunWithout(d) =>
      if EscapePairAt(s, i) || s[i] != d then Some(RunEnd(s, i, d)) else None
  }

  datatype Match = Match(start: nat, end: nat)

  /**
    `Matcher.find()` continuing at `from`: the match that begins leftmost at or after
    `from`, and no match begins between `from` and it.
   */
  function Find(p: Pattern, s: JString, from: nat): (m: Option<Match>)
    requires from <= |s|
    ensures m.Some? ==> from <= m.value.start < m.value.end <= |s|
                        && MatchAt(p, s, m.value.start) == Some(m.value.end)
    ensures m.Some? ==> forall i | from <= i < m.value.start :: MatchAt(p, s, i).None?
    ensures m.None? ==> forall i | from <= i < |s| :: MatchAt(p, s, i).None?
    decreases |s| - from
  {
    if from == |s| then None
    else match MatchAt(p, s, from)
      case Some(e) => Some(Match(from, e))
      case None => Find(p, s, from + 1)
  }

  /** The replacement text each callback of RDN.java returns for a matched text. */
  function Callback(p: Pattern, matched: JString): JString {
    match p
    case Backslash => [BACKSLASH, BACKSLASH, BACKSLASH] + matched  // "\\\\\\" + match
    case Reserved => [BACKSLASH, BACKSLASH] + matched              // "\\\\" + match
    case EscapedUnit => matched                                    // match
    case RunWithout(_) => matched
  }

  /**
    How `Matcher.appendReplacement` reads a replacement text: a backslash makes the
    code unit after it literal and is itself dropped.
   */
  function Literal(r: JString): (out: JString)
    ensures |out| <= |r|
  {
    if r == [] then []
    else if r[0] == BACKSLASH && |r| >= 2 then [r[1]] + Literal(r[2..])
    else [r[0]] + Literal(r[1..])
  }

  /** A text without backslashes is appended as it stands. */
  lemma {:induction false} LiteralOfPlain(r: JString)
    requires forall k | 0 <= k < |r| :: r[k] != BACKSLASH
    ensures Literal(r) == r
  {
    if r != [] {
      LiteralOfPlain(r[1..]);
    }
  }

  /** What each callback's replacement inserts once `appendReplacement` has read it. */
  lemma InsertedText(p: Pattern, s: JString, i: nat)
    requires i < |s| && MatchAt(p, s, i).Some? && !p.RunWithout?
    ensures p == Backslash ==> Literal(Callback(p, s[i..MatchAt(p, s, i).value])) == [BACKSLASH, BACKSLASH]
    ensures p == Reserved ==> Literal(Callback(p, s[i..MatchAt(p, s, i).value])) == [BACKSLASH] + s[i..MatchAt(p, s, i).value]
    ensures p == EscapedUnit ==> Literal(Callback(p, s[i..MatchAt(p, s, i).value])) == [s[i + 1]]
  {
    var e := MatchAt(p, s, i).value;
    if p == Backslash {
      assert Callback(p, s[i..e]) == [BACKSLASH, BACKSLASH, BACKSLASH, BACKSLASH];
      assert Literal([BACKSLASH, BACKSLASH]) == [BACKSLASH] + Literal([]);
    } else if p == Reserved {
      var m := s[i..e];
      assert forall k | 0 <= k < |m| :: m[k] != BACKSLASH by {
        if MarkerAt(s, i) && !(i == 0 && s[i] == HASH) && !IsReservedUnit(s[i]) {
          assert m == LF_MARKER || m == CR_MARKER;
        }
      }
      LiteralOfPlain(m);
      assert Callback(p, m) == [BACKSLASH, BACKSLASH] + m;
      assert ([BACKSLASH, BACKSLASH] + m)[2..] == m;
    } else {
      assert Callback(p, s[i..e]) == [BACKSLASH, s[i + 1]];
    }
  }

  /**
    What `StringReplacer.replace` builds from position `from` on: the text up to the next
    match, that match's inserted replacement, and the rest handled the same way.
   */
  function ReplaceFrom(p: Pattern, s: JString, from: nat): JString
    requires from <= |s|
    decreases |s| - from
  {
    match Find(p, s, from)
    case None => s[from..]
    case Some(m) => s[from..m.start] + Literal(Callback(p, s[m.start..m.end])) + ReplaceFrom(p, s, m.end)
  }

  /** Concatenation is associative. */
  lemma AppendAssociative(a: JString, b: JString, c: JString)
    ensures (a + b) + c == a + (b + c)
  {
  }

  /** A match at `i` is replaced by the text its callback inserts. */
  lemma ReplaceAtMatch(p: Pattern, s: JString, i: nat, e: nat)
    requires i < |s| && MatchAt(p, s, i) == Some(e)
    ensures ReplaceFrom(p, s, i) == Literal(Callback(p, s[i..e])) + ReplaceFrom(p, s, e)
  {
    assert Find(p, s, i) == Some(Match(i, e));
    var l := Literal(Callback(p, s[i..e]));
    assert ReplaceFrom(p, s, i) == s[i..i] + l + ReplaceFrom(p, s, e);
    assert s[i..i] + l == l;
  }

  /** A position where nothing matches is copied as it stands. */
  lemma ReplaceAtOther(p: Pattern, s: JString, i: nat)
    requires i < |s| && MatchAt(p, s, i).None?
    ensures ReplaceFrom(p, s, i) == [s[i]] + ReplaceFrom(p, s, i + 1)
  {
    var next := Find(p, s, i + 1);
    assert Find(p, s, i) == next;
    if next.None? {
      assert s[i..] == [s[i]] + s[i + 1..];
    } else {
      var x := s[i + 1..next.value.start];
      var l := Literal(Callback(p, s[next.value.start..next.value.end]));
      assert s[i..next.value.start] == [s[i]] + x;
      AppendAssociative([s[i]], x, l);
      AppendAssociative([s[i]], x + l, ReplaceFrom(p, s, next.value.end));
    }
  }

  /** Where `find()` succeeds, the text up to the match and its replacement come next. */
  lemma ReplaceStep(p: Pattern, s: JString, from: nat)
    requires from <= |s| && Find(p, s, from).Some?
    ensures var m := Find(p, s, from).value;
            ReplaceFrom(p, s, from)
            == (s[from..m.start] + Literal(Callback(p, s[m.start..m.end]))) + ReplaceFrom(p, s, m.end)
  {
  }

  /** Where `find()` fails, `appendTail` copies the rest. */
  lemma ReplaceTail(p: Pattern, s: JString, from: nat)
    requires from <= |s| && Find(p, s, from).None?
    ensures ReplaceFrom(p, s, from) == s[from..]
  {
  }

  /** `StringReplacer.replace(input, regex, callback)`, RDN.java:56-64. */
  method Replace(input: JString, p: Pattern) returns (out: JString)
    ensures out == ReplaceFrom(p, input, 0)
  {
    var sb: JString := [];
    var last := 0;
    var m := Find(p, input, 0);
    while m.Some?
      invariant last <= |input| && m == Find(p, input, last)
      invariant sb + ReplaceFrom(p, input, last) == ReplaceFrom(p, input, 0)
      decreases |input| - last
    {
      var piece := input[last..m.value.start] + Literal(Callback(p, input[m.value.start..m.value.end]));
      ReplaceStep(p, input, last);
      AppendAssociative(sb, piece, ReplaceFrom(p, input, m.value.end));
      sb := sb + piece;
      last := m.value.end;
      m := Find(p, input, last);
    }
    ReplaceTail(p, input, last);
    sb := sb + input[last..];
    out := sb;
  }

  // ---------------------------------------------------------------------------
  // Runs of the tokenizing patterns
  // ---------------------------------------------------------------------------

  /**
    `x` reads as one run of `(\\.|[^d])+` with nothing left over: scanning it escape pair
    first, no `d` stands outside a pair, and it does not end in a backslash that would
    pair with whatever follows it.
   */
  predicate Clean(x: JString, d: CodeUnit)
    decreases |x|
  {
    if x == [] then true
    else if x[0] == BACKSLASH then
      |x| >= 2 && Clean(if IsLineTerminator(x[1]) then x[1..] else x[2..], d)
    else x[0] != d && Clean(x[1..], d)
  }

  /** A text with no backslash and no `d` is clean. */
  lemma {:induction false} CleanOfPlain(x: JString, d: CodeUnit)
    requires forall k | 0 <= k < |x| :: x[k] != BACKSLASH && x[k] != d
    ensures Clean(x, d)
    decreases |x|
  {
    if x != [] {
      CleanOfPlain(x[1..], d);
    }
  }

  /** Two clean texts make a clean text. */
  lemma {:induction false} CleanConcat(x: JString, y: JString, d: CodeUnit)
    requires Clean(x, d) && Clean(y, d)
    ensures Clean(x + y, d)
  {
    if x == [] {
      assert x + y == y;
    } else {
      if x[0] == BACKSLASH {
        var rest := if IsLineTerminator(x[1]) then x[1..] else x[2..];
        CleanConcat(rest, y, d);
        assert (x + y)[1..] == x[1..] + y;
        assert (x + y)[2..] == x[2..] + y;
      } else {
        CleanConcat(x[1..], y, d);
        assert (x + y)[1..] == x[1..] + y;
      }
    }
  }

  /**
    A clean text placed at `i`, followed by `d` or by the end of `s`, is exactly the run
    that the scanner reaching `i` takes.
   */
  lemma {:induction false} RunOfClean(s: JString, i: nat, x: JString, d: CodeUnit)
    requires d != BACKSLASH && Clean(x, d)
    requires i + |x| <= |s| && s[i..i + |x|] == x
    requires i + |x| == |s| || s[i + |x|] == d
    ensures RunEnd(s, i, d) == i + |x|
    decreases |x|
  {
    if x != [] {
      assert s[i] == x[0];
      if x[0] == BACKSLASH {
        assert s[i + 1] == x[1];
        if IsLineTerminator(x[1]) {
          assert s[i + 1..i + |x|] == x[1..];
          RunOfClean(s, i + 1, x[1..], d);
        } else {
          assert s[i + 2..i + |x|] == x[2..];
          RunOfClean(s, i + 2, x[2..], d);
        }
      } else {
        assert s[i + 1..i + |x|] == x[1..];
        RunOfClean(s, i + 1, x[1..], d);
      }
    }
  }

  /** A run pattern finds nothing at a delimiter, so `find()` passes over it. */
  lemma FindSkipsDelimiter(s: JString, i: nat, d: CodeUnit)
    requires d != BACKSLASH && i < |s| && s[i] == d
    ensures Find(RunWithout(d), s, i) == Find(RunWithout(d), s, i + 1)
  {
  }
}
