/**
  RDN.java: one `attribute=value` component of a distinguished name. The value is kept
  twice, unescaped (`value`) and escaped (`valueEscaped`).
 */
module Rdn {
  import opened JavaStrings
  import opened Patterns

  /** An immutable RDN: all three fields are assigned once, by a constructor. */
  datatype RDN = RDN(attribute: JString, value: JString, valueEscaped: JString)

  // ---------------------------------------------------------------------------
  // escapeValue / unEscapeValue, as the source computes them
  // ---------------------------------------------------------------------------

  /** `escapeValue`: the backslash pass, then the reserved-text pass over its output. */
  function Escape(v: JString): JString {
    ReplaceFrom(Reserved, ReplaceFrom(Backslash, v, 0), 0)
  }

  /** `unEscapeValue`: one pass of MATCH_ESCAPED. */
  function Unescape(e: JString): JString {
    ReplaceFrom(EscapedUnit, e, 0)
  }

  /** `escapeValue(value)`, RDN.java:45-48. */
  method EscapeValue(value: JString) returns (r: JString)
    ensures r == Escape(value)
    ensures r == EscapeRef(value)
  {
    var doubled := Replace(value, Backslash);
    r := Replace(doubled, Reserved);
    EscapeMeaning(value);
  }

  /** `unEscapeValue(value)`, RDN.java:50-52. */
  method UnEscapeValue(value: JString) returns (r: JString)
    ensures r == Unescape(value)
    ensures r == UnescapeRef(value)
  {
    r := Replace(value, EscapedUnit);
    UnescapeMeaning(value, 0);
  }

  // ---------------------------------------------------------------------------
  // The escaping rules read one source code unit at a time
  // ---------------------------------------------------------------------------

  /**
    The escaped form of a value: a leading `#` gets one backslash; after that every
    backslash is doubled, each of , + " < > ; = / and each marker text "u0x0A" / "u0x0D"
    gets one backslash in front, and every other code unit (a later `#` included) is kept.
   */
  function EscapeRef(v: JString): (r: JString)
    ensures |r| >= |v|
  {
    if v != [] && v[0] == HASH then [BACKSLASH, HASH] + EscapeBody(v[1..]) else EscapeBody(v)
  }

  /** `EscapeRef` past the first position, where `#` is an ordinary code unit. */
  function EscapeBody(v: JString): (r: JString)
    ensures |r| >= |v|
    decreases |v|
  {
    if v == [] then []
    else if v[0] == BACKSLASH then [BACKSLASH, BACKSLASH] + EscapeBody(v[1..])
    else if IsReservedUnit(v[0]) then [BACKSLASH, v[0]] + EscapeBody(v[1..])
    else if MarkerAt(v, 0) then [BACKSLASH] + v[..5] + EscapeBody(v[5..])
    else [v[0]] + EscapeBody(v[1..])
  }

  /**
    The unescaped form: scanning left to right, each backslash with a partner that is not
    a line terminator is dropped and the partner kept; a trailing backslash, or one before
    a line terminator, stays.
   */
  function UnescapeRef(e: JString): (r: JString)
    ensures |r| <= |e|
    decreases |e|
  {
    if e == [] then []
    else if EscapePairAt(e, 0) then [e[1]] + UnescapeRef(e[2..])
    else [e[0]] + UnescapeRef(e[1..])
  }

  // ---------------------------------------------------------------------------
  // The passes agree with the rules
  // ---------------------------------------------------------------------------

  /** Every backslash doubled: what the first escaping pass is meant to produce. */
  function Doubled(v: JString): JString
    decreases |v|
  {
    if v == [] then []
    else if v[0] == BACKSLASH then [BACKSLASH, BACKSLASH] + Doubled(v[1..])
    else [v[0]] + Doubled(v[1..])
  }

  /** Reserved units and marker texts prefixed by a backslash: the second pass away from position 0. */
  function EscapeOthers(w: JString): JString
    decreases |w|
  {
    if w == [] then []
    else if IsReservedUnit(w[0]) then [BACKSLASH, w[0]] + EscapeOthers(w[1..])
    else if MarkerAt(w, 0) then [BACKSLASH] + w[..5] + EscapeOthers(w[5..])
    else [w[0]] + EscapeOthers(w[1..])
  }

  /** The backslash pass doubles every backslash (RDN.java:46: appendReplacement reads the replacement "\\\\\\" + match, three backslashes and the matched one, as two backslashes). */
  lemma {:induction false} BackslashPass(v: JString, i: nat)
    requires i <= |v|
    ensures ReplaceFrom(Backslash, v, i) == Doubled(v[i..])
    decreases |v| - i
  {
    if i < |v| {
      BackslashPass(v, i + 1);
      assert v[i..][1..] == v[i + 1..];
      if v[i] == BACKSLASH {
        ReplaceAtMatch(Backslash, v, i, i + 1);
        InsertedText(Backslash, v, i);
      } else {
        ReplaceAtOther(Backslash, v, i);
      }
    }
  }

  /** One step of the reserved pass away from a leading `#`: a reserved unit. */
  lemma ReservedUnitStep(w: JString, i: nat)
    requires i < |w| && !(i == 0 && w[0] == HASH) && IsReservedUnit(w[i])
    ensures ReplaceFrom(Reserved, w, i) == [BACKSLASH, w[i]] + ReplaceFrom(Reserved, w, i + 1)
  {
    ReplaceAtMatch(Reserved, w, i, i + 1);
    InsertedText(Reserved, w, i);
    assert w[i..i + 1] == [w[i]];
  }

  /** One step of the reserved pass away from a leading `#`: a marker text. */
  lemma ReservedMarkerStep(w: JString, i: nat)
    requires i < |w| && !(i == 0 && w[0] == HASH) && !IsReservedUnit(w[i]) && MarkerAt(w, i)
    ensures ReplaceFrom(Reserved, w, i) == [BACKSLASH] + w[i..i + 5] + ReplaceFrom(Reserved, w, i + 5)
  {
    ReplaceAtMatch(Reserved, w, i, i + 5);
    InsertedText(Reserved, w, i);
  }

  /** One step of the reserved pass away from a leading `#`: any other code unit. */
  lemma ReservedOtherStep(w: JString, i: nat)
    requires i < |w| && !(i == 0 && w[0] == HASH) && !IsReservedUnit(w[i]) && !MarkerAt(w, i)
    ensures ReplaceFrom(Reserved, w, i) == [w[i]] + ReplaceFrom(Reserved, w, i + 1)
  {
    ReplaceAtOther(Reserved, w, i);
  }

  /** `EscapeOthers` on a suffix that starts with a reserved unit. */
  lemma EscapeOthersUnitAt(w: JString, i: nat)
    requires i < |w| && IsReservedUnit(w[i])
    ensures EscapeOthers(w[i..]) == [BACKSLASH, w[i]] + EscapeOthers(w[i + 1..])
  {
    var x := w[i..];
    assert x[0] == w[i] && x[1..] == w[i + 1..];
  }

  /** `EscapeOthers` on a suffix that starts with a marker text. */
  lemma EscapeOthersMarkerAt(w: JString, i: nat)
    requires i < |w| && !IsReservedUnit(w[i]) && MarkerAt(w, i)
    ensures EscapeOthers(w[i..]) == [BACKSLASH] + w[i..i + 5] + EscapeOthers(w[i + 5..])
  {
    var x := w[i..];
    MarkerSlice(w, i, 0);
    assert x[0] == w[i] && x[..5] == w[i..i + 5] && x[5..] == w[i + 5..];
  }

  /** `EscapeOthers` on a suffix that starts with any other code unit. */
  lemma EscapeOthersOtherAt(w: JString, i: nat)
    requires i < |w| && !IsReservedUnit(w[i]) && !MarkerAt(w, i)
    ensures EscapeOthers(w[i..]) == [w[i]] + EscapeOthers(w[i + 1..])
  {
    var x := w[i..];
    MarkerSlice(w, i, 0);
    assert x[0] == w[i] && x[1..] == w[i + 1..];
  }

  /** The reserved pass away from a leading `#`: reserved units and marker texts. */
  lemma {:induction false} OthersPass(w: JString, i: nat)
    requires i <= |w| && !(i == 0 && w != [] && w[0] == HASH)
    ensures ReplaceFrom(Reserved, w, i) == EscapeOthers(w[i..])
    decreases |w| - i, 1
  {
    if i < |w| {
      if IsReservedUnit(w[i]) {
        OthersPassUnit(w, i);
      } else if MarkerAt(w, i) {
        OthersPassMarker(w, i);
      } else {
        OthersPassOther(w, i);
      }
    }
  }

  /** `OthersPass` at a reserved unit: the unit gets a backslash and the pass goes on after it. */
  lemma OthersPassUnit(w: JString, i: nat)
    requires i < |w| && !(i == 0 && w[0] == HASH) && IsReservedUnit(w[i])
    ensures ReplaceFrom(Reserved, w, i) == EscapeOthers(w[i..])
    decreases |w| - i, 0
  {
    OthersPass(w, i + 1);
    ReservedUnitStep(w, i);
    EscapeOthersUnitAt(w, i);
  }

  /** `OthersPass` at a marker text: the text gets a backslash and the pass goes on after it. */
  lemma OthersPassMarker(w: JString, i: nat)
    requires i < |w| && !(i == 0 && w[0] == HASH) && !IsReservedUnit(w[i]) && MarkerAt(w, i)
    ensures ReplaceFrom(Reserved, w, i) == EscapeOthers(w[i..])
    decreases |w| - i, 0
  {
    OthersPass(w, i + 5);
    ReservedMarkerStep(w, i);
    EscapeOthersMarkerAt(w, i);
  }

  /** `OthersPass` at any other code unit: the unit is copied and the pass goes on after it. */
  lemma OthersPassOther(w: JString, i: nat)
    requires i < |w| && !(i == 0 && w[0] == HASH) && !IsReservedUnit(w[i]) && !MarkerAt(w, i)
    ensures ReplaceFrom(Reserved, w, i) == EscapeOthers(w[i..])
    decreases |w| - i, 0
  {
    OthersPass(w, i + 1);
    ReservedOtherStep(w, i);
    EscapeOthersOtherAt(w, i);
  }

  /** The reserved pass: `#` only at position 0, then reserved units and marker texts. */
  lemma ReservedPass(w: JString)
    ensures w != [] && w[0] == HASH ==> ReplaceFrom(Reserved, w, 0) == [BACKSLASH, HASH] + EscapeOthers(w[1..])
    ensures !(w != [] && w[0] == HASH) ==> ReplaceFrom(Reserved, w, 0) == EscapeOthers(w)
  {
    if w != [] && w[0] == HASH {
      OthersPass(w, 1);
      ReplaceAtMatch(Reserved, w, 0, 1);
      InsertedText(Reserved, w, 0);
      assert w[0..1] == [HASH];
    } else {
      OthersPass(w, 0);
      assert w[0..] == w;
    }
  }

  /** Marker texts hold no backslash and no reserved unit. */
  lemma MarkerHasNoBackslash(s: JString, i: nat)
    requires MarkerAt(s, i)
    ensures forall j | i <= j < i + 5 :: s[j] != BACKSLASH && !IsReservedUnit(s[j])
  {
    assert s[i..i + 5] == LF_MARKER || s[i..i + 5] == CR_MARKER;
    forall j | i <= j < i + 5
      ensures s[j] != BACKSLASH && !IsReservedUnit(s[j])
    {
      assert s[j] == s[i..i + 5][j - i];
    }
  }

  /** A marker found in a suffix is a marker of the whole text, and back. */
  lemma MarkerSlice(s: JString, i: nat, j: nat)
    requires i <= |s|
    ensures MarkerAt(s[i..], j) <==> MarkerAt(s, i + j)
  {
    if i + j + 5 <= |s| {
      assert s[i..][j..j + 5] == s[i + j..i + j + 5];
    }
  }

  /** A marker in a doubled text was a marker before doubling. */
  lemma DoubledMarker(v: JString)
    ensures MarkerAt(Doubled(v), 0) ==> MarkerAt(v, 0)
  {
    if MarkerAt(Doubled(v), 0) {
      MarkerHasNoBackslash(Doubled(v), 0);
      DoubledPrefixBack(v, 5);
    }
  }

  /** Doubling leaves a backslash-free prefix as it is. */
  lemma {:induction false} DoubledPlainPrefix(v: JString, k: nat)
    requires k <= |v| && forall j | 0 <= j < k :: v[j] != BACKSLASH
    ensures Doubled(v) == v[..k] + Doubled(v[k..])
    decreases k
  {
    if k > 0 {
      DoubledPlainPrefix(v[1..], k - 1);
      assert v[1..][k - 1..] == v[k..];
      assert v[..k] == [v[0]] + v[1..][..k - 1];
    }
  }

  /** A backslash-free prefix of a doubled text was already there before doubling. */
  lemma {:induction false} DoubledPrefixBack(v: JString, k: nat)
    requires k <= |Doubled(v)| && forall j | 0 <= j < k :: Doubled(v)[j] != BACKSLASH
    ensures k <= |v| && v[..k] == Doubled(v)[..k]
    decreases k
  {
    if k > 0 {
      assert Doubled(v)[0] != BACKSLASH;
      assert v != [] && v[0] != BACKSLASH;
      var w := Doubled(v[1..]);
      assert Doubled(v) == [v[0]] + w;
      forall j | 0 <= j < k - 1
        ensures w[j] != BACKSLASH
      {
        assert w[j] == Doubled(v)[j + 1];
      }
      DoubledPrefixBack(v[1..], k - 1);
      assert v[..k] == [v[0]] + v[1..][..k - 1];
      assert Doubled(v)[..k] == [v[0]] + w[..k - 1];
    }
  }

  /** What `EscapeBody` emits for a first code unit that does not start a marker text. */
  function EscapedHead(c: CodeUnit): JString {
    if c == BACKSLASH then [BACKSLASH, BACKSLASH]
    else if IsReservedUnit(c) then [BACKSLASH, c]
    else [c]
  }

  /** Away from a marker text, `EscapeBody` handles the first code unit on its own. */
  lemma EscapeBodyHead(v: JString)
    requires v != [] && !MarkerAt(v, 0)
    ensures EscapeBody(v) == EscapedHead(v[0]) + EscapeBody(v[1..])
  {
  }

  /** At a marker text, `EscapeBody` puts one backslash in front of it. */
  lemma EscapeBodyMarker(v: JString)
    requires MarkerAt(v, 0)
    ensures EscapeBody(v) == [BACKSLASH] + v[..5] + EscapeBody(v[5..])
  {
    assert v[0] == v[..5][0];
  }

  /** A leading backslash is not reserved and starts no marker text, so it is copied. */
  lemma EscapeOthersBackslash(rest: JString)
    ensures EscapeOthers([BACKSLASH] + rest) == [BACKSLASH] + EscapeOthers(rest)
  {
    var w := [BACKSLASH] + rest;
    assert w[1..] == rest;
    if MarkerAt(w, 0) { MarkerHasNoBackslash(w, 0); }
  }

  /** Two leading backslashes are copied. */
  lemma EscapeOthersBackslashes(rest: JString)
    ensures EscapeOthers([BACKSLASH, BACKSLASH] + rest) == [BACKSLASH, BACKSLASH] + EscapeOthers(rest)
  {
    var w := [BACKSLASH] + rest;
    EscapeOthersBackslash(w);
    EscapeOthersBackslash(rest);
    assert [BACKSLASH, BACKSLASH] + rest == [BACKSLASH] + w;
    assert [BACKSLASH] + ([BACKSLASH] + EscapeOthers(rest)) == [BACKSLASH, BACKSLASH] + EscapeOthers(rest);
  }

  /** A leading reserved unit gets a backslash. */
  lemma EscapeOthersReserved(c: CodeUnit, rest: JString)
    requires IsReservedUnit(c)
    ensures EscapeOthers([c] + rest) == [BACKSLASH, c] + EscapeOthers(rest)
  {
    assert ([c] + rest)[1..] == rest;
  }

  /** A leading marker text gets a backslash. */
  lemma EscapeOthersMarkerThen(m: JString, rest: JString)
    requires MarkerAt(m, 0) && |m| == 5
    ensures EscapeOthers(m + rest) == [BACKSLASH] + m + EscapeOthers(rest)
  {
    var w := m + rest;
    assert w[..5] == m && w[5..] == rest;
    assert w[0] == m[0];
  }

  /** Any other leading code unit is copied. */
  lemma EscapeOthersPlain(c: CodeUnit, rest: JString)
    requires !IsReservedUnit(c) && !MarkerAt([c] + rest, 0)
    ensures EscapeOthers([c] + rest) == [c] + EscapeOthers(rest)
  {
    assert ([c] + rest)[1..] == rest;
  }

  /** `OthersOfDoubled` past a leading backslash, which doubling turns into two. */
  lemma OthersOfDoubledBackslash(v: JString)
    requires v != [] && v[0] == BACKSLASH
    requires EscapeOthers(Doubled(v[1..])) == EscapeBody(v[1..])
    ensures EscapeOthers(Doubled(v)) == EscapeBody(v)
  {
    var d := Doubled(v[1..]);
    assert Doubled(v) == [BACKSLASH, BACKSLASH] + d;
    EscapeOthersBackslashes(d);
    assert EscapeBody(v) == [BACKSLASH, BACKSLASH] + EscapeBody(v[1..]);
  }

  /** `OthersOfDoubled` past a leading reserved unit. */
  lemma OthersOfDoubledReserved(v: JString)
    requires v != [] && IsReservedUnit(v[0])
    requires EscapeOthers(Doubled(v[1..])) == EscapeBody(v[1..])
    ensures EscapeOthers(Doubled(v)) == EscapeBody(v)
  {
    assert Doubled(v) == [v[0]] + Doubled(v[1..]);
    EscapeOthersReserved(v[0], Doubled(v[1..]));
    EscapeBodyHead(v);
  }

  /** `OthersOfDoubled` past a leading marker text, which doubling leaves alone. */
  lemma OthersOfDoubledMarker(v: JString)
    requires MarkerAt(v, 0)
    requires EscapeOthers(Doubled(v[5..])) == EscapeBody(v[5..])
    ensures EscapeOthers(Doubled(v)) == EscapeBody(v)
  {
    MarkerHasNoBackslash(v, 0);
    DoubledPlainPrefix(v, 5);
    EscapeOthersMarkerThen(v[..5], Doubled(v[5..]));
    EscapeBodyMarker(v);
  }

  /** `OthersOfDoubled` past any other leading code unit. */
  lemma OthersOfDoubledPlain(v: JString)
    requires v != [] && v[0] != BACKSLASH && !IsReservedUnit(v[0]) && !MarkerAt(v, 0)
    requires EscapeOthers(Doubled(v[1..])) == EscapeBody(v[1..])
    ensures EscapeOthers(Doubled(v)) == EscapeBody(v)
  {
    assert Doubled(v) == [v[0]] + Doubled(v[1..]);
    DoubledMarker(v);
    EscapeOthersPlain(v[0], Doubled(v[1..]));
    EscapeBodyHead(v);
  }

  /** The reserved pass over the doubled value is the body of the escaping rules. */
  lemma {:induction false} OthersOfDoubled(v: JString)
    ensures EscapeOthers(Doubled(v)) == EscapeBody(v)
    decreases |v|
  {
    if v != [] {
      if v[0] == BACKSLASH {
        OthersOfDoubled(v[1..]);
        OthersOfDoubledBackslash(v);
      } else if IsReservedUnit(v[0]) {
        OthersOfDoubled(v[1..]);
        OthersOfDoubledReserved(v);
      } else if MarkerAt(v, 0) {
        OthersOfDoubled(v[5..]);
        OthersOfDoubledMarker(v);
      } else {
        OthersOfDoubled(v[1..]);
        OthersOfDoubledPlain(v);
      }
    }
  }

  /** `escapeValue` follows the escaping rules exactly. */
  lemma EscapeMeaning(v: JString)
    ensures Escape(v) == EscapeRef(v)
  {
    BackslashPass(v, 0);
    assert v[0..] == v;
    var w := Doubled(v);
    ReservedPass(w);
    OthersOfDoubled(v);
    if v != [] && v[0] == HASH {
      assert w == [HASH] + Doubled(v[1..]);
      assert w[1..] == Doubled(v[1..]);
      OthersOfDoubled(v[1..]);
    }
  }

  /** `unEscapeValue` follows the unescaping rule exactly. */
  lemma {:induction false} UnescapeMeaning(e: JString, i: nat)
    requires i <= |e|
    ensures ReplaceFrom(EscapedUnit, e, i) == UnescapeRef(e[i..])
    decreases |e| - i
  {
    if i < |e| {
      var x := e[i..];
      assert x[0] == e[i];
      if EscapePairAt(e, i) {
        assert x[1] == e[i + 1] && EscapePairAt(x, 0);
        UnescapeMeaning(e, i + 2);
        ReplaceAtMatch(EscapedUnit, e, i, i + 2);
        InsertedText(EscapedUnit, e, i);
        assert x[2..] == e[i + 2..];
      } else {
        assert !EscapePairAt(x, 0);
        UnescapeMeaning(e, i + 1);
        ReplaceAtOther(EscapedUnit, e, i);
        assert x[1..] == e[i + 1..];
      }
    }
  }

  // ---------------------------------------------------------------------------
  // Round trip
  // ---------------------------------------------------------------------------

  /** Unescaping passes over a backslash-free prefix unchanged. */
  lemma {:induction false} UnescapePlainPrefix(x: JString, y: JString)
    requires forall j | 0 <= j < |x| :: x[j] != BACKSLASH
    ensures UnescapeRef(x + y) == x + UnescapeRef(y)
    decreases |x|
  {
    if x == [] {
      assert x + y == y;
    } else {
      UnescapePlainPrefix(x[1..], y);
      assert (x + y)[1..] == x[1..] + y;
    }
  }

  /** Unescaping a marker escaped by one backslash gives the marker back. */
  lemma UnescapeMarker(v: JString, rest: JString)
    requires MarkerAt(v, 0)
    ensures UnescapeRef([BACKSLASH] + v[..5] + rest) == v[..5] + UnescapeRef(rest)
  {
    MarkerHasNoBackslash(v, 0);
    var e := [BACKSLASH] + v[..5] + rest;
    assert EscapePairAt(e, 0);
    assert e[2..] == v[1..5] + rest;
    UnescapePlainPrefix(v[1..5], rest);
    assert v[..5] == [v[0]] + v[1..5];
  }

  /** Unescaping a pair made of a backslash and a code unit that is not a line terminator. */
  lemma UnescapePair(c: CodeUnit, rest: JString)
    requires !IsLineTerminator(c)
    ensures UnescapeRef([BACKSLASH, c] + rest) == [c] + UnescapeRef(rest)
  {
    assert ([BACKSLASH, c] + rest)[2..] == rest;
  }

  /** Unescaping undoes the body of the escaping rules. */
  lemma {:induction false} UnescapeEscapeBody(v: JString)
    ensures UnescapeRef(EscapeBody(v)) == v
    decreases |v|
  {
    if v != [] {
      if v[0] == BACKSLASH || IsReservedUnit(v[0]) {
        UnescapeEscapeBody(v[1..]);
        UnescapePair(v[0], EscapeBody(v[1..]));
      } else if MarkerAt(v, 0) {
        UnescapeEscapeBody(v[5..]);
        UnescapeMarker(v, EscapeBody(v[5..]));
        assert v == v[..5] + v[5..];
      } else {
        UnescapeEscapeBody(v[1..]);
        var e := [v[0]] + EscapeBody(v[1..]);
        assert e[1..] == EscapeBody(v[1..]);
      }
    }
  }

  /** The unescaping rule undoes the escaping rules, for every value. */
  lemma RoundTrip(v: JString)
    ensures UnescapeRef(EscapeRef(v)) == v
  {
    if v != [] && v[0] == HASH {
      UnescapeEscapeBody(v[1..]);
      UnescapePair(HASH, EscapeBody(v[1..]));
      assert v == [HASH] + v[1..];
    } else {
      UnescapeEscapeBody(v);
    }
  }

  /** `unEscapeValue(escapeValue(v))` gives `v` back, for every value. */
  lemma UnescapeEscape(v: JString)
    ensures Unescape(Escape(v)) == v
  {
    EscapeMeaning(v);
    RoundTrip(v);
    UnescapeMeaning(EscapeRef(v), 0);
    assert EscapeRef(v)[0..] == EscapeRef(v);
  }

  /** A value without backslashes, reserved units or marker texts, and not starting with `#`, is its own escaped form. */
  lemma {:induction false} EscapeLeavesPlainAlone(v: JString)
    requires forall j | 0 <= j < |v| :: v[j] != BACKSLASH && !IsReservedUnit(v[j]) && !MarkerAt(v, j)
    requires v == [] || v[0] != HASH
    ensures Escape(v) == v
  {
    EscapeMeaning(v);
    BodyLeavesPlainAlone(v);
  }

  lemma {:induction false} BodyLeavesPlainAlone(v: JString)
    requires forall j | 0 <= j < |v| :: v[j] != BACKSLASH && !IsReservedUnit(v[j]) && !MarkerAt(v, j)
    ensures EscapeBody(v) == v
    decreases |v|
  {
    if v != [] {
      forall j | 0 <= j < |v| - 1
        ensures v[1..][j] != BACKSLASH && !IsReservedUnit(v[1..][j]) && !MarkerAt(v[1..], j)
      {
        assert v[1..][j] == v[j + 1];
        MarkerSlice(v, 1, j);
      }
      BodyLeavesPlainAlone(v[1..]);
    }
  }

  /** A clean text stays clean behind what `EscapeBody` emits for one code unit. */
  lemma CleanHeadThen(c: CodeUnit, rest: JString, d: CodeUnit)
    requires IsReservedUnit(d) && Clean(rest, d)
    ensures Clean(EscapedHead(c) + rest, d)
  {
    var x := EscapedHead(c) + rest;
    if c == BACKSLASH || IsReservedUnit(c) {
      assert x[2..] == rest;
    } else {
      assert x[1..] == rest;
    }
  }

  /** A clean text stays clean behind an escaped marker text. */
  lemma CleanMarkerThen(m: JString, rest: JString, d: CodeUnit)
    requires IsReservedUnit(d) && Clean(rest, d) && |m| == 5 && MarkerAt(m, 0)
    ensures Clean([BACKSLASH] + m + rest, d)
  {
    var x := [BACKSLASH] + m + rest;
    MarkerHasNoBackslash(m, 0);
    CleanOfPlain(m[1..], d);
    CleanConcat(m[1..], rest, d);
    assert x[1] == m[0];
    assert x[2..] == m[1..] + rest;
  }

  /** Escaped values read as one clean run for both tokenizing patterns. */
  lemma {:induction false} EscapeBodyIsClean(v: JString, d: CodeUnit)
    requires IsReservedUnit(d)
    ensures Clean(EscapeBody(v), d)
    decreases |v|
  {
    if v != [] {
      if MarkerAt(v, 0) {
        EscapeBodyIsClean(v[5..], d);
        EscapeBodyMarker(v);
        CleanMarkerThen(v[..5], EscapeBody(v[5..]), d);
      } else {
        EscapeBodyIsClean(v[1..], d);
        EscapeBodyHead(v);
        CleanHeadThen(v[0], EscapeBody(v[1..]), d);
      }
    }
  }

  /** The escaped form of any value is clean for the comma and equals patterns. */
  lemma EscapeIsClean(v: JString, d: CodeUnit)
    requires d == COMMA || d == EQUALS
    ensures Clean(EscapeRef(v), d)
  {
    if v != [] && v[0] == HASH {
      EscapeBodyIsClean(v[1..], d);
      assert EscapeRef(v)[2..] == EscapeBody(v[1..]);
    } else {
      EscapeBodyIsClean(v, d);
    }
  }

  // ---------------------------------------------------------------------------
  // Constructors, toString, compareTo
  // ---------------------------------------------------------------------------

  /** `new RDN(attribute, value)`: the value is trimmed, then escaped by the rules above. */
  function FromRaw(attribute: JString, v: JString): RDN {
    RDN(attribute, Trim(v), EscapeRef(Trim(v)))
  }

  /** `new RDN(attribute, value, true)`: the escaped value is kept verbatim and unescaped for `value`. */
  function FromEscaped(attribute: JString, e: JString): RDN {
    RDN(attribute, UnescapeRef(e), e)
  }

  /**
    The three-argument constructor of RDN.java:23-33 (the two-argument one passes `false`):
    the replace passes it runs build exactly the RDN the escaping rules describe.
   */
  method NewRdn(attribute: JString, value: JString, isValueEscaped: bool) returns (r: RDN)
    ensures isValueEscaped ==> r == FromEscaped(attribute, value)
    ensures !isValueEscaped ==> r == FromRaw(attribute, value)
  {
    if isValueEscaped {
      var unescaped := UnEscapeValue(value);
      r := RDN(attribute, unescaped, value);
    } else {
      var trimmed := Trim(value);
      var escaped := EscapeValue(trimmed);
      r := RDN(attribute, trimmed, escaped);
    }
  }

  /** Rebuilding an RDN from its own escaped value gives the same RDN. */
  lemma RebuildFromEscaped(attribute: JString, v: JString)
    ensures FromEscaped(attribute, FromRaw(attribute, v).valueEscaped) == FromRaw(attribute, v)
  {
    RoundTrip(Trim(v));
  }

  /** Rebuilding an RDN from its own unescaped value gives the same RDN, since trimming twice is trimming once. */
  lemma RebuildFromValue(attribute: JString, v: JString)
    ensures FromRaw(attribute, FromRaw(attribute, v).value) == FromRaw(attribute, v)
  {
    TrimIdempotent(v);
  }

  /** `toString()`: the attribute, `=`, and the escaped value. */
  function ToString(r: RDN): (s: JString)
    ensures |s| == |r.attribute| + 1 + |r.valueEscaped|
    ensures s[..|r.attribute|] == r.attribute && s[|r.attribute|] == EQUALS
    ensures s[|r.attribute| + 1..] == r.valueEscaped
  {
    r.attribute + [EQUALS] + r.valueEscaped
  }

  /**
    `compareTo(rdn)`: `String.compareTo` of the unescaped values; the attributes and the
    escaped values play no part. Zero exactly for equal values, negative exactly when this
    value comes first lexicographically.
   */
  function CompareTo(x: RDN, y: RDN): (c: int)
    ensures c == 0 <==> x.value == y.value
    ensures c < 0 <==> LexLess(x.value, y.value)
    ensures c > 0 <==> LexLess(y.value, x.value)
  {
    CompareStringsSign(x.value, y.value);
    CompareStringsSign(y.value, x.value);
    CompareStringsAntisymmetric(x.value, y.value);
    CompareStrings(x.value, y.value)
  }
}
