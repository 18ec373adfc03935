/**
  Java strings as sequences of UTF-16 code units, with the two java.lang.String
  operations the DN code relies on: `trim()` and `compareTo(String)`.
 */
module JavaStrings {

  /** One UTF-16 code unit: a Java `char`. */
  newtype CodeUnit = x: int | 0 <= x < 0x1_0000

  /** A Java `String`. */
  type JString = seq<CodeUnit>

  /** The largest code unit `trim()` strips: U+0020, the space. */
  const SPACE: CodeUnit := ' ' as CodeUnit

  /** A Dafny string literal read as Java code units (every character in the Basic Multilingual Plane). */
  function Str(s: string): (r: JString)
    requires forall i | 0 <= i < |s| :: s[i] as int < 0x1_0000
    ensures |r| == |s|
    ensures forall i | 0 <= i < |s| :: r[i] as int == s[i] as int
  {
    seq(|s|, i requires 0 <= i < |s| => s[i] as CodeUnit)
  }

  // ---------------------------------------------------------------------------
  // trim()
  // ---------------------------------------------------------------------------

  /** The first index at or after `i` that holds a code unit above U+0020, or `|s|`. */
  function SkipLeading(s: JString, i: nat): (st: nat)
    requires i <= |s|
    ensures i <= st <= |s|
    ensures forall k | i <= k < st :: s[k] <= SPACE
    ensures st < |s| ==> SPACE < s[st]
    decreases |s| - i
  {
    if i < |s| && s[i] <= SPACE then SkipLeading(s, i + 1) else i
  }

  /** The end of `s[st..len]` once trailing code units up to U+0020 are dropped. */
  function SkipTrailing(s: JString, st: nat, len: nat): (e: nat)
    requires st <= len <= |s|
    ensures st <= e <= len
    ensures forall k | e <= k < len :: s[k] <= SPACE
    ensures st < e ==> SPACE < s[e - 1]
    decreases len
  {
    if st < len && s[len - 1] <= SPACE then SkipTrailing(s, st, len - 1) else len
  }

  /**
    `String.trim()`: removes every code unit up to U+0020 from both ends.
    The result is a slice of `s` that neither starts nor ends with such a code unit,
    and everything cut away on either side is such a code unit.
   */
  function Trim(s: JString): (r: JString)
    ensures r == [] || (SPACE < r[0] && SPACE < r[|r| - 1])
    ensures exists i :: 0 <= i <= |s| && r <= s[i..]
                        && (forall k | 0 <= k < i :: s[k] <= SPACE)
                        && (forall k | i + |r| <= k < |s| :: s[k] <= SPACE)
  {
    var st := SkipLeading(s, 0);
    var e := SkipTrailing(s, st, |s|);
    assert s[st..e] <= s[st..];
    s[st..e]
  }

  /** Trimming twice is trimming once. */
  lemma TrimIdempotent(s: JString)
    ensures Trim(Trim(s)) == Trim(s)
  {
    var r := Trim(s);
    if r != [] {
      assert SkipLeading(r, 0) == 0;
      assert SkipTrailing(r, 0, |r|) == |r|;
    }
  }

  // ---------------------------------------------------------------------------
  // compareTo(String)
  // ---------------------------------------------------------------------------

  /**
    `String.compareTo`: the difference of the first pair of code units that differ,
    or else the difference of the lengths. Zero exactly when the strings are equal.
   */
  function CompareStrings(a: JString, b: JString): (r: int)
    ensures r == 0 <==> a == b
  {
    if a == [] || b == [] then |a| - |b|
    else if a[0] != b[0] then a[0] as int - b[0] as int
    else
      var r := CompareStrings(a[1..], b[1..]);
      assert a == [a[0]] + a[1..] && b == [b[0]] + b[1..];
      r
  }

  /**
    Lexicographic order on code units, stated independently of `CompareStrings`:
    at the first index where they differ `a` has the smaller code unit, or `a` is a
    proper prefix of `b`.
   */
  ghost predicate LexLess(a: JString, b: JString) {
    exists k :: LexLessAt(a, b, k)
  }

  /** `a` and `b` agree below `k`, and `k` is where `a` has the smaller code unit or ends first. */
  predicate LexLessAt(a: JString, b: JString, k: int) {
    0 <= k <= |a| && k <= |b| && a[..k] == b[..k]
    && ((k < |a| && k < |b| && a[k] < b[k]) || (k == |a| && k < |b|))
  }

  /** Past an equal first code unit, lexicographic order is that of the tails. */
  lemma LexLessTails(a: JString, b: JString)
    requires a != [] && b != [] && a[0] == b[0]
    ensures LexLess(a, b) <==> LexLess(a[1..], b[1..])
  {
    if LexLess(a[1..], b[1..]) {
      var k :| LexLessAt(a[1..], b[1..], k);
      assert a[..k + 1] == [a[0]] + a[1..][..k];
      assert b[..k + 1] == [b[0]] + b[1..][..k];
      assert LexLessAt(a, b, k + 1);
    }
    if LexLess(a, b) {
      var k :| LexLessAt(a, b, k);
      assert k > 0;
      assert a[1..][..k - 1] == a[..k][1..] == b[..k][1..] == b[1..][..k - 1];
      assert LexLessAt(a[1..], b[1..], k - 1);
    }
  }

  /** `compareTo` is negative exactly when `a` comes first in lexicographic order. */
  lemma {:induction false} CompareStringsSign(a: JString, b: JString)
    ensures CompareStrings(a, b) < 0 <==> LexLess(a, b)
  {
    if a == [] || b == [] {
      if CompareStrings(a, b) < 0 {
        assert LexLessAt(a, b, 0);
      }
    } else if a[0] != b[0] {
      if LexLess(a, b) {
        var k :| LexLessAt(a, b, k);
      } else {
        assert !LexLessAt(a, b, 0);
      }
    } else {
      CompareStringsSign(a[1..], b[1..]);
      LexLessTails(a, b);
    }
  }

  /** `compareTo` is antisymmetric: swapping the operands negates the result. */
  lemma {:induction false} CompareStringsAntisymmetric(a: JString, b: JString)
    ensures CompareStrings(b, a) == -CompareStrings(a, b)
  {
    if a != [] && b != [] && a[0] == b[0] {
      CompareStringsAntisymmetric(a[1..], b[1..]);
    }
  }

  /** The order `compareTo` induces is transitive. */
  lemma {:induction false} CompareStringsTransitive(a: JString, b: JString, c: JString)
    requires CompareStrings(a, b) < 0 && CompareStrings(b, c) < 0
    ensures CompareStrings(a, c) < 0
  {
    if a != [] && b != [] && c != [] && a[0] == b[0] && b[0] == c[0] {
      CompareStringsTransitive(a[1..], b[1..], c[1..]);
    }
  }
}
