// JavaScript and .NET strings: sequences of UTF-16 code units, how they are ordered,
// how a string splits into code points, and how a counter is printed in decimal.
module Text {

  type CodeUnit = u: int | 0 <= u < 0x1_0000

  type JsString = seq<CodeUnit>

  const NEWLINE: CodeUnit := 10
  const COLON: CodeUnit := 58
  const DIGIT_ZERO: CodeUnit := 48

  // The ordinal order of strings: code unit by code unit, a proper prefix first.
  predicate StringLess(a: JsString, b: JsString) {
    b != [] && (a == [] || a[0] < b[0] || (a[0] == b[0] && StringLess(a[1..], b[1..])))
  }

  lemma StringLessTrichotomy(a: JsString, b: JsString)
    ensures a == b || StringLess(a, b) || StringLess(b, a)
    ensures !(StringLess(a, b) && StringLess(b, a))
    ensures !StringLess(a, a)
  {
    if a != [] && b != [] && a[0] == b[0] {
      StringLessTrichotomy(a[1..], b[1..]);
      assert a == [a[0]] + a[1..] && b == [b[0]] + b[1..];
    }
    if a != [] {
      StringLessTrichotomy(a[1..], a[1..]);
    }
  }

  lemma StringLessTransitive(a: JsString, b: JsString, c: JsString)
    requires StringLess(a, b) && StringLess(b, c)
    ensures StringLess(a, c)
  {
    if a != [] && a[0] == b[0] == c[0] {
      StringLessTransitive(a[1..], b[1..], c[1..]);
    }
  }

  // The least index at which two strings differ, where a has the smaller unit.
  ghost predicate SmallerAt(a: JsString, b: JsString, i: nat) {
    i < |a| && i < |b| && a[..i] == b[..i] && a[i] < b[i]
  }

  // The order without the recursion: a proper prefix comes first, and otherwise the string with the
  // smaller unit at the first difference.
  lemma {:induction false} StringLessIff(a: JsString, b: JsString)
    ensures StringLess(a, b) <==> a < b || exists i :: SmallerAt(a, b, i)
  {
    if a != [] && b != [] && a[0] == b[0] {
      StringLessIff(a[1..], b[1..]);
      if i: nat :| SmallerAt(a[1..], b[1..], i) {
        assert a[..i + 1] == [a[0]] + a[1..][..i] && b[..i + 1] == [b[0]] + b[1..][..i];
        assert SmallerAt(a, b, i + 1);
      }
      if i: nat :| SmallerAt(a, b, i) {
        assert i > 0;
        assert a[1..][..i - 1] == a[..i][1..] && b[1..][..i - 1] == b[..i][1..];
        assert SmallerAt(a[1..], b[1..], i - 1);
      }
    } else if a != [] && b != [] && a[0] < b[0] {
      assert SmallerAt(a, b, 0);
    }
  }

  lemma SmallerUnitIsLess(front: JsString, u: CodeUnit, x: JsString, v: CodeUnit, y: JsString)
    requires u < v
    ensures StringLess(front + [u] + x, front + [v] + y)
    ensures !StringLess(front + [v] + y, front + [u] + x)
  {
    var a, b := front + [u] + x, front + [v] + y;
    assert a[..|front|] == front == b[..|front|];
    assert SmallerAt(a, b, |front|);
    StringLessIff(a, b);
    StringLessTrichotomy(a, b);
  }

  lemma PrefixIsLess(front: JsString, x: JsString)
    requires x != []
    ensures StringLess(front, front + x) && !StringLess(front + x, front)
  {
    StringLessIff(front, front + x);
    StringLessTrichotomy(front, front + x);
  }

  predicate IsHighSurrogate(u: CodeUnit) { 0xD800 <= u < 0xDC00 }

  predicate IsLowSurrogate(u: CodeUnit) { 0xDC00 <= u < 0xE000 }

  // Each value is one unit or a surrogate pair, and no pair is split over two values.
  ghost predicate SplitAtCodePoints(values: seq<JsString>) {
    && (forall i | 0 <= i < |values| ::
          |values[i]| == 1
          || (|values[i]| == 2 && 0xD800 <= values[i][0] <= 0xDBFF && 0xDC00 <= values[i][1] <= 0xDFFF))
    && (forall i | 0 <= i < |values| - 1 ::
          |values[i]| == 1 && |values[i + 1]| == 1 ==>
            !(0xD800 <= values[i][0] <= 0xDBFF && 0xDC00 <= values[i + 1][0] <= 0xDFFF))
  }

  lemma SplitCons(v: JsString, rest: seq<JsString>)
    requires SplitAtCodePoints([v]) && SplitAtCodePoints(rest)
    requires |v| == 1 && IsHighSurrogate(v[0]) && Join(rest) != [] ==> !IsLowSurrogate(Join(rest)[0])
    ensures SplitAtCodePoints([v] + rest) && Join([v] + rest) == v + Join(rest)
  {
    var values := [v] + rest;
    assert values[1..] == rest;
    assert forall i | 1 <= i < |values| :: values[i] == rest[i - 1];
    if rest != [] {
      assert |rest[0]| >= 1 && Join(rest)[0] == rest[0][0];
    }
  }

  // What iterating a string yields: a surrogate pair is one value, every other code unit is one.
  function CodePoints(text: JsString): (values: seq<JsString>)
    ensures forall v | v in values :: 1 <= |v| <= 2
    ensures SplitAtCodePoints(values) && Join(values) == text
  {
    if text == [] then []
    else if |text| >= 2 && IsHighSurrogate(text[0]) && IsLowSurrogate(text[1]) then
      var rest := CodePoints(text[2..]);
      SplitCons(text[..2], rest);
      [text[..2]] + rest
    else
      var rest := CodePoints(text[1..]);
      SplitCons(text[..1], rest);
      [text[..1]] + rest
  }

  // That determines the values.
  lemma {:induction false} CodePointsUnique(text: JsString, values: seq<JsString>)
    requires SplitAtCodePoints(values) && Join(values) == text
    ensures values == CodePoints(text)
    decreases |values|
  {
    if values != [] {
      var v, rest := values[0], values[1..];
      assert text[..|v|] == v && text[|v|..] == Join(rest);
      assert forall i | 0 <= i < |rest| :: rest[i] == values[i + 1];
      CodePointsUnique(text[|v|..], rest);
      if |v| == 1 && rest != [] {
        assert Join(rest) == rest[0] + Join(rest[1..]) && text[1] == rest[0][0];
      }
    }
  }

  // Concatenation of a list of strings.
  function Join(values: seq<JsString>): JsString {
    if values == [] then [] else values[0] + Join(values[1..])
  }

  lemma {:induction false} JoinAppend(a: seq<JsString>, b: seq<JsString>)
    ensures Join(a + b) == Join(a) + Join(b)
  {
    if a == [] {
      assert a + b == b;
    } else {
      assert (a + b)[1..] == a[1..] + b;
      JoinAppend(a[1..], b);
    }
  }

  function Decimal(n: nat): (digits: JsString)
    ensures |digits| > 0 && forall d | d in digits :: DIGIT_ZERO <= d < DIGIT_ZERO + 10
    decreases n
  {
    if n < 10 then [DIGIT_ZERO + n] else Decimal(n / 10) + [DIGIT_ZERO + n % 10]
  }

  // What a list of digits means, the last one counting ones.
  function DigitsValue(digits: seq<int>): int {
    if digits == [] then 0 else 10 * DigitsValue(digits[..|digits| - 1]) + (digits[|digits| - 1] - 48)
  }

  // The digits of n mean n, and only 0 starts with a 0.
  lemma {:induction false} DecimalMeans(n: nat)
    ensures DigitsValue(Decimal(n)) == n && (n > 0 ==> Decimal(n)[0] != 48)
    ensures n == 1024 ==> Decimal(n) == [49, 48, 50, 52]
    decreases n
  {
    var d := Decimal(n);
    if n >= 10 {
      DecimalMeans(n / 10);
      assert d[..|d| - 1] == Decimal(n / 10) && d[0] == Decimal(n / 10)[0];
      assert n == 1024 ==> Decimal(102) == Decimal(10) + [50] && Decimal(10) == Decimal(1) + [48];
    } else {
      assert d[..0] == [];
    }
  }

  lemma {:induction false} DecimalInjective(m: nat, n: nat)
    requires Decimal(m) == Decimal(n)
    ensures m == n
    decreases m
  {
    var a, b := Decimal(m), Decimal(n);
    assert a[|a| - 1] == DIGIT_ZERO + m % 10 && b[|b| - 1] == DIGIT_ZERO + n % 10;
    if m >= 10 && n >= 10 {
      assert a[..|a| - 1] == Decimal(m / 10) && b[..|b| - 1] == Decimal(n / 10);
      DecimalInjective(m / 10, n / 10);
    }
  }
}
