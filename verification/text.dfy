/**
 * String and sequence helpers that both halves of the system rely on:
 * `Array.prototype.join`, `[...new Set(xs)]`, `Math.max`/`Math.min`,
 * decimal rendering of non-negative integers, `padStart(2, '0')`,
 * `String.prototype.trim` and ASCII lower-casing.
 */
module Text {

  /** `xs.join(sep)`: the elements of `xs` separated by `sep`. */
  function Join(xs: seq<string>, sep: string): string
  {
    if |xs| == 0 then ""
    else if |xs| == 1 then xs[0]
    else Join(xs[..|xs| - 1], sep) + sep + xs[|xs| - 1]
  }

  /** Joining the concatenation of two non-empty lists puts one separator between their joins. */
  lemma {:induction false} JoinConcat(a: seq<string>, b: seq<string>, sep: string)
    requires |a| > 0 && |b| > 0
    ensures Join(a + b, sep) == Join(a, sep) + sep + Join(b, sep)
    decreases |b|
  {
    var ab := a + b;
    assert ab[..|ab| - 1] == a + b[..|b| - 1];
    if |b| > 1 {
      JoinConcat(a, b[..|b| - 1], sep);
    } else {
      assert ab[..|ab| - 1] == a;
    }
  }

  /** Joining two elements puts the separator between them. */
  lemma {:induction false} JoinPair(x: string, y: string, sep: string)
    ensures Join([x, y], sep) == x + sep + y
  {
    assert [x, y][..1] == [x];
  }

  /** True when no element of `xs` occurs twice. */
  predicate NoDuplicates<T(==)>(xs: seq<T>)
  {
    forall i, j :: 0 <= i < j < |xs| ==> xs[i] != xs[j]
  }

  /**
   * `[...new Set(xs)]`: each element of `xs` once, in the order of its first occurrence.
   */
  function Distinct(xs: seq<string>): seq<string>
  {
    if |xs| == 0 then []
    else
      var d := Distinct(xs[..|xs| - 1]);
      if xs[|xs| - 1] in d then d else d + [xs[|xs| - 1]]
  }

  /** Distinct lists every element of `xs`, each exactly once, and nothing else. */
  lemma {:induction false} DistinctFacts(xs: seq<string>)
    ensures NoDuplicates(Distinct(xs))
    ensures forall x :: x in Distinct(xs) <==> x in xs
    ensures |Distinct(xs)| <= |xs|
  {
    if |xs| > 0 {
      var init := xs[..|xs| - 1];
      DistinctFacts(init);
      assert xs == init + [xs[|xs| - 1]];
    }
  }

  /** Distinct of an extended list extends the distinct prefix by at most the new element. */
  lemma {:induction false} DistinctSnoc(xs: seq<string>, x: string)
    ensures Distinct(xs + [x]) == if x in Distinct(xs) then Distinct(xs) else Distinct(xs) + [x]
  {
    assert (xs + [x])[..|xs + [x]| - 1] == xs;
  }

  /** `xs.indexOf(x)`: the position of the first occurrence of `x`. */
  function FirstIndex(xs: seq<string>, x: string): (r: nat)
    requires x in xs
    ensures r < |xs| && xs[r] == x && x !in xs[..r]
  {
    if xs[0] == x then 0
    else
      var r := 1 + FirstIndex(xs[1..], x);
      assert xs[..r] == [xs[0]] + xs[1..][..r - 1];
      r
  }

  /** A first occurrence stays the first occurrence when the list is extended at the end. */
  lemma {:induction false} FirstIndexSnoc(xs: seq<string>, x: string, y: string)
    requires y in xs
    ensures y in xs + [x] && FirstIndex(xs + [x], y) == FirstIndex(xs, y)
  {
    var r := FirstIndex(xs, y);
    var r' := FirstIndex(xs + [x], y);
    assert forall i :: 0 <= i < r ==> xs[i] != y by {
      assert forall i :: 0 <= i < r ==> xs[i] == xs[..r][i];
    }
    assert forall i :: 0 <= i < r' ==> (xs + [x])[i] != y by {
      assert forall i :: 0 <= i < r' ==> (xs + [x])[i] == (xs + [x])[..r'][i];
    }
    assert forall i :: 0 <= i < |xs| ==> (xs + [x])[i] == xs[i];
    assert (xs + [x])[r'] == y && (xs + [x])[r] == y;
  }

  /**
   * Distinct lists the elements in the order of their first occurrence in `xs`. With
   * DistinctFacts this determines Distinct completely.
   */
  lemma {:induction false} DistinctOrder(xs: seq<string>)
    ensures forall k :: 0 <= k < |Distinct(xs)| ==> Distinct(xs)[k] in xs
    ensures forall k, l :: 0 <= k < l < |Distinct(xs)| ==>
      FirstIndex(xs, Distinct(xs)[k]) < FirstIndex(xs, Distinct(xs)[l])
  {
    DistinctFacts(xs);
    if |xs| > 0 {
      var init, x := xs[..|xs| - 1], xs[|xs| - 1];
      assert xs == init + [x];
      var d := Distinct(init);
      DistinctOrder(init);
      DistinctFacts(init);
      DistinctSnoc(init, x);
      forall y | y in d ensures FirstIndex(xs, y) == FirstIndex(init, y) {
        FirstIndexSnoc(init, x, y);
      }
      if x !in d {
        assert FirstIndex(xs, x) == |init| by {
          assert x !in init;
          assert x !in xs[..|init|];
        }
      }
    }
  }

  /** `Math.max(...xs)` on a non-empty list. */
  function Max(xs: seq<int>): (m: int)
    requires |xs| > 0
    ensures m in xs
    ensures forall x :: x in xs ==> x <= m
  {
    if |xs| == 1 then xs[0]
    else
      var rest := Max(xs[1..]);
      assert forall x :: x in xs ==> x == xs[0] || x in xs[1..];
      if xs[0] >= rest then xs[0] else rest
  }

  /** `Math.min(...xs)` on a non-empty list. */
  function Min(xs: seq<int>): (m: int)
    requires |xs| > 0
    ensures m in xs
    ensures forall x :: x in xs ==> m <= x
  {
    if |xs| == 1 then xs[0]
    else
      var rest := Min(xs[1..]);
      assert forall x :: x in xs ==> x == xs[0] || x in xs[1..];
      if xs[0] <= rest then xs[0] else rest
  }

  /** `max(xs, default=0)`: the largest element, or 0 for an empty list. */
  function MaxOrZero(xs: seq<int>): (m: int)
    ensures |xs| == 0 ==> m == 0
    ensures |xs| > 0 ==> m in xs && forall x :: x in xs ==> x <= m
  {
    if |xs| == 0 then 0 else Max(xs)
  }

  predicate IsDigit(c: char)
  {
    '0' <= c <= '9'
  }

  predicate AllDigits(s: string)
  {
    forall i :: 0 <= i < |s| ==> IsDigit(s[i])
  }

  function DigitChar(d: nat): (c: char)
    requires d < 10
    ensures IsDigit(c) && c as int - '0' as int == d
  {
    (d + '0' as int) as char
  }

  /** The decimal text of a non-negative integer (`n.toString()`, Python's `str(n)`), without leading zeros. */
  function NatToString(n: nat): (r: string)
    ensures |r| >= 1 && AllDigits(r)
    ensures (|r| == 1) == (n < 10)
    ensures r[0] != '0' || n == 0
  {
    if n < 10 then [DigitChar(n)]
    else NatToString(n / 10) + [DigitChar(n % 10)]
  }

  /** The number a string of decimal digits denotes. */
  function DigitsValue(s: string): nat
    requires AllDigits(s)
  {
    if |s| == 0 then 0
    else DigitsValue(s[..|s| - 1]) * 10 + (s[|s| - 1] as int - '0' as int)
  }

  /** Reading back the decimal text of `n` gives `n`. */
  lemma {:induction false} NatToStringRoundTrip(n: nat)
    ensures DigitsValue(NatToString(n)) == n
  {
    if n >= 10 {
      NatToStringRoundTrip(n / 10);
      var s := NatToString(n);
      assert s[..|s| - 1] == NatToString(n / 10);
    }
  }

  /** A leading zero does not change the value of a digit string. */
  lemma {:induction false} LeadingZero(s: string)
    requires AllDigits(s)
    ensures AllDigits("0" + s) && DigitsValue("0" + s) == DigitsValue(s)
  {
    var t := "0" + s;
    if |s| > 0 {
      assert t[..|t| - 1] == "0" + s[..|s| - 1];
      LeadingZero(s[..|s| - 1]);
    }
  }

  /** `n.toString().padStart(2, '0')`. */
  function Pad2(n: nat): string
  {
    var s := NatToString(n);
    if |s| < 2 then "0" + s else s
  }

  /** The padded text has at least two digits, exactly two below 100, and reads back as `n`. */
  lemma {:induction false} Pad2Properties(n: nat)
    ensures |Pad2(n)| >= 2 && AllDigits(Pad2(n))
    ensures n < 100 ==> |Pad2(n)| == 2
    ensures DigitsValue(Pad2(n)) == n
  {
    NatToStringRoundTrip(n);
    var s := NatToString(n);
    if |s| < 2 {
      LeadingZero(s);
    } else if n < 100 {
      assert n / 10 < 10;
    }
  }

  /** The single whitespace characters that `String.prototype.trim` removes (ECMAScript WhiteSpace and LineTerminator). */
  const JsSpaces: set<char> := {
    ' ', '\t', '\n', '\r', '\U{000B}', '\U{000C}', '\U{00A0}', '\U{1680}',
    '\U{2028}', '\U{2029}', '\U{202F}', '\U{205F}', '\U{3000}', '\U{FEFF}'
  }

  /** Whitespace for `trim`: one of `JsSpaces`, or in the Unicode range U+2000..U+200A. */
  predicate IsJsSpace(c: char)
  {
    c in JsSpaces || '\U{2000}' <= c <= '\U{200A}'
  }

  /** The first index at or after `k` that does not hold whitespace (or `|s|`). */
  function SkipSpaces(s: string, k: nat): (n: nat)
    requires k <= |s|
    ensures k <= n <= |s|
    ensures forall i :: k <= i < n ==> IsJsSpace(s[i])
    ensures n < |s| ==> !IsJsSpace(s[n])
    decreases |s| - k
  {
    if k < |s| && IsJsSpace(s[k]) then SkipSpaces(s, k + 1) else k
  }

  /** Walking back from `k` towards `lo`, the end of the last non-whitespace character (or `lo`). */
  function SkipSpacesBack(s: string, lo: nat, k: nat): (n: nat)
    requires lo <= k <= |s|
    ensures lo <= n <= k
    ensures forall i :: n <= i < k ==> IsJsSpace(s[i])
    ensures n > lo ==> !IsJsSpace(s[n - 1])
    decreases k
  {
    if k > lo && IsJsSpace(s[k - 1]) then SkipSpacesBack(s, lo, k - 1) else k
  }

  /** `s.trim()`: leading and trailing whitespace removed. */
  function Trim(s: string): string
  {
    var i := SkipSpaces(s, 0);
    s[i..SkipSpacesBack(s, i, |s|)]
  }

  /** `r` is `s[i..j]`, and everything of `s` outside `[i, j)` is whitespace. */
  predicate SliceBetweenSpaces(s: string, r: string, i: nat, j: nat)
  {
    i <= j <= |s| && r == s[i..j]
    && (forall k :: 0 <= k < i ==> IsJsSpace(s[k]))
    && (forall k :: j <= k < |s| ==> IsJsSpace(s[k]))
  }

  /** The trimmed text is the slice of `s` between a whitespace prefix and a whitespace suffix. */
  lemma {:induction false} TrimSlice(s: string)
    ensures exists i: nat, j: nat :: SliceBetweenSpaces(s, Trim(s), i, j)
  {
    var i := SkipSpaces(s, 0);
    var j := SkipSpacesBack(s, i, |s|);
    assert SliceBetweenSpaces(s, Trim(s), i, j);
  }

  /** The trimmed text neither starts nor ends with whitespace. */
  lemma {:induction false} TrimEnds(s: string)
    ensures var r := Trim(s);
      |r| > 0 ==> !IsJsSpace(r[0]) && !IsJsSpace(r[|r| - 1])
  {
    var i := SkipSpaces(s, 0);
    var j := SkipSpacesBack(s, i, |s|);
    if i < j {
      assert Trim(s)[0] == s[i] && Trim(s)[j - i - 1] == s[j - 1];
    }
  }

  /** Trimming leaves nothing exactly when `s` is all whitespace. */
  lemma {:induction false} TrimEmptyIff(s: string)
    ensures Trim(s) == "" <==> forall k :: 0 <= k < |s| ==> IsJsSpace(s[k])
  {
    var i := SkipSpaces(s, 0);
    var j := SkipSpacesBack(s, i, |s|);
    if i < |s| {
      // `s[i]` is not whitespace, so the backward walk stops after it
      assert !IsJsSpace(s[i]);
      assert i < j;
    }
  }

  /** ASCII lower-casing of one character. */
  function LowerChar(c: char): char
  {
    if 'A' <= c <= 'Z' then (c as int - 'A' as int + 'a' as int) as char else c
  }

  /** `s.lower()`, restricted to ASCII letters. */
  function Lower(s: string): (r: string)
    ensures |r| == |s| && forall i :: 0 <= i < |s| ==> r[i] == LowerChar(s[i])
  {
    seq(|s|, i requires 0 <= i < |s| => LowerChar(s[i]))
  }

  /** True when `suffix` ends `s` (Python's `str.endswith`). */
  predicate EndsWith(s: string, suffix: string)
  {
    |suffix| <= |s| && s[|s| - |suffix|..] == suffix
  }
}
