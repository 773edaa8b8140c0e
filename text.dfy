/**
 * The bits of Python's string behaviour the dashboard relies on:
 * `str(n)` / f-string formatting of an `int`, and the code-point
 * ordering that `sorted()` uses on `str` values.
 */
module Text {

  /** The decimal digit character for `d`. */
  function DigitChar(d: nat): (c: char)
    requires d < 10
    ensures '0' <= c <= '9'
    ensures c as int - '0' as int == d
  {
    ('0' as int + d) as char
  }

  predicate IsDigits(s: string) {
    forall i :: 0 <= i < |s| ==> '0' <= s[i] <= '9'
  }

  /** Reads a string of decimal digits back as a number (the inverse of formatting). */
  function ParseDigits(s: string): nat
    requires IsDigits(s)
  {
    if |s| == 0 then 0
    else ParseDigits(s[..|s| - 1]) * 10 + (s[|s| - 1] as int - '0' as int)
  }

  /**
   * Python's `str(n)` for `n >= 0`: at least one digit, only digits,
   * and no leading zero except for `0` itself.
   */
  function NatToString(n: nat): (s: string)
    ensures |s| >= 1
    ensures IsDigits(s)
    ensures s[0] == '0' ==> n == 0
    ensures n == 0 ==> s == "0"
    decreases n
  {
    if n < 10 then [DigitChar(n)] else NatToString(n / 10) + [DigitChar(n % 10)]
  }

  /** The text of a Python `int`: digits, possibly after one minus sign. */
  predicate IsIntText(s: string) {
    IsDigits(s) || (|s| > 0 && s[0] == '-' && IsDigits(s[1..]))
  }

  /** Reads the text of an `int` back as a number (the inverse of formatting). */
  function ParseInt(s: string): int
    requires IsIntText(s)
  {
    if |s| > 0 && s[0] == '-' then -(ParseDigits(s[1..]) as int) else ParseDigits(s)
  }

  /**
   * The text Python's `str` gives an `int`: no leading zero, except for
   * `0` itself, and no `-0`.
   */
  predicate IsCanonicalIntText(s: string) {
    && IsIntText(s)
    && |s| >= 1
    && (s[0] == '0' ==> |s| == 1)
    && (s[0] == '-' ==> |s| > 1 && s[1] != '0')
  }

  /** Python's `str(i)` for any `int`: a minus sign, then the digits of `-i`. */
  function IntToString(i: int): (s: string)
    ensures |s| >= 1
    ensures s[0] == '-' <==> i < 0
    ensures i >= 0 ==> IsDigits(s)
    ensures s[0] == '0' ==> i == 0
    ensures i < 0 ==> |s| > 1 && s[1] != '0'
    ensures IsCanonicalIntText(s)
  {
    if i < 0 then
      var s := "-" + NatToString(-i);
      assert s[1..] == NatToString(-i);
      s
    else NatToString(i)
  }

  /** The number of consecutive digits in `m` from position `p` on. */
  function DigitRunFrom(m: string, p: nat): nat
    decreases |m| - p
  {
    if p < |m| && '0' <= m[p] <= '9' then 1 + DigitRunFrom(m, p + 1) else 0
  }

  /** A run of `d` digits from `p` that stops at a non-digit is the whole run of digits there. */
  lemma {:induction false} DigitRunIs(m: string, p: nat, d: nat)
    requires p + d < |m| && !('0' <= m[p + d] <= '9')
    requires forall k :: p <= k < p + d ==> '0' <= m[k] <= '9'
    ensures DigitRunFrom(m, p) == d
    decreases d
  {
    if d > 0 { DigitRunIs(m, p + 1, d - 1); }
  }

  /** Formatting a count and reading it back gives the count. */
  lemma {:induction false} ParseNatToString(n: nat)
    ensures ParseDigits(NatToString(n)) == n
    decreases n
  {
    if n >= 10 {
      var s := NatToString(n);
      ParseNatToString(n / 10);
      assert s[..|s| - 1] == NatToString(n / 10);
    }
  }

  /** Formatting an `int` and reading it back gives the `int`: its digits are those of its magnitude. */
  lemma ParseIntToString(i: int)
    ensures ParseInt(IntToString(i)) == i
    ensures i >= 0 ==> ParseDigits(IntToString(i)) == i
    ensures i < 0 ==> IsDigits(IntToString(i)[1..]) && ParseDigits(IntToString(i)[1..]) == -i
  {
    if i < 0 {
      assert IntToString(i)[1..] == NatToString(-i);
      ParseNatToString(-i);
    } else {
      ParseNatToString(i);
    }
  }

  /** A run of digits with no leading zero (or the single `0`) is how its value is written. */
  lemma {:induction false} NatToStringOfDigits(t: string)
    requires IsDigits(t) && |t| >= 1 && (t[0] == '0' ==> |t| == 1)
    ensures NatToString(ParseDigits(t)) == t
    decreases |t|
  {
    var c := t[|t| - 1];
    var d := c as int - '0' as int;
    if |t| == 1 {
      assert t == [c];
      assert DigitChar(d) == c;
    } else {
      var u := t[..|t| - 1];
      assert u[0] == t[0];
      NatToStringOfDigits(u);
      var m := ParseDigits(u);
      var n := ParseDigits(t);
      assert n == m * 10 + d && 0 <= d < 10;
      assert n / 10 == m && n % 10 == d;
      assert DigitChar(d) == c;
      assert t == u + [c];
    }
  }

  /**
   * Text in the form `str` gives an `int` is the text of the `int` it
   * reads back as: the value fixes the text.
   */
  lemma IntToStringOfCanonical(s: string)
    requires IsCanonicalIntText(s)
    ensures IntToString(ParseInt(s)) == s
  {
    if s[0] == '-' {
      var t := s[1..];
      assert t[0] == s[1];
      NatToStringOfDigits(t);
      assert s == "-" + t;
    } else {
      assert IsDigits(s);
      NatToStringOfDigits(s);
    }
  }

  /** Distinct counts are written differently. */
  lemma NatToStringInjective(a: nat, b: nat)
    ensures NatToString(a) == NatToString(b) ==> a == b
  {
    ParseNatToString(a);
    ParseNatToString(b);
  }

  /** Distinct years are written differently, so the titles that embed them differ too. */
  lemma IntToStringInjective(a: int, b: int)
    ensures IntToString(a) == IntToString(b) ==> a == b
  {
    if IntToString(a) == IntToString(b) {
      if a < 0 {
        assert IntToString(a)[1..] == NatToString(-a);
        assert IntToString(b)[1..] == NatToString(-b);
        NatToStringInjective(-a, -b);
      } else {
        NatToStringInjective(a, b);
      }
    }
  }

  /** At the first position where `a` and `b` differ, `a` has the smaller code point. */
  ghost predicate FirstDifferenceBelow(a: string, b: string) {
    exists k :: 0 <= k < |a| && k < |b| && a[..k] == b[..k] && a[k] < b[k]
  }

  /**
   * Python's `a <= b` on `str`: lexicographic by code point, a proper
   * prefix sorting first.  (Dafny's own `<=` on sequences means "is a prefix".)
   */
  function StrLe(a: string, b: string): (le: bool)
    ensures le <==> a <= b || FirstDifferenceBelow(a, b)
    decreases |a|
  {
    if |a| == 0 then true
    else if |b| == 0 then false
    else if a[0] < b[0] then
      assert a[..0] == b[..0];
      assert FirstDifferenceBelow(a, b);
      true
    else if a[0] > b[0] then
      assert !(a <= b);
      assert !FirstDifferenceBelow(a, b) by {
        forall k | 0 < k < |a| && k < |b| ensures a[..k] != b[..k] { assert a[..k][0] != b[..k][0]; }
      }
      false
    else
      StrLeStep(a, b);
      StrLe(a[1..], b[1..])
  }

  /** Past an equal first character, both the prefix test and the first difference move one place on. */
  lemma StrLeStep(a: string, b: string)
    requires |a| > 0 && |b| > 0 && a[0] == b[0]
    ensures a <= b <==> a[1..] <= b[1..]
    ensures FirstDifferenceBelow(a, b) <==> FirstDifferenceBelow(a[1..], b[1..])
  {
    assert a <= b <==> a[1..] <= b[1..] by {
      assert a == [a[0]] + a[1..];
      assert b == [b[0]] + b[1..];
    }
    assert FirstDifferenceBelow(a, b) <==> FirstDifferenceBelow(a[1..], b[1..]) by {
      forall k | 0 <= k < |a| - 1 && k < |b| - 1
        ensures a[..k + 1] == b[..k + 1] <==> a[1..][..k] == b[1..][..k]
      {
        assert a[..k + 1] == [a[0]] + a[1..][..k];
        assert b[..k + 1] == [b[0]] + b[1..][..k];
      }
      if exists k :: 0 <= k < |a| && k < |b| && a[..k] == b[..k] && a[k] < b[k] {
        var k :| 0 <= k < |a| && k < |b| && a[..k] == b[..k] && a[k] < b[k];
        assert k > 0;
        assert a[1..][k - 1] < b[1..][k - 1];
      }
      if exists k :: 0 <= k < |a| - 1 && k < |b| - 1 && a[1..][..k] == b[1..][..k] && a[1..][k] < b[1..][k] {
        var k :| 0 <= k < |a| - 1 && k < |b| - 1 && a[1..][..k] == b[1..][..k] && a[1..][k] < b[1..][k];
        assert a[k + 1] < b[k + 1];
      }
    }
  }

  lemma {:induction false} StrLeReflexive(a: string)
    ensures StrLe(a, a)
    decreases |a|
  {
    if |a| > 0 { StrLeReflexive(a[1..]); }
  }

  lemma {:induction false} StrLeTotal(a: string, b: string)
    ensures StrLe(a, b) || StrLe(b, a)
    decreases |a|
  {
    if |a| > 0 && |b| > 0 && a[0] == b[0] { StrLeTotal(a[1..], b[1..]); }
  }

  lemma {:induction false} StrLeAntisymmetric(a: string, b: string)
    requires StrLe(a, b) && StrLe(b, a)
    ensures a == b
    decreases |a|
  {
    if |a| > 0 {
      StrLeAntisymmetric(a[1..], b[1..]);
      assert a == [a[0]] + a[1..];
      assert b == [b[0]] + b[1..];
    }
  }

  lemma {:induction false} StrLeTransitive(a: string, b: string, c: string)
    requires StrLe(a, b) && StrLe(b, c)
    ensures StrLe(a, c)
    decreases |a|
  {
    if |a| > 0 && a[0] == b[0] && b[0] == c[0] {
      StrLeTransitive(a[1..], b[1..], c[1..]);
    }
  }

  /** Every pair, in order, is `<=`: what `sorted()` returns. */
  ghost predicate Sorted(s: seq<string>) {
    forall i, j :: 0 <= i < j < |s| ==> StrLe(s[i], s[j])
  }

  /** Putting a lower bound of a sorted sequence in front keeps it sorted. */
  lemma SortedCons(y: string, t: seq<string>)
    requires Sorted(t)
    requires forall k :: 0 <= k < |t| ==> StrLe(y, t[k])
    ensures Sorted([y] + t)
  {
  }

  /** A lower bound of `x` and of every element of `s` bounds every element of a rearrangement of both. */
  lemma LowerBoundOfRearrangement(y: string, x: string, s: seq<string>, t: seq<string>)
    requires StrLe(y, x)
    requires forall j :: 0 <= j < |s| ==> StrLe(y, s[j])
    requires multiset(t) == multiset(s) + multiset{x}
    ensures forall k :: 0 <= k < |t| ==> StrLe(y, t[k])
  {
    forall k | 0 <= k < |t| ensures StrLe(y, t[k]) {
      assert t[k] in multiset(t);
      assert t[k] == x || t[k] in multiset(s);
    }
  }

  /** Places `x` in front of the first element it is `<=` to. */
  function Insert(x: string, s: seq<string>): (r: seq<string>)
    requires Sorted(s)
    ensures Sorted(r)
    ensures multiset(r) == multiset(s) + multiset{x}
    decreases |s|
  {
    if |s| == 0 then [x]
    else if StrLe(x, s[0]) then
      assert forall j :: 0 <= j < |s| ==> StrLe(x, s[j]) by {
        forall j | 0 < j < |s| ensures StrLe(x, s[j]) { StrLeTransitive(x, s[0], s[j]); }
      }
      SortedCons(x, s);
      [x] + s
    else
      var t := Insert(x, s[1..]);
      StrLeTotal(x, s[0]);
      assert s == [s[0]] + s[1..];
      LowerBoundOfRearrangement(s[0], x, s[1..], t);
      SortedCons(s[0], t);
      [s[0]] + t
  }

  /** Python's `sorted()` on a list of `str`: an ordered permutation of the input. */
  function Sort(s: seq<string>): (r: seq<string>)
    ensures Sorted(r)
    ensures multiset(r) == multiset(s)
    decreases |s|
  {
    if |s| == 0 then []
    else
      assert s == [s[0]] + s[1..];
      Insert(s[0], Sort(s[1..]))
  }

  /** Two sorted arrangements of one collection start with the same element. */
  lemma SortedHeadsEqual(a: seq<string>, b: seq<string>)
    requires Sorted(a) && Sorted(b) && multiset(a) == multiset(b) && |a| > 0
    ensures |b| > 0 && a[0] == b[0]
  {
    assert |b| == |multiset(b)| == |a|;
    assert a[0] in multiset(b) && b[0] in multiset(a);
    var i :| 0 <= i < |b| && b[i] == a[0];
    var j :| 0 <= j < |a| && a[j] == b[0];
    assert StrLe(b[0], a[0]) by { if i > 0 { } else { StrLeReflexive(b[0]); } }
    assert StrLe(a[0], b[0]) by { if j > 0 { } else { StrLeReflexive(a[0]); } }
    StrLeAntisymmetric(a[0], b[0]);
  }

  /** An ordering with no ties admits exactly one sorted arrangement of a collection. */
  lemma {:induction false} SortedUnique(a: seq<string>, b: seq<string>)
    requires Sorted(a) && Sorted(b) && multiset(a) == multiset(b)
    ensures a == b
    decreases |a|
  {
    if |a| > 0 {
      SortedHeadsEqual(a, b);
      assert a == [a[0]] + a[1..];
      assert b == [b[0]] + b[1..];
      assert multiset(a[1..]) == multiset(a) - multiset{a[0]};
      assert multiset(b[1..]) == multiset(b) - multiset{b[0]};
      SortedUnique(a[1..], b[1..]);
    }
  }
}
