/**
 * The few JavaScript string operations the scheduler and the streak tracker rely on:
 * relational comparison of strings (`<`, `<=`), zero-padded decimal fields as written
 * by `Date.prototype.toISOString`, `split(sep)[0]`, and lower-casing.
 */
module JsString {

  /** JavaScript `a < b` on two strings: lexicographic order of their code units,
      where a proper prefix is smaller than the longer string. */
  predicate StringLess(a: string, b: string)
    decreases |a|
  {
    if |b| == 0 then false
    else if |a| == 0 then true
    else if a[0] != b[0] then a[0] < b[0]
    else StringLess(a[1..], b[1..])
  }

  /** JavaScript `a <= b` on two strings, which the language defines as `!(b < a)`. */
  predicate StringAtMost(a: string, b: string) {
    !StringLess(b, a)
  }

  lemma {:induction false} StringLessIrreflexive(s: string)
    ensures !StringLess(s, s)
    decreases |s|
  {
    if |s| > 0 {
      StringLessIrreflexive(s[1..]);
    }
  }

  /** `<` on strings is a strict total order: never both ways, and always one way between
      distinct strings. */
  lemma {:induction false} StringLessTotalOrder(a: string, b: string)
    ensures !(StringLess(a, b) && StringLess(b, a))
    ensures a == b || StringLess(a, b) || StringLess(b, a)
    decreases |a|
  {
    if |a| > 0 && |b| > 0 && a[0] == b[0] {
      StringLessTotalOrder(a[1..], b[1..]);
      if a[1..] == b[1..] {
        assert a == [a[0]] + a[1..] && b == [b[0]] + b[1..];
      }
    }
  }

  /** JavaScript's `<=`, defined as "not greater", is "less or equal". */
  lemma StringAtMostIsLessOrEqual(a: string, b: string)
    ensures StringAtMost(a, b) <==> StringLess(a, b) || a == b
  {
    StringLessTotalOrder(a, b);
    StringLessIrreflexive(a);
  }

  /** Comparing two concatenations whose first parts have equal length compares the
      first parts, and only when those are equal the second parts. */
  lemma {:induction false} StringLessAppend(a1: string, a2: string, b1: string, b2: string)
    requires |a1| == |b1|
    ensures StringLess(a1 + a2, b1 + b2) <==> StringLess(a1, b1) || (a1 == b1 && StringLess(a2, b2))
    decreases |a1|
  {
    if |a1| == 0 {
      assert a1 + a2 == a2 && b1 + b2 == b2;
      assert a1 == b1;
      StringLessIrreflexive(a1);
    } else {
      assert (a1 + a2)[0] == a1[0] && (b1 + b2)[0] == b1[0];
      assert (a1 + a2)[1..] == a1[1..] + a2;
      assert (b1 + b2)[1..] == b1[1..] + b2;
      if a1[0] == b1[0] {
        StringLessAppend(a1[1..], a2, b1[1..], b2);
        assert a1 == b1 <==> a1[1..] == b1[1..] by {
          if a1[1..] == b1[1..] {
            assert a1 == [a1[0]] + a1[1..] && b1 == [b1[0]] + b1[1..];
          }
        }
      }
    }
  }

  /** Comparing two strings that start with the same text compares what follows it. */
  lemma StringLessCommonPrefix(p: string, a: string, b: string)
    ensures StringLess(p + a, p + b) <==> StringLess(a, b)
  {
    StringLessAppend(p, a, p, b);
    StringLessIrreflexive(p);
  }

  function Pow10(k: nat): (p: nat)
    ensures p >= 1
  {
    if k == 0 then 1 else 10 * Pow10(k - 1)
  }

  predicate IsDigitChar(c: char) {
    '0' <= c <= '9'
  }

  /** The character of the decimal digit `d`. */
  function DigitChar(d: nat): (c: char)
    requires d < 10
    ensures IsDigitChar(c)
  {
    (('0' as int) + d) as char
  }

  /** The last `width` decimal digits of `n`, padded on the left with zeros:
      the form of every field of an ISO 8601 date and time. */
  function Digits(n: nat, width: nat): (s: string)
    ensures |s| == width
    ensures forall i :: 0 <= i < |s| ==> IsDigitChar(s[i])
    decreases width
  {
    if width == 0 then [] else Digits(n / 10, width - 1) + [DigitChar(n % 10)]
  }

  /** For numbers that fit the width, padded digit strings compare exactly as the numbers do,
      and two such strings are equal only for equal numbers. */
  lemma {:induction false} DigitsOrder(n: nat, m: nat, width: nat)
    requires n < Pow10(width) && m < Pow10(width)
    ensures StringLess(Digits(n, width), Digits(m, width)) <==> n < m
    ensures Digits(n, width) == Digits(m, width) <==> n == m
    decreases width
  {
    if width > 0 {
      var p := Pow10(width - 1);
      assert n / 10 < p && m / 10 < p;
      DigitsOrder(n / 10, m / 10, width - 1);
      var hn, hm := Digits(n / 10, width - 1), Digits(m / 10, width - 1);
      var cn, cm := DigitChar(n % 10), DigitChar(m % 10);
      StringLessAppend(hn, [cn], hm, [cm]);
      assert StringLess([cn], [cm]) <==> n % 10 < m % 10;
      assert n == 10 * (n / 10) + n % 10 && m == 10 * (m / 10) + m % 10;
      assert Digits(n, width) == hn + [cn] && Digits(m, width) == hm + [cm];
      if hn + [cn] == hm + [cm] {
        assert hn == (hn + [cn])[..width - 1] && hm == (hm + [cm])[..width - 1];
        assert cn == (hn + [cn])[width - 1] && cm == (hm + [cm])[width - 1];
      }
    }
  }

  /** Lower-casing of one character, restricted to the ASCII letters. */
  function LowerChar(c: char): (r: char)
    ensures 'A' <= c <= 'Z' ==> r as int == c as int + 32
    ensures !('A' <= c <= 'Z') ==> r == c
  {
    if 'A' <= c <= 'Z' then (c as int + 32) as char else c
  }

  /** `s.toLowerCase()`, restricted to the ASCII letters. */
  function Lower(s: string): (r: string)
    ensures |r| == |s|
    ensures forall i :: 0 <= i < |s| ==> r[i] == LowerChar(s[i])
  {
    seq(|s|, i requires 0 <= i < |s| => LowerChar(s[i]))
  }

  /** `s.split(sep)[0]` for a one-character separator: the text before the first `sep`,
      or all of `s` when it holds none. */
  function BeforeFirst(s: string, sep: char): (r: string)
    ensures |r| <= |s| && r == s[..|r|]
    ensures sep !in r
    ensures |r| < |s| ==> s[|r|] == sep
    decreases |s|
  {
    if |s| == 0 then []
    else if s[0] == sep then []
    else [s[0]] + BeforeFirst(s[1..], sep)
  }

  /** Splitting at the first separator gives back the part before it when that part
      contains no separator. */
  lemma {:induction false} BeforeFirstOfJoin(head: string, sep: char, tail: string)
    requires sep !in head
    ensures BeforeFirst(head + [sep] + tail, sep) == head
    decreases |head|
  {
    var s := head + [sep] + tail;
    if |head| > 0 {
      assert s[0] == head[0];
      assert s[1..] == head[1..] + [sep] + tail;
      BeforeFirstOfJoin(head[1..], sep, tail);
      assert head == [head[0]] + head[1..];
    } else {
      assert s[0] == sep;
    }
  }
}
