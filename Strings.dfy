/**
 * The pieces of JavaScript string behaviour the page scripts rely on:
 * the relational `<` on strings, `startsWith`/`includes`, ASCII lower-casing,
 * the `\s` class of regular expressions, the decimal text of a number and the
 * default `Array.prototype.sort` of strings after de-duplication.
 *
 * A Dafny `char` is a Unicode scalar value; the model treats it as one UTF-16
 * code unit, which it is for every character of the Basic Multilingual Plane.
 */
module Strings {

  /** JavaScript's `a < b` on strings, character by character from the left (code units on BMP text); a proper prefix is smaller. */
  predicate Less(a: string, b: string)
    decreases |a|
  {
    if |b| == 0 then false
    else if |a| == 0 then true
    else if a[0] != b[0] then a[0] < b[0]
    else Less(a[1..], b[1..])
  }

  lemma {:induction false} LessIrreflexive(a: string)
    ensures !Less(a, a)
    decreases |a|
  {
    if |a| > 0 {
      LessIrreflexive(a[1..]);
    }
  }

  lemma {:induction false} LessTransitive(a: string, b: string, c: string)
    requires Less(a, b) && Less(b, c)
    ensures Less(a, c)
    decreases |a|
  {
    if |a| > 0 && a[0] == b[0] && b[0] == c[0] {
      LessTransitive(a[1..], b[1..], c[1..]);
    }
  }

  lemma {:induction false} LessTotal(a: string, b: string)
    requires a != b
    ensures Less(a, b) || Less(b, a)
    decreases |a|
  {
    if |a| > 0 && |b| > 0 && a[0] == b[0] {
      assert a == [a[0]] + a[1..] && b == [b[0]] + b[1..];
      LessTotal(a[1..], b[1..]);
    }
  }

  /** A string that starts with `p` is never below `p`. */
  lemma {:induction false} PrefixNotLess(p: string, s: string)
    requires p <= s
    ensures !Less(s, p)
    decreases |p|
  {
    if |p| > 0 {
      PrefixNotLess(p[1..], s[1..]);
    }
  }

  /** JavaScript's `s.includes(sub)`. */
  predicate Contains(s: string, sub: string)
    decreases |s|
  {
    sub <= s || (|s| > 0 && Contains(s[1..], sub))
  }

  lemma {:induction false} ContainsAt(s: string, sub: string, i: nat)
    requires i + |sub| <= |s| && s[i..i + |sub|] == sub
    ensures Contains(s, sub)
    decreases i
  {
    if i > 0 {
      assert s[1..][i - 1..i - 1 + |sub|] == s[i..i + |sub|];
      ContainsAt(s[1..], sub, i - 1);
    }
  }

  function LowerChar(c: char): char
  {
    if 'A' <= c <= 'Z' then (c as int + 32) as char else c
  }

  /** `toLowerCase` restricted to ASCII letters. */
  function LowerAscii(s: string): (r: string)
    ensures |r| == |s|
    ensures forall i :: 0 <= i < |s| ==> r[i] == LowerChar(s[i])
  {
    if s == [] then [] else [LowerChar(s[0])] + LowerAscii(s[1..])
  }

  /** The characters matched by `\s` in a JavaScript regular expression. */
  predicate IsWhitespace(c: char)
  {
    c == ' ' || c == '\t' || c == '\n' || c == '\r' || c == '\U{000B}' || c == '\U{000C}'
    || c == '\U{00A0}' || c == '\U{1680}' || ('\U{2000}' <= c <= '\U{200A}')
    || c == '\U{2028}' || c == '\U{2029}' || c == '\U{202F}' || c == '\U{205F}'
    || c == '\U{3000}' || c == '\U{FEFF}'
  }

  function DigitChar(d: nat): (c: char)
    requires d < 10
    ensures '0' <= c <= '9'
  {
    ('0' as int + d) as char
  }

  /** The decimal text of a non-negative integer, as `String(n)` gives it. */
  function NatToString(n: nat): (s: string)
    ensures |s| >= 1
    ensures n < 10 <==> |s| == 1
    ensures forall i :: 0 <= i < |s| ==> '0' <= s[i] <= '9'
  {
    if n < 10 then [DigitChar(n)] else NatToString(n / 10) + [DigitChar(n % 10)]
  }

  /** Two numbers with the same decimal text are equal. */
  lemma {:induction false} NatToStringInjective(a: nat, b: nat)
    requires NatToString(a) == NatToString(b)
    ensures a == b
    decreases a
  {
    var s := NatToString(a);
    if a >= 10 && b >= 10 {
      assert s[..|s| - 1] == NatToString(a / 10);
      assert s[..|s| - 1] == NatToString(b / 10);
      assert DigitChar(a % 10) == s[|s| - 1] == DigitChar(b % 10);
      NatToStringInjective(a / 10, b / 10);
    } else {
      assert s[0] == DigitChar(a) == DigitChar(b);
    }
  }

  /** The text of an integer in a template literal: a minus sign, then the digits. */
  function IntToString(i: int): (s: string)
    ensures |s| >= 1
    ensures forall k :: 0 <= k < |s| ==> s[k] == '-' || '0' <= s[k] <= '9'
    ensures '\n' !in s && ',' !in s && '"' !in s
  {
    if i < 0 then "-" + NatToString(-i) else NatToString(i)
  }

  /** Number of occurrences of `c` in `s`. */
  function Occurrences(c: char, s: string): nat
  {
    if s == [] then 0 else (if s[0] == c then 1 else 0) + Occurrences(c, s[1..])
  }

  lemma {:induction false} OccurrencesConcat(c: char, a: string, b: string)
    ensures Occurrences(c, a + b) == Occurrences(c, a) + Occurrences(c, b)
    decreases |a|
  {
    if a != [] {
      assert (a + b)[0] == a[0] && (a + b)[1..] == a[1..] + b;
      OccurrencesConcat(c, a[1..], b);
    } else {
      assert a + b == b;
    }
  }

  lemma {:induction false} OccurrencesAbsent(c: char, s: string)
    requires c !in s
    ensures Occurrences(c, s) == 0
    decreases |s|
  {
    if s != [] {
      OccurrencesAbsent(c, s[1..]);
    }
  }

  ghost predicate StrictlySorted(s: seq<string>)
  {
    forall i, j :: 0 <= i < j < |s| ==> Less(s[i], s[j])
  }

  /** Inserts `x` into a strictly sorted list unless it is already there. */
  function InsertSorted(x: string, s: seq<string>): (r: seq<string>)
    requires StrictlySorted(s)
    ensures StrictlySorted(r)
    ensures forall t :: t in r <==> t in s || t == x
  {
    if s == [] then [x]
    else if x == s[0] then s
    else if Less(x, s[0]) then
      assert forall j :: 0 < j < |s| ==> Less(x, s[j]) by {
        forall j | 0 < j < |s| ensures Less(x, s[j]) {
          LessTransitive(x, s[0], s[j]);
        }
      }
      [x] + s
    else
      LessTotal(x, s[0]);
      var rest := InsertSorted(x, s[1..]);
      assert forall t :: t in rest ==> Less(s[0], t);
      [s[0]] + rest
  }

  /** `[...new Set(xs)].sort()` for strings: the distinct elements in ascending order. */
  function SortedDistinct(xs: seq<string>): (r: seq<string>)
    ensures StrictlySorted(r)
    ensures forall t :: t in r <==> t in xs
  {
    if xs == [] then []
    else
      var r := InsertSorted(xs[|xs| - 1], SortedDistinct(xs[..|xs| - 1]));
      assert forall t :: t in xs <==> t in xs[..|xs| - 1] || t == xs[|xs| - 1] by {
        assert xs == xs[..|xs| - 1] + [xs[|xs| - 1]];
      }
      r
  }

  /** A strictly sorted list has no repeated element. */
  lemma StrictlySortedDistinct(s: seq<string>, i: nat, j: nat)
    requires StrictlySorted(s) && i < j < |s|
    ensures s[i] != s[j]
  {
    LessIrreflexive(s[i]);
  }
}
