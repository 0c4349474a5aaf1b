/** The JavaScript string operations the components rely on: `split` on one
    character, `join`, `trim`, `includes`, ASCII `toLowerCase`, and the decimal
    rendering of a natural number. Strings are sequences of Unicode scalar
    values, which coincides with JavaScript's UTF-16 code units on the Basic
    Multilingual Plane. */
module Strings {

  /** The characters `String.prototype.trim` removes: ECMAScript WhiteSpace
      (TAB, VT, FF, ZWNBSP and every space separator) and LineTerminator. */
  predicate IsWhite(ch: char)
  {
    || ch == ' ' || ch == '\t' || ch == '\n' || ch == '\r'
    || ch == '\U{000B}' || ch == '\U{000C}' || ch == '\U{00A0}' || ch == '\U{1680}'
    || ('\U{2000}' <= ch <= '\U{200A}')
    || ch == '\U{2028}' || ch == '\U{2029}' || ch == '\U{202F}' || ch == '\U{205F}'
    || ch == '\U{3000}' || ch == '\U{FEFF}'
  }

  predicate AllWhite(s: string)
  {
    forall i :: 0 <= i < |s| ==> IsWhite(s[i])
  }

  /** Neither end of `s` is a white-space character. */
  predicate IsTrimmed(s: string)
  {
    |s| == 0 || (!IsWhite(s[0]) && !IsWhite(s[|s| - 1]))
  }

  function TrimStart(s: string): string
    decreases |s|
  {
    if |s| > 0 && IsWhite(s[0]) then TrimStart(s[1..]) else s
  }

  function TrimEnd(s: string): string
    decreases |s|
  {
    if |s| > 0 && IsWhite(s[|s| - 1]) then TrimEnd(s[..|s| - 1]) else s
  }

  /** `s.trim()`. */
  function Trim(s: string): (r: string)
    ensures IsTrimmed(r)
  {
    TrimStartFirst(s);
    TrimEndLast(TrimStart(s));
    TrimEndKeepsFirst(TrimStart(s));
    TrimEnd(TrimStart(s))
  }

  /** `TrimStart` stops at the first character that is not white. */
  lemma {:induction false} TrimStartFirst(s: string)
    ensures |TrimStart(s)| == 0 || !IsWhite(TrimStart(s)[0])
    decreases |s|
  {
    if |s| > 0 && IsWhite(s[0]) {
      TrimStartFirst(s[1..]);
    }
  }

  /** `TrimEnd` stops at the last character that is not white. */
  lemma {:induction false} TrimEndLast(s: string)
    ensures |TrimEnd(s)| == 0 || !IsWhite(TrimEnd(s)[|TrimEnd(s)| - 1])
    decreases |s|
  {
    if |s| > 0 && IsWhite(s[|s| - 1]) {
      TrimEndLast(s[..|s| - 1]);
    }
  }

  /** `TrimStart` drops a white prefix of some length `i`. */
  lemma {:induction false} TrimStartCut(s: string) returns (i: nat)
    ensures i <= |s| && TrimStart(s) == s[i..]
    ensures forall k :: 0 <= k < i ==> IsWhite(s[k])
    decreases |s|
  {
    if |s| > 0 && IsWhite(s[0]) {
      var i1 := TrimStartCut(s[1..]);
      i := i1 + 1;
      assert s[1..][i1..] == s[i..];
      forall k | 1 <= k < i
        ensures IsWhite(s[k])
      {
        assert s[k] == s[1..][k - 1];
      }
    } else {
      i := 0;
      assert s[0..] == s;
    }
  }

  /** `TrimEnd` drops a white suffix, keeping the first `j` characters. */
  lemma {:induction false} TrimEndCut(s: string) returns (j: nat)
    ensures j <= |s| && TrimEnd(s) == s[..j]
    ensures forall k :: j <= k < |s| ==> IsWhite(s[k])
    decreases |s|
  {
    if |s| > 0 && IsWhite(s[|s| - 1]) {
      var t := s[..|s| - 1];
      j := TrimEndCut(t);
      assert t[..j] == s[..j];
      forall k | j <= k < |s| - 1
        ensures IsWhite(s[k])
      {
        assert s[k] == t[k];
      }
    } else {
      j := |s|;
      assert s[..|s|] == s;
    }
  }

  /** A string that starts with a non-white character keeps it under `TrimEnd`. */
  lemma {:induction false} TrimEndKeepsFirst(s: string)
    ensures |s| > 0 && !IsWhite(s[0]) ==> |TrimEnd(s)| > 0 && TrimEnd(s)[0] == s[0]
    decreases |s|
  {
    if |s| > 0 && !IsWhite(s[0]) && IsWhite(s[|s| - 1]) {
      TrimEndKeepsFirst(s[..|s| - 1]);
    }
  }

  /** `trim` removes a white prefix and a white suffix and nothing else. */
  lemma TrimSlice(s: string) returns (i: nat, j: nat)
    ensures i <= j <= |s|
    ensures Trim(s) == s[i..j]
    ensures AllWhite(s[..i]) && AllWhite(s[j..])
  {
    i := TrimStartCut(s);
    var u := s[i..];
    var j0 := TrimEndCut(u);
    j := i + j0;
    assert Trim(s) == TrimEnd(u);
    SliceOfSuffix(s, i, j0);
    forall k | 0 <= k < |s[j..]|
      ensures IsWhite(s[j..][k])
    {
      assert s[j..][k] == u[j0 + k];
    }
    forall k | 0 <= k < i
      ensures IsWhite(s[..i][k])
    {
      assert s[..i][k] == s[k];
    }
  }

  lemma SliceOfSuffix(s: string, i: nat, j: nat)
    requires i + j <= |s|
    ensures s[i..][..j] == s[i..i + j]
    ensures s[i..][j..] == s[i + j..]
  {
  }

  /** A trimmed string is left alone by `trim`. */
  lemma TrimOfTrimmed(s: string)
    requires IsTrimmed(s)
    ensures Trim(s) == s
  {
    assert TrimStart(s) == s;
    if |s| > 0 {
      assert TrimEnd(s) == s;
    }
  }

  /** White space put in front of a string is removed by `trim`. */
  lemma {:induction false} TrimAfterWhite(w: string, s: string)
    requires AllWhite(w)
    ensures Trim(w + s) == Trim(s)
    decreases |w|
  {
    if |w| > 0 {
      assert (w + s)[1..] == w[1..] + s;
      TrimAfterWhite(w[1..], s);
    } else {
      assert w + s == s;
    }
  }

  /** Position of the first `c` in `s`. */
  function FirstIndexOf(s: string, c: char): (i: nat)
    requires c in s
    ensures i < |s| && s[i] == c && c !in s[..i]
    decreases |s|
  {
    if s[0] == c then 0
    else
      var k := FirstIndexOf(s[1..], c);
      assert s[..k + 1] == [s[0]] + s[1..][..k];
      k + 1
  }

  /** `s.split(c)` for a one-character separator: the maximal separator-free
      pieces, always at least one (`"".split(",")` is `[""]`). */
  function Split(s: string, c: char): (r: seq<string>)
    ensures |r| >= 1
    ensures forall i :: 0 <= i < |r| ==> c !in r[i]
    decreases |s|
  {
    if c !in s then [s]
    else
      var i := FirstIndexOf(s, c);
      [s[..i]] + Split(s[i + 1..], c)
  }

  /** `xs.join(sep)`. */
  function Join(xs: seq<string>, sep: string): string
    decreases |xs|
  {
    if |xs| == 0 then ""
    else if |xs| == 1 then xs[0]
    else xs[0] + sep + Join(xs[1..], sep)
  }

  /** Joining the pieces with the separator gives back the string that was split. */
  lemma {:induction false} JoinSplit(s: string, c: char)
    ensures Join(Split(s, c), [c]) == s
    decreases |s|
  {
    if c in s {
      var i := FirstIndexOf(s, c);
      var rest := s[i + 1..];
      JoinSplit(rest, c);
      assert Split(s, c) == [s[..i]] + Split(rest, c);
      assert Split(s, c)[1..] == Split(rest, c);
      assert s == s[..i] + [c] + rest;
    }
  }

  /** `split` yields one piece more than there are separators. */
  lemma {:induction false} SplitLength(s: string, c: char)
    ensures |Split(s, c)| == multiset(s)[c] + 1
    decreases |s|
  {
    if c in s {
      var i := FirstIndexOf(s, c);
      SplitLength(s[i + 1..], c);
      assert s == s[..i] + [c] + s[i + 1..];
      assert multiset(s) == multiset(s[..i]) + multiset([c]) + multiset(s[i + 1..]);
      assert multiset(s[..i])[c] == 0;
    } else {
      assert multiset(s)[c] == 0;
    }
  }

  /** Splitting `a + [c] + b`, where `a` holds no `c`, yields `a` followed by the pieces of `b`. */
  lemma SplitAtFirst(a: string, c: char, b: string)
    requires c !in a
    ensures Split(a + [c] + b, c) == [a] + Split(b, c)
  {
    var s := a + [c] + b;
    assert s[|a|] == c;
    var i := FirstIndexOf(s, c);
    assert s[..|a|] == a;
    assert s[|a| + 1..] == b;
  }

  /** Splitting separator-free pieces joined by the separator gives back the pieces. */
  lemma {:induction false} SplitJoin(xs: seq<string>, c: char)
    requires |xs| >= 1
    requires forall i :: 0 <= i < |xs| ==> c !in xs[i]
    ensures Split(Join(xs, [c]), c) == xs
    decreases |xs|
  {
    if |xs| > 1 {
      SplitJoin(xs[1..], c);
      SplitAtFirst(xs[0], c, Join(xs[1..], [c]));
      assert xs == [xs[0]] + xs[1..];
    }
  }

  /** ASCII `toLowerCase`: maps 'A'..'Z' to 'a'..'z' and keeps every other character. */
  function LowerChar(ch: char): char
  {
    if 'A' <= ch <= 'Z' then (ch as int + 32) as char else ch
  }

  /** `toLowerCase` on the ASCII letters: no capital is left, each capital becomes the
      small letter at the same place in the alphabet, and every other character stays. */
  function Lower(s: string): (r: string)
    ensures |r| == |s|
    ensures forall i :: 0 <= i < |r| ==> !('A' <= r[i] <= 'Z')
    ensures forall i :: 0 <= i < |s| && 'A' <= s[i] <= 'Z' ==>
      'a' <= r[i] <= 'z' && r[i] as int - 'a' as int == s[i] as int - 'A' as int
    ensures forall i :: 0 <= i < |s| && !('A' <= s[i] <= 'Z') ==> r[i] == s[i]
  {
    seq(|s|, i requires 0 <= i < |s| => LowerChar(s[i]))
  }

  lemma LowerAppend(a: string, b: string)
    ensures Lower(a + b) == Lower(a) + Lower(b)
  {
    assert forall i :: 0 <= i < |a + b| ==> Lower(a + b)[i] == (Lower(a) + Lower(b))[i];
  }

  /** Lower-casing is idempotent. */
  lemma LowerLower(s: string)
    ensures Lower(Lower(s)) == Lower(s)
  {
    assert forall i :: 0 <= i < |s| ==> Lower(Lower(s))[i] == Lower(s)[i];
  }

  predicate IsPrefix(t: string, s: string)
  {
    |t| <= |s| && s[..|t|] == t
  }

  /** `s.includes(t)`: `t` occurs in `s` at some position (the empty string occurs everywhere). */
  predicate Contains(s: string, t: string)
    decreases |s|
  {
    IsPrefix(t, s) || (|s| > 0 && Contains(s[1..], t))
  }

  /** An occurrence of `t` in `s` starting at position `i`. */
  ghost predicate OccursAt(s: string, t: string, i: int)
  {
    0 <= i && i + |t| <= |s| && s[i..i + |t|] == t
  }

  /** `Contains` agrees with the positional definition of an occurrence. */
  lemma {:induction false} ContainsIffOccurs(s: string, t: string)
    ensures Contains(s, t) <==> exists i :: OccursAt(s, t, i)
    decreases |s|
  {
    if IsPrefix(t, s) {
      assert OccursAt(s, t, 0);
    } else if |s| > 0 {
      ContainsIffOccurs(s[1..], t);
      if Contains(s[1..], t) {
        var i :| OccursAt(s[1..], t, i);
        assert s[1..][i..i + |t|] == s[i + 1..i + 1 + |t|];
        assert OccursAt(s, t, i + 1);
      }
      if i :| OccursAt(s, t, i) {
        assert i != 0;
        assert s[1..][i - 1..i - 1 + |t|] == s[i..i + |t|];
        assert OccursAt(s[1..], t, i - 1);
      }
    }
  }

  /** A string containing `t + u` contains `t`. */
  lemma {:induction false} ContainsPrefixOfNeedle(s: string, t: string, u: string)
    requires Contains(s, t + u)
    ensures Contains(s, t)
    decreases |s|
  {
    if IsPrefix(t + u, s) {
      assert s[..|t|] == (t + u)[..|t|] == t;
    } else {
      ContainsPrefixOfNeedle(s[1..], t, u);
    }
  }

  /** Every string contains the empty string. */
  lemma ContainsEmpty(s: string)
    ensures Contains(s, "")
  {
  }

  function DigitChar(d: nat): char
    requires d < 10
  {
    ('0' as int + d) as char
  }

  predicate IsDigit(ch: char)
  {
    '0' <= ch <= '9'
  }

  function DigitValue(ch: char): nat
    requires IsDigit(ch)
  {
    ch as int - '0' as int
  }

  /** The number written by a string of decimal digits, most significant first. */
  function DecimalValue(s: string): nat
    requires forall i :: 0 <= i < |s| ==> IsDigit(s[i])
    decreases |s|
  {
    if |s| == 0 then 0 else DecimalValue(s[..|s| - 1]) * 10 + DigitValue(s[|s| - 1])
  }

  /** `String(n)` for a natural number: its decimal digits without leading zeros. */
  function NatToString(n: nat): (r: string)
    ensures |r| >= 1
    ensures forall i :: 0 <= i < |r| ==> IsDigit(r[i])
    ensures r[0] == '0' ==> n == 0
    decreases n
  {
    if n < 10 then [DigitChar(n)] else NatToString(n / 10) + [DigitChar(n % 10)]
  }

  /** Reading back the digits of `NatToString(n)` gives `n`. */
  lemma {:induction false} NatToStringValue(n: nat)
    ensures DecimalValue(NatToString(n)) == n
    decreases n
  {
    if n >= 10 {
      NatToStringValue(n / 10);
      var s := NatToString(n);
      assert s[..|s| - 1] == NatToString(n / 10);
    }
  }

  /** Distinct numbers render as distinct strings. */
  lemma NatToStringInjective(m: nat, n: nat)
    requires NatToString(m) == NatToString(n)
    ensures m == n
  {
    NatToStringValue(m);
    NatToStringValue(n);
  }
}
