/** String helpers shared by the model: PHP's explode/implode on one separator
    character, first/last occurrence of a character, and decimal digit strings
    (PHP's int-to-string conversion and the numeric reading of a digit string). */
module Strings {

  /** Index of the first occurrence of c in s. */
  function IndexOf(s: string, c: char): (i: nat)
    requires c in s
    ensures i < |s| && s[i] == c && c !in s[..i]
  {
    if s[0] == c then 0 else 1 + IndexOf(s[1..], c)
  }

  /** Index of the last occurrence of c in s, or -1 when c does not occur. */
  function LastIndexOf(s: string, c: char): (i: int)
    ensures -1 <= i < |s|
    ensures i == -1 <==> c !in s
    ensures 0 <= i ==> s[i] == c && c !in s[i + 1..]
  {
    if |s| == 0 then -1
    else if s[|s| - 1] == c then |s| - 1
    else
      var j := LastIndexOf(s[..|s| - 1], c);
      assert s[..|s| - 1] + [s[|s| - 1]] == s;
      if j == -1 then -1
      else
        assert s[j + 1..] == s[..|s| - 1][j + 1..] + [s[|s| - 1]];
        j
  }

  /** The last occurrence of c in s + [c] + t is the one between them when t holds no c. */
  lemma {:induction false} LastIndexOfJoin(s: string, c: char, t: string)
    requires c !in t
    ensures LastIndexOf(s + [c] + t, c) == |s|
  {
    var u := s + [c] + t;
    if t != [] {
      var t' := t[..|t| - 1];
      assert t[|t| - 1] in t;
      assert u[..|u| - 1] == s + [c] + t';
      assert c !in t' by { assert forall k :: 0 <= k < |t'| ==> t'[k] == t[k]; }
      LastIndexOfJoin(s, c, t');
    }
  }

  /** A string splits around the last occurrence of c, with no c after it. */
  lemma SplitAtLast(s: string, c: char)
    requires c in s
    ensures var i := LastIndexOf(s, c);
      0 <= i && s == s[..i] + [c] + s[i + 1..] && c !in s[i + 1..]
  {
    var i := LastIndexOf(s, c);
    assert s == s[..i] + s[i..];
  }

  /** The pieces of a + [c] + b, recovered by slicing. */
  lemma JoinSlices(a: string, c: char, b: string)
    ensures var u := a + [c] + b;
      |u| == |a| + 1 + |b| && u[..|a|] == a && u[|a|] == c && u[|a| + 1..] == b
  {
  }

  /** A character absent from a string is absent from each of its slices. */
  lemma NotInSlice(s: string, c: char, a: nat, b: nat)
    requires c !in s && a <= b <= |s|
    ensures c !in s[a..b]
  {
    assert forall k :: 0 <= k < b - a ==> s[a..b][k] == s[a + k];
  }

  /** The first occurrence of c in k + [c] + v is the one between them when k holds no c. */
  lemma IndexOfJoin(k: string, c: char, v: string)
    requires c !in k
    ensures IndexOf(k + [c] + v, c) == |k|
  {
    var u := k + [c] + v;
    var i := IndexOf(u, c);
    assert u[|k|] == c;
    assert u[..|k|] == k;
  }

  /** PHP explode(sep, s): the pieces of s between the occurrences of sep. */
  function Explode(sep: char, s: string): (parts: seq<string>)
    ensures |parts| >= 1
    ensures |parts| == 1 <==> sep !in s
    ensures forall i :: 0 <= i < |parts| ==> sep !in parts[i] && |parts[i]| <= |s|
    ensures sep in s ==> parts[0] == s[..IndexOf(s, sep)]
    decreases |s|
  {
    if sep !in s then [s]
    else
      var i := IndexOf(s, sep);
      [s[..i]] + Explode(sep, s[i + 1..])
  }

  /** PHP implode(sep, parts): the pieces joined with sep between consecutive ones. */
  function Implode(sep: char, parts: seq<string>): string
  {
    if |parts| == 0 then ""
    else if |parts| == 1 then parts[0]
    else parts[0] + [sep] + Implode(sep, parts[1..])
  }

  /** Joining the pieces of explode gives the original string back. */
  lemma {:induction false} ImplodeExplode(sep: char, s: string)
    ensures Implode(sep, Explode(sep, s)) == s
    decreases |s|
  {
    if sep in s {
      var i := IndexOf(s, sep);
      var rest := Explode(sep, s[i + 1..]);
      ImplodeExplode(sep, s[i + 1..]);
      assert ([s[..i]] + rest)[1..] == rest;
      assert s == s[..i] + [sep] + s[i + 1..];
    }
  }

  /** Exploding k + sep + v, where k holds no separator, gives k followed by the pieces of v. */
  lemma ExplodeJoin(sep: char, k: string, v: string)
    requires sep !in k
    ensures Explode(sep, k + [sep] + v) == [k] + Explode(sep, v)
  {
    var u := k + [sep] + v;
    IndexOfJoin(k, sep, v);
    assert u[..|k|] == k;
    assert u[|k| + 1..] == v;
  }

  /** The pieces after the first separator, joined again, are everything after that separator. */
  lemma ImplodeTail(sep: char, k: string, v: string)
    requires sep !in k
    ensures Explode(sep, k + [sep] + v)[0] == k
    ensures |Explode(sep, k + [sep] + v)| >= 2
    ensures Implode(sep, Explode(sep, k + [sep] + v)[1..]) == v
  {
    ExplodeJoin(sep, k, v);
    assert ([k] + Explode(sep, v))[1..] == Explode(sep, v);
    ImplodeExplode(sep, v);
  }

  predicate IsDigit(c: char) { '0' <= c <= '9' }

  /** A non-empty string of decimal digits. */
  predicate IsDigits(s: string)
  {
    |s| > 0 && forall i :: 0 <= i < |s| ==> IsDigit(s[i])
  }

  function DigitChar(d: nat): (c: char)
    requires d < 10
    ensures IsDigit(c)
  {
    ['0','1','2','3','4','5','6','7','8','9'][d]
  }

  function DigitValue(c: char): (d: nat)
    requires IsDigit(c)
    ensures d < 10
  {
    (c as int - '0' as int) as nat
  }

  function Pow10(k: nat): (p: nat)
    ensures p >= 1
  {
    if k == 0 then 1 else 10 * Pow10(k - 1)
  }

  lemma {:induction false} Pow10Monotone(j: nat, k: nat)
    requires j <= k
    ensures Pow10(j) <= Pow10(k)
    decreases k
  {
    if j < k { Pow10Monotone(j, k - 1); }
  }

  /** PHP's rendering of a non-negative integer as a string: decimal, no leading zeros. */
  function ToDec(n: nat): (s: string)
    ensures IsDigits(s)
  {
    if n < 10 then [DigitChar(n)] else ToDec(n / 10) + [DigitChar(n % 10)]
  }

  /** The rendering has no leading zero: it starts with '0' only for 0 itself. */
  lemma {:induction false} ToDecNoLeadingZero(n: nat)
    ensures ToDec(n)[0] == '0' <==> n == 0
  {
    if n >= 10 {
      ToDecNoLeadingZero(n / 10);
      assert ToDec(n)[0] == ToDec(n / 10)[0];
    }
  }

  /** The integer a string of decimal digits stands for (leading zeros allowed). */
  function ParseDigits(s: string): nat
    requires forall i :: 0 <= i < |s| ==> IsDigit(s[i])
  {
    if |s| == 0 then 0 else 10 * ParseDigits(s[..|s| - 1]) + DigitValue(s[|s| - 1])
  }

  lemma DigitRoundTrip(d: nat)
    requires d < 10
    ensures DigitValue(DigitChar(d)) == d
  {
  }

  /** Reading back the decimal rendering of n gives n. */
  lemma {:induction false} ParseToDec(n: nat)
    ensures ParseDigits(ToDec(n)) == n
  {
    var s := ToDec(n);
    DigitRoundTrip(n % 10);
    if n >= 10 {
      ParseToDec(n / 10);
      assert s[..|s| - 1] == ToDec(n / 10);
    }
  }

  /** A string of k digits stands for a number below 10^k. */
  lemma {:induction false} ParseBelowPow10(s: string)
    requires forall i :: 0 <= i < |s| ==> IsDigit(s[i])
    ensures ParseDigits(s) < Pow10(|s|)
  {
    if |s| > 0 {
      var init := s[..|s| - 1];
      ParseBelowPow10(init);
      assert ParseDigits(init) + 1 <= Pow10(|init|);
      assert 10 * ParseDigits(init) + 10 <= 10 * Pow10(|init|);
    }
  }

  /** The first piece of explode('_', digits + tail) is digits when tail is
      empty or starts a new piece. */
  lemma ExplodeFirstPiece(digits: string, tail: string)
    requires '_' !in digits
    requires tail == "" || tail[0] == '_'
    ensures Explode('_', digits + tail)[0] == digits
  {
    if tail == "" {
      assert digits + tail == digits;
    } else {
      assert digits + tail == digits + "_" + tail[1..];
      ExplodeJoin('_', digits, tail[1..]);
    }
  }

  /** explode('_', stem_digits...) has stem as its first piece and digits as its
      second, whatever follows a second '_'. */
  lemma ExplodeCounter(stem: string, digits: string, tail: string)
    requires '_' !in stem && IsDigits(digits)
    requires tail == "" || tail[0] == '_'
    ensures var parts := Explode('_', stem + "_" + (digits + tail));
      |parts| >= 2 && parts[0] == stem && parts[1] == digits
  {
    NoSeparatorInDigits(digits, '_');
    ExplodeJoin('_', stem, digits + tail);
    ExplodeFirstPiece(digits, tail);
  }

  lemma NoSeparatorInDigits(s: string, c: char)
    requires IsDigits(s) && !IsDigit(c)
    ensures c !in s
  {
  }
}
