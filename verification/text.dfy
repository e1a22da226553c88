/**
 * The Python string built-ins the grade monitor relies on: str.strip(),
 * the `in` substring test, str.split() with no argument, str.isdigit(),
 * int() on a stripped string and str() on a non-negative int.
 * Digits are ASCII only; whitespace is the set for which str.isspace() holds.
 */
module Text {
  import opened Wrappers

  /** The characters for which Python's str.isspace() holds. */
  predicate IsSpace(c: char) {
    ('\t' <= c <= '\r') || ('\U{1C}' <= c <= ' ') || c == '\U{85}' || c == '\U{A0}'
    || c == '\U{1680}' || ('\U{2000}' <= c <= '\U{200A}') || c == '\U{2028}' || c == '\U{2029}'
    || c == '\U{202F}' || c == '\U{205F}' || c == '\U{3000}'
  }

  predicate AllSpace(s: string) {
    forall k :: 0 <= k < |s| ==> IsSpace(s[k])
  }

  predicate NoSpace(s: string) {
    forall k :: 0 <= k < |s| ==> !IsSpace(s[k])
  }

  /** s is empty or starts and ends with a non-whitespace character. */
  predicate Trimmed(s: string) {
    s == [] || (!IsSpace(s[0]) && !IsSpace(s[|s| - 1]))
  }

  /** str.lstrip(): drops the leading whitespace. */
  function TrimStart(s: string): (r: string)
    ensures |r| <= |s| && r == s[|s| - |r|..]
    ensures AllSpace(s[..|s| - |r|])
    ensures r == [] || !IsSpace(r[0])
    decreases |s|
  {
    if s != [] && IsSpace(s[0]) then
      var r := TrimStart(s[1..]);
      assert s[..|s| - |r|] == [s[0]] + s[1..][..|s| - 1 - |r|];
      r
    else s
  }

  /** str.rstrip(): drops the trailing whitespace. */
  function TrimEnd(s: string): (r: string)
    ensures |r| <= |s| && r == s[..|r|]
    ensures AllSpace(s[|r|..])
    ensures r == [] || !IsSpace(r[|r| - 1])
    decreases |s|
  {
    if s != [] && IsSpace(s[|s| - 1]) then
      var r := TrimEnd(s[..|s| - 1]);
      assert s[|r|..] == s[..|s| - 1][|r|..] + [s[|s| - 1]];
      r
    else s
  }

  /** str.strip(): leading and trailing whitespace removed. */
  function Strip(s: string): (r: string)
    ensures Trimmed(r)
  {
    TrimEnd(TrimStart(s))
  }

  /** r sits at position i of s with only whitespace before and after it. */
  predicate PaddedAt(s: string, r: string, i: int) {
    && 0 <= i <= |s| - |r|
    && s[i..i + |r|] == r
    && AllSpace(s[..i]) && AllSpace(s[i + |r|..])
  }

  lemma SliceOfSuffix(s: string, i: nat, n: nat)
    requires i + n <= |s|
    ensures s[i..][..n] == s[i..i + n] && s[i..][n..] == s[i + n..]
  {
  }

  /** Strip cuts only whitespace, and only from the ends: its result is a slice of s. */
  lemma StripCutsOnlyWhitespace(s: string)
    ensures exists i :: PaddedAt(s, Strip(s), i)
  {
    var u := TrimStart(s);
    var r := TrimEnd(u);
    var i := |s| - |u|;
    assert r == Strip(s) && u == s[i..] && r == u[..|r|];
    SliceOfSuffix(s, i, |r|);
    assert AllSpace(s[..i]) && s[i..i + |r|] == r;
    assert AllSpace(s[i + |r|..]);
    assert PaddedAt(s, r, i);
  }

  lemma {:induction false} TrimStartOfPadded(a: string, u: string)
    requires AllSpace(a) && (u == [] || !IsSpace(u[0]))
    ensures TrimStart(a + u) == u
    decreases |a|
  {
    if a != [] {
      assert (a + u)[1..] == a[1..] + u;
      TrimStartOfPadded(a[1..], u);
    } else {
      assert a + u == u;
    }
  }

  lemma {:induction false} TrimEndOfPadded(u: string, b: string)
    requires AllSpace(b) && (u == [] || !IsSpace(u[|u| - 1]))
    ensures TrimEnd(u + b) == u
    decreases |b|
  {
    if b != [] {
      assert (u + b)[..|u + b| - 1] == u + b[..|b| - 1];
      TrimEndOfPadded(u, b[..|b| - 1]);
    } else {
      assert u + b == u;
    }
  }

  /** Stripping is exact: whitespace around a trimmed word is removed and nothing else. */
  lemma StripOfPadded(a: string, w: string, b: string)
    requires AllSpace(a) && AllSpace(b) && Trimmed(w)
    ensures Strip(a + w + b) == w
  {
    if w == [] {
      assert a + w + b == (a + b) + [];
      assert AllSpace(a + b);
      TrimStartOfPadded(a + b, []);
    } else {
      assert a + w + b == a + (w + b);
      TrimStartOfPadded(a, w + b);
      TrimEndOfPadded(w, b);
    }
  }

  /** Python's `p in s` on strings, by scanning s for a position where p starts. */
  predicate Contains(s: string, p: string)
    decreases |s|
  {
    p <= s || (s != [] && Contains(s[1..], p))
  }

  /** p occurs in s starting at position i. */
  predicate OccursAt(s: string, p: string, i: int) {
    0 <= i <= |s| - |p| && s[i..i + |p|] == p
  }

  /** Contains agrees with the positional definition of a substring occurrence. */
  lemma {:induction false} ContainsIff(s: string, p: string)
    ensures Contains(s, p) <==> exists i :: OccursAt(s, p, i)
    decreases |s|
  {
    if p <= s {
      assert OccursAt(s, p, 0);
    } else if s == [] {
    } else {
      ContainsIff(s[1..], p);
      if Contains(s[1..], p) {
        var i :| OccursAt(s[1..], p, i);
        assert s[i + 1..i + 1 + |p|] == s[1..][i..i + |p|];
        assert OccursAt(s, p, i + 1);
      }
      if exists i :: OccursAt(s, p, i) {
        var i :| OccursAt(s, p, i);
        assert i != 0;
        assert s[1..][i - 1..i - 1 + |p|] == s[i..i + |p|];
        assert OccursAt(s[1..], p, i - 1);
      }
    }
  }

  /** Length of the run of non-whitespace characters at the start of s. */
  function WordLen(s: string): (n: nat)
    ensures n <= |s| && NoSpace(s[..n]) && (n == |s| || IsSpace(s[n]))
    decreases |s|
  {
    if s == [] || IsSpace(s[0]) then 0
    else
      var n := 1 + WordLen(s[1..]);
      assert s[..n] == [s[0]] + s[1..][..n - 1];
      n
  }

  /** str.split() with no argument: the maximal runs of non-whitespace characters, in order. */
  function Split(s: string): (r: seq<string>)
    ensures forall k :: 0 <= k < |r| ==> r[k] != [] && NoSpace(r[k])
    decreases |s|
  {
    if s == [] then []
    else if IsSpace(s[0]) then Split(s[1..])
    else
      var n := WordLen(s);
      [s[..n]] + Split(s[n..])
  }

  /** " ".join(words): the inverse of Split on words that are non-empty and whitespace-free. */
  function JoinWithSpaces(words: seq<string>): (r: string) {
    if words == [] then []
    else if |words| == 1 then words[0]
    else words[0] + " " + JoinWithSpaces(words[1..])
  }

  lemma {:induction false} WordLenOfWord(w: string, rest: string)
    requires NoSpace(w) && (rest == [] || IsSpace(rest[0]))
    ensures WordLen(w + rest) == |w|
    decreases |w|
  {
    if w != [] {
      assert (w + rest)[1..] == w[1..] + rest;
      WordLenOfWord(w[1..], rest);
    } else {
      assert w + rest == rest;
    }
  }

  /** Splitting skips a leading whitespace character of any kind. */
  lemma SplitSkipsSpace(c: char, rest: string)
    requires IsSpace(c)
    ensures Split([c] + rest) == Split(rest)
  {
    assert ([c] + rest)[1..] == rest;
  }

  /** A string made only of whitespace splits into no tokens. */
  lemma {:induction false} SplitOfSpace(s: string)
    requires AllSpace(s)
    ensures Split(s) == []
    decreases |s|
  {
    if s != [] {
      SplitOfSpace(s[1..]);
    }
  }

  /** Splitting skips a leading run of whitespace, however long and of whatever kind. */
  lemma {:induction false} SplitSkipsPadding(a: string, rest: string)
    requires AllSpace(a)
    ensures Split(a + rest) == Split(rest)
    decreases |a|
  {
    if a != [] {
      assert a + rest == [a[0]] + (a[1..] + rest);
      SplitSkipsSpace(a[0], a[1..] + rest);
      SplitSkipsPadding(a[1..], rest);
    } else {
      assert a + rest == rest;
    }
  }

  /** Splitting a word followed by a space or by nothing takes the word off first. */
  lemma SplitTakesWord(w: string, rest: string)
    requires w != [] && NoSpace(w) && (rest == [] || IsSpace(rest[0]))
    ensures Split(w + rest) == [w] + Split(rest)
  {
    WordLenOfWord(w, rest);
    assert (w + rest)[0] == w[0];
    assert (w + rest)[..|w|] == w;
    assert (w + rest)[|w|..] == rest;
  }

  /** The first token of a split is the first maximal run of non-whitespace characters,
      whatever whitespace precedes it and whatever whitespace ends it. */
  lemma SplitPadded(a: string, w: string, b: string)
    requires AllSpace(a) && w != [] && NoSpace(w) && (b == [] || IsSpace(b[0]))
    ensures Split(a + w + b) == [w] + Split(b)
  {
    assert a + w + b == a + (w + b);
    SplitSkipsPadding(a, w + b);
    SplitTakesWord(w, b);
  }

  /** Splitting a space-joined list of words gives the words back. */
  lemma {:induction false} SplitJoin(words: seq<string>)
    requires forall k :: 0 <= k < |words| ==> words[k] != [] && NoSpace(words[k])
    ensures Split(JoinWithSpaces(words)) == words
    decreases |words|
  {
    if |words| == 1 {
      SplitTakesWord(words[0], []);
      assert words[0] + [] == words[0];
    } else if |words| > 1 {
      var rest := JoinWithSpaces(words[1..]);
      assert JoinWithSpaces(words) == words[0] + (" " + rest);
      SplitTakesWord(words[0], " " + rest);
      SplitSkipsSpace(' ', rest);
      SplitJoin(words[1..]);
      assert words == [words[0]] + words[1..];
    }
  }

  predicate IsDigit(c: char) {
    '0' <= c <= '9'
  }

  predicate AllDigits(s: string) {
    forall k :: 0 <= k < |s| ==> IsDigit(s[k])
  }

  /** str.isdigit(): non-empty and every character a digit. */
  predicate IsDigitString(s: string) {
    s != [] && AllDigits(s)
  }

  /** The value of a string of decimal digits, most significant digit first. */
  function DigitsValue(s: string): (v: nat)
    requires AllDigits(s)
    decreases |s|
  {
    if s == [] then 0
    else DigitsValue(s[..|s| - 1]) * 10 + (s[|s| - 1] as int - '0' as int)
  }

  function DigitChar(d: nat): (c: char)
    requires d < 10
    ensures IsDigit(c) && c as int - '0' as int == d
  {
    ('0' as int + d) as char
  }

  /** str(n) for a non-negative int: decimal digits without leading zeros. */
  function NatToString(n: nat): (r: string)
    ensures IsDigitString(r)
    ensures r[0] == '0' ==> n == 0
    decreases n
  {
    if n < 10 then [DigitChar(n)] else NatToString(n / 10) + [DigitChar(n % 10)]
  }

  lemma {:induction false} NatToStringValue(n: nat)
    ensures DigitsValue(NatToString(n)) == n
    decreases n
  {
    var s := NatToString(n);
    if n < 10 {
      assert s[..|s| - 1] == [];
    } else {
      NatToStringValue(n / 10);
      assert s[..|s| - 1] == NatToString(n / 10);
    }
  }

  /** The syntax int() accepts once whitespace is stripped: an optional sign, then digits. */
  predicate IsIntLiteral(s: string) {
    IsDigitString(s) || (|s| > 1 && (s[0] == '+' || s[0] == '-') && IsDigitString(s[1..]))
  }

  /** int(s) on a stripped string; None where Python raises ValueError. */
  function ParseInt(s: string): (r: Option<int>)
    ensures r.Some? <==> IsIntLiteral(s)
    ensures r.Some? && r.value < 0 ==> s[0] == '-'
  {
    if IsDigitString(s) then Some(DigitsValue(s))
    else if |s| > 1 && (s[0] == '+' || s[0] == '-') && IsDigitString(s[1..]) then
      if s[0] == '-' then Some(-(DigitsValue(s[1..]) as int)) else Some(DigitsValue(s[1..]))
    else None
  }

  /** int(str(n)) == n, and a leading sign is honoured. */
  lemma ParseIntOfNatToString(n: nat)
    ensures ParseInt(NatToString(n)) == Some(n)
    ensures ParseInt("+" + NatToString(n)) == Some(n)
    ensures ParseInt("-" + NatToString(n)) == Some(-(n as int))
  {
    var s := NatToString(n);
    NatToStringValue(n);
    assert ("+" + s)[0] == '+' && ("+" + s)[1..] == s;
    assert ("-" + s)[0] == '-' && ("-" + s)[1..] == s;
  }

  predicate AllZeros(z: string) {
    forall k :: 0 <= k < |z| ==> z[k] == '0'
  }

  lemma {:induction false} ZerosValue(z: string)
    requires AllZeros(z)
    ensures AllDigits(z) && DigitsValue(z) == 0
    decreases |z|
  {
    if z != [] {
      ZerosValue(z[..|z| - 1]);
    }
  }

  /** Leading zeros do not change the value of a digit string. */
  lemma {:induction false} LeadingZerosValue(z: string, s: string)
    requires AllZeros(z) && AllDigits(s)
    ensures AllDigits(z + s) && DigitsValue(z + s) == DigitsValue(s)
    decreases |s|
  {
    if s == [] {
      assert z + s == z;
      ZerosValue(z);
    } else {
      var t := z + s;
      assert t[..|t| - 1] == z + s[..|s| - 1];
      assert t[|t| - 1] == s[|s| - 1];
      LeadingZerosValue(z, s[..|s| - 1]);
    }
  }

  /** int() reads any literal that is a sign, then zeros, then str(n), as n or -n. */
  lemma ParseIntOfZeroPadded(z: string, n: nat)
    requires AllZeros(z)
    ensures ParseInt(z + NatToString(n)) == Some(n)
    ensures ParseInt("+" + (z + NatToString(n))) == Some(n)
    ensures ParseInt("-" + (z + NatToString(n))) == Some(-(n as int))
  {
    var s := z + NatToString(n);
    NatToStringValue(n);
    LeadingZerosValue(z, NatToString(n));
    assert IsDigitString(s);
    assert ("+" + s)[0] == '+' && ("+" + s)[1..] == s;
    assert ("-" + s)[0] == '-' && ("-" + s)[1..] == s;
  }
}
