/**
 * The pieces of Python's str and re semantics the checker relies on:
 * str.isspace (which is also the regex class \s), the regex class \w,
 * str.lower / str.upper, str.strip and str.replace with a one-character pattern.
 * Case mapping and \w are ASCII-only here.
 */
module Text {

  /** str.isspace() for one character; the same set is matched by \s in a str pattern. */
  predicate IsSpace(c: char) {
    || ('\t' <= c <= '\r')
    || ('\U{1C}' <= c <= ' ')
    || c == '\U{85}' || c == '\U{A0}' || c == '\U{1680}'
    || ('\U{2000}' <= c <= '\U{200A}')
    || c == '\U{2028}' || c == '\U{2029}' || c == '\U{202F}' || c == '\U{205F}' || c == '\U{3000}'
  }

  predicate IsUpperAscii(c: char) { 'A' <= c <= 'Z' }

  predicate IsLowerAscii(c: char) { 'a' <= c <= 'z' }

  predicate IsDigit(c: char) { '0' <= c <= '9' }

  predicate IsAlnumAscii(c: char) { IsUpperAscii(c) || IsLowerAscii(c) || IsDigit(c) }

  /** The regex class \w, ASCII only. */
  predicate IsWordChar(c: char) { IsAlnumAscii(c) || c == '_' }

  function LowerChar(c: char): char {
    if IsUpperAscii(c) then (c as int + 32) as char else c
  }

  function UpperChar(c: char): char {
    if IsLowerAscii(c) then (c as int - 32) as char else c
  }

  /** str.lower() on ASCII: each character on its own; LowerFolds states what it does. */
  function Lower(s: string): string {
    seq(|s|, i requires 0 <= i < |s| => LowerChar(s[i]))
  }

  /** str.upper() on ASCII: each character on its own; UpperFolds states what it does. */
  function Upper(s: string): string {
    seq(|s|, i requires 0 <= i < |s| => UpperChar(s[i]))
  }

  /**
   * lower() keeps the length, leaves no upper-case letter, keeps every other
   * character, and keeps each letter the same letter up to case.
   */
  lemma LowerFolds(s: string)
    ensures |Lower(s)| == |s|
    ensures forall i :: 0 <= i < |s| ==>
      && !IsUpperAscii(Lower(s)[i])
      && (!IsUpperAscii(s[i]) ==> Lower(s)[i] == s[i])
      && UpperChar(Lower(s)[i]) == UpperChar(s[i])
  {
  }

  /**
   * upper() keeps the length, leaves no lower-case letter, and every character
   * folds to what the original folds to, which is what re.I compares.
   */
  lemma UpperFolds(s: string)
    ensures |Upper(s)| == |s|
    ensures forall i :: 0 <= i < |s| ==> !IsLowerAscii(Upper(s)[i]) && LowerChar(Upper(s)[i]) == LowerChar(s[i])
  {
  }

  /** Lower-casing is idempotent. */
  lemma LowerIdempotent(s: string)
    ensures Lower(Lower(s)) == Lower(s)
  {
  }

  /** Upper-casing loses nothing re.I looks at: lower(upper(s)) == lower(s). */
  lemma LowerOfUpper(s: string)
    ensures Lower(Upper(s)) == Lower(s)
  {
  }

  predicate AllSpace(s: string) {
    forall i :: 0 <= i < |s| ==> IsSpace(s[i])
  }

  /** str.lstrip(): what is removed is all whitespace, and what is left does not start with any. */
  function TrimLeft(s: string): (r: string)
    ensures |r| <= |s| && r == s[|s| - |r|..]
    ensures AllSpace(s[..|s| - |r|])
    ensures r != [] ==> !IsSpace(r[0])
    decreases |s|
  {
    if s != [] && IsSpace(s[0]) then
      var r := TrimLeft(s[1..]);
      assert s[1..][|s| - 1 - |r|..] == s[|s| - |r|..];
      assert forall i :: 1 <= i < |s| - |r| ==> s[i] == s[1..][..|s| - 1 - |r|][i - 1];
      r
    else
      s
  }

  /** str.rstrip(): what is removed is all whitespace, and what is left does not end with any. */
  function TrimRight(s: string): (r: string)
    ensures |r| <= |s| && r == s[..|r|]
    ensures AllSpace(s[|r|..])
    ensures r != [] ==> !IsSpace(r[|r| - 1])
    decreases |s|
  {
    if s != [] && IsSpace(s[|s| - 1]) then
      var r := TrimRight(s[..|s| - 1]);
      assert s[..|s| - 1][..|r|] == s[..|r|];
      assert forall i :: |r| <= i < |s| - 1 ==> s[i] == s[..|s| - 1][|r|..][i - |r|];
      r
    else
      s
  }

  /** Where Strip's result starts in s: the length of the leading whitespace. */
  function StripStart(s: string): nat {
    |s| - |TrimLeft(s)|
  }

  /**
   * str.strip(): the result is the slice of s from StripStart(s), everything
   * cut away on either side is whitespace, and the result neither starts nor
   * ends with whitespace.
   */
  function Strip(s: string): (r: string)
    ensures StripStart(s) + |r| <= |s| && r == s[StripStart(s)..StripStart(s) + |r|]
    ensures AllSpace(s[..StripStart(s)]) && AllSpace(s[StripStart(s) + |r|..])
    ensures r != [] ==> !IsSpace(r[0]) && !IsSpace(r[|r| - 1])
  {
    var left := TrimLeft(s);
    var r := TrimRight(left);
    TrimBoth(s, StripStart(s), left, r);
    r
  }

  /** What TrimLeft and then TrimRight leave is a slice of s with whitespace cut on both sides. */
  lemma TrimBoth(s: string, i: nat, left: string, r: string)
    requires i + |left| == |s| && left == s[i..] && AllSpace(s[..i])
    requires left != [] ==> !IsSpace(left[0])
    requires |r| <= |left| && r == left[..|r|] && AllSpace(left[|r|..])
    requires r != [] ==> !IsSpace(r[|r| - 1])
    ensures i + |r| <= |s| && r == s[i..i + |r|]
    ensures AllSpace(s[..i]) && AllSpace(s[i + |r|..])
    ensures r != [] ==> !IsSpace(r[0]) && !IsSpace(r[|r| - 1])
  {
    assert s[i + |r|..] == left[|r|..];
    assert r != [] ==> r[0] == left[0];
  }

  /** A string that starts and ends with non-whitespace is left alone by Strip. */
  lemma StripFixed(s: string)
    requires s != [] ==> !IsSpace(s[0]) && !IsSpace(s[|s| - 1])
    ensures Strip(s) == s
  {
  }

  /** Stripping twice is stripping once. */
  lemma StripIdempotent(s: string)
    ensures Strip(Strip(s)) == Strip(s)
  {
    StripFixed(Strip(s));
  }

  /** A character absent from s is absent from Strip(s). */
  lemma StripOmits(s: string, c: char)
    requires c !in s
    ensures c !in Strip(s)
  {
    var l := TrimLeft(s);
    forall i | 0 <= i < |l|
      ensures l[i] != c
    {
      assert l[i] == s[|s| - |l| + i];
    }
    var r := TrimRight(l);
    forall i | 0 <= i < |r|
      ensures r[i] != c
    {
      assert r[i] == l[i];
    }
  }

  /** str.replace(from, to) for a one-character from: every occurrence, left to right. */
  function ReplaceChar(s: string, from: char, to: string): (r: string)
    ensures from !in s ==> r == s
    ensures from !in to ==> from !in r
    decreases |s|
  {
    if s == [] then []
    else (if s[0] == from then to else [s[0]]) + ReplaceChar(s[1..], from, to)
  }

  /**
   * Up to the first occurrence of from, ReplaceChar copies s; at that
   * occurrence it writes the first character of to.
   */
  lemma {:induction false} ReplaceCharPrefix(s: string, from: char, to: string, k: nat)
    requires to != [] && k <= |s|
    requires forall i :: 0 <= i < k ==> s[i] != from
    ensures k <= |ReplaceChar(s, from, to)|
    ensures ReplaceChar(s, from, to)[..k] == s[..k]
    ensures k < |s| ==> k < |ReplaceChar(s, from, to)| && ReplaceChar(s, from, to)[k] == (if s[k] == from then to[0] else s[k])
    decreases k
  {
    var r := ReplaceChar(s, from, to);
    if k > 0 {
      var rest := ReplaceChar(s[1..], from, to);
      ReplaceCharPrefix(s[1..], from, to, k - 1);
      assert r == [s[0]] + rest;
    } else if |s| > 0 {
      if s[0] == from {
        assert r == to + ReplaceChar(s[1..], from, to);
      } else {
        assert r == [s[0]] + ReplaceChar(s[1..], from, to);
      }
    }
  }

  /** Replacing in a concatenation replaces in each part. */
  lemma {:induction false} ReplaceCharAppend(a: string, b: string, from: char, to: string)
    ensures ReplaceChar(a + b, from, to) == ReplaceChar(a, from, to) + ReplaceChar(b, from, to)
    decreases |a|
  {
    if a != [] {
      assert (a + b)[1..] == a[1..] + b;
      ReplaceCharAppend(a[1..], b, from, to);
    } else {
      assert a + b == b;
    }
  }

  /** Position of the first c in s, or |s| when there is none. */
  function IndexOf(s: string, c: char): (k: nat)
    ensures k <= |s|
    ensures forall i :: 0 <= i < k ==> s[i] != c
    ensures k < |s| ==> s[k] == c
    decreases |s|
  {
    if s == [] then 0 else if s[0] == c then 0 else 1 + IndexOf(s[1..], c)
  }
}
