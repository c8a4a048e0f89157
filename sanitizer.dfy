/**
 * sanitize_keyword (api/check.py:55-60): lower-case and strip the keyword,
 * delete every character outside [a-z0-9-], and refuse an empty result or
 * one that starts or ends with a hyphen.
 */
module Sanitizer {
  import opened Wrappers
  import opened Text

  /** The characters the substitution [^a-z0-9-]+ -> "" keeps. */
  predicate IsLabelChar(c: char) {
    IsLowerAscii(c) || IsDigit(c) || c == '-'
  }

  /** A valid domain label: non-empty, only [a-z0-9-], no hyphen at either end. */
  predicate IsLabel(s: string) {
    && s != []
    && (forall i :: 0 <= i < |s| ==> IsLabelChar(s[i]))
    && s[0] != '-'
    && s[|s| - 1] != '-'
  }

  /** a can be obtained from b by deleting characters. */
  predicate IsSubsequence(a: string, b: string)
    decreases |b|
  {
    if a == [] then true
    else if b == [] then false
    else if a[0] == b[0] then IsSubsequence(a[1..], b[1..])
    else IsSubsequence(a, b[1..])
  }

  /** re.sub(r"[^a-z0-9-]+", "", s): the result is made of label characters only. */
  function Filter(s: string): (r: string)
    ensures forall i :: 0 <= i < |r| ==> IsLabelChar(r[i])
    decreases |s|
  {
    if s == [] then []
    else (if IsLabelChar(s[0]) then [s[0]] else []) + Filter(s[1..])
  }

  /**
   * Filter keeps the label characters in order and keeps every one of them;
   * with its own ensures this determines the result completely.
   */
  lemma {:induction false} FilterIsSubsequence(s: string)
    ensures IsSubsequence(Filter(s), s)
    ensures forall c :: IsLabelChar(c) ==> multiset(Filter(s))[c] == multiset(s)[c]
    decreases |s|
  {
    if s != [] {
      var rest := Filter(s[1..]);
      FilterIsSubsequence(s[1..]);
      assert s == [s[0]] + s[1..];
      if IsLabelChar(s[0]) {
        assert Filter(s) == [s[0]] + rest;
        assert Filter(s)[1..] == rest;
      } else {
        assert Filter(s) == rest;
        assert rest != [] ==> rest[0] != s[0];
      }
    }
  }

  /** Filtering distributes over concatenation. */
  lemma {:induction false} FilterAppend(a: string, b: string)
    ensures Filter(a + b) == Filter(a) + Filter(b)
    decreases |a|
  {
    if a != [] {
      assert (a + b)[1..] == a[1..] + b;
      FilterAppend(a[1..], b);
      assert Filter(a + b) == (if IsLabelChar(a[0]) then [a[0]] else []) + Filter(a[1..] + b);
    } else {
      assert a + b == b;
    }
  }

  /** Filtering a string without label characters leaves nothing. */
  lemma {:induction false} FilterNone(s: string)
    requires forall i :: 0 <= i < |s| ==> !IsLabelChar(s[i])
    ensures Filter(s) == []
    decreases |s|
  {
    if s != [] {
      FilterNone(s[1..]);
    }
  }

  /** A string of label characters passes the filter unchanged. */
  lemma {:induction false} FilterKeepsLabelChars(s: string)
    requires forall i :: 0 <= i < |s| ==> IsLabelChar(s[i])
    ensures Filter(s) == s
    decreases |s|
  {
    if s != [] {
      FilterKeepsLabelChars(s[1..]);
    }
  }

  lemma LowerAppend(a: string, b: string)
    ensures Lower(a + b) == Lower(a) + Lower(b)
  {
    assert forall i :: 0 <= i < |a + b| ==> Lower(a + b)[i] == (Lower(a) + Lower(b))[i];
  }

  /**
   * The strip before the substitution never matters: whitespace is not a
   * label character, so Filter(Lower(Strip(k))) == Filter(Lower(k)).
   */
  lemma StripIsRedundant(keyword: string)
    ensures Filter(Lower(Strip(keyword))) == Filter(Lower(keyword))
  {
    FilterIgnoresSurroundingSpace(keyword, Strip(keyword), StripStart(keyword));
  }

  /** If s is r with whitespace around it, s and r filter to the same label. */
  lemma FilterIgnoresSurroundingSpace(s: string, r: string, i: nat)
    requires i <= |s| - |r| && r == s[i..i + |r|]
    requires AllSpace(s[..i]) && AllSpace(s[i + |r|..])
    ensures Filter(Lower(r)) == Filter(Lower(s))
  {
    var head, tail := s[..i], s[i + |r|..];
    assert s == head + r + tail;
    LowerAppend(head + r, tail);
    LowerAppend(head, r);
    SpaceFiltersAway(head);
    SpaceFiltersAway(tail);
    calc {
      Filter(Lower(s));
      Filter(Lower(head) + Lower(r) + Lower(tail));
      { FilterAppend(Lower(head) + Lower(r), Lower(tail)); }
      Filter(Lower(head) + Lower(r)) + Filter(Lower(tail));
      { FilterAppend(Lower(head), Lower(r)); }
      Filter(Lower(head)) + Filter(Lower(r)) + Filter(Lower(tail));
      [] + Filter(Lower(r)) + [];
      Filter(Lower(r));
    }
  }

  /** Whitespace, lower-cased, is deleted by the filter. */
  lemma SpaceFiltersAway(s: string)
    requires AllSpace(s)
    ensures Filter(Lower(s)) == []
  {
    forall i | 0 <= i < |s|
      ensures !IsLabelChar(Lower(s)[i])
    {
      assert IsSpace(s[i]);
    }
    FilterNone(Lower(s));
  }

  /** sanitize_keyword: Some(label) for a usable keyword, None otherwise. */
  function SanitizeKeyword(keyword: string): (r: Option<string>)
    ensures r.Some? ==> IsLabel(r.value)
    ensures r.Some? ==> r.value == Filter(Lower(keyword)) && IsSubsequence(r.value, Lower(keyword))
    ensures r.None? <==> (var name := Filter(Lower(keyword)); name == [] || name[0] == '-' || name[|name| - 1] == '-')
  {
    var name := Filter(Lower(Strip(keyword)));
    StripIsRedundant(keyword);
    FilterIsSubsequence(Lower(keyword));
    if name == [] || name[0] == '-' || name[|name| - 1] == '-' then None else Some(name)
  }

  /** Every valid label is its own sanitization. */
  lemma SanitizeKeepsLabels(s: string)
    requires IsLabel(s)
    ensures SanitizeKeyword(s) == Some(s)
  {
    assert Lower(s) == s;
    FilterKeepsLabelChars(s);
    SanitizeToLabel(s, s);
  }

  /** Sanitizing is idempotent on its outputs. */
  lemma SanitizeIdempotent(keyword: string)
    requires SanitizeKeyword(keyword).Some?
    ensures SanitizeKeyword(SanitizeKeyword(keyword).value) == SanitizeKeyword(keyword)
  {
    SanitizeKeepsLabels(SanitizeKeyword(keyword).value);
  }

  /** An empty keyword, and keywords that filter to a hyphen-ended label, are refused. */
  lemma SanitizeRejects()
    ensures SanitizeKeyword("") == None
    ensures SanitizeKeyword("-abc") == None
    ensures SanitizeKeyword("abc-") == None
    ensures SanitizeKeyword("---") == None
  {
    assert Lower("-abc") == "-abc";
    FilterKeepsLabelChars("-abc");
    assert Lower("abc-") == "abc-";
    FilterKeepsLabelChars("abc-");
    assert Lower("---") == "---";
    FilterKeepsLabelChars("---");
  }

  /** A keyword whose filtered, lower-cased form is a usable label sanitizes to that label. */
  lemma SanitizeToLabel(keyword: string, name: string)
    requires Filter(Lower(keyword)) == name
    requires name != [] && name[0] != '-' && name[|name| - 1] != '-'
    ensures SanitizeKeyword(keyword) == Some(name)
  {
    var r := SanitizeKeyword(keyword);
    assert !r.None?;
    assert r.value == name;
  }

  /** A label between two runs of non-label characters filters to itself. */
  lemma FilterPunctuated(pre: string, name: string, post: string)
    requires forall i :: 0 <= i < |pre| ==> !IsLabelChar(pre[i])
    requires forall i :: 0 <= i < |post| ==> !IsLabelChar(post[i])
    requires forall i :: 0 <= i < |name| ==> IsLabelChar(name[i])
    ensures Filter(pre + name + post) == name
  {
    FilterAppend(pre + name, post);
    FilterAppend(pre, name);
    FilterNone(pre);
    FilterNone(post);
    FilterKeepsLabelChars(name);
  }

  const MessyKeyword := " My-Site! "

  /** Case, surrounding whitespace and punctuation are cleaned away. */
  lemma SanitizeCleans()
    ensures SanitizeKeyword(MessyKeyword) == Some("my-site")
  {
    var lowered := " " + "my-site" + "! ";
    assert Lower(MessyKeyword) == lowered;
    FilterPunctuated(" ", "my-site", "! ");
    SanitizeToLabel(MessyKeyword, "my-site");
  }
}
