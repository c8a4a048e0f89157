/**
 * WHOIS replies written as a list of lines, and what the patterns of
 * api/check.py:84-90 find in such a reply. These lemmas let the worked
 * examples reason line by line instead of character by character.
 */
module Replies {
  import opened Wrappers
  import opened Text
  import opened Patterns

  /** The lines joined, each ended by a newline. */
  function JoinLines(ls: seq<string>): string
    decreases |ls|
  {
    if ls == [] then [] else ls[0] + "\n" + JoinLines(ls[1..])
  }

  /** Where line n starts in JoinLines(ls). */
  function LineOffset(ls: seq<string>, n: nat): nat
    requires n <= |ls|
    decreases n
  {
    if n == 0 then 0 else |ls[0]| + 1 + LineOffset(ls[1..], n - 1)
  }

  predicate OneLineEach(ls: seq<string>) {
    forall n :: 0 <= n < |ls| ==> '\n' !in ls[n]
  }

  /** From the start of line n on, the text is the remaining lines joined. */
  lemma {:induction false} JoinLinesSuffix(ls: seq<string>, n: nat)
    requires n <= |ls|
    ensures LineOffset(ls, n) <= |JoinLines(ls)|
    ensures JoinLines(ls)[LineOffset(ls, n)..] == JoinLines(ls[n..])
    decreases n
  {
    if n > 0 {
      JoinLinesSuffix(ls[1..], n - 1);
      assert ls[1..][n - 1..] == ls[n..];
      var t := JoinLines(ls);
      assert t == (ls[0] + "\n") + JoinLines(ls[1..]);
      assert t[|ls[0]| + 1..] == JoinLines(ls[1..]);
    }
  }

  /** Line n occupies t[o..o+|ls[n]|] and is followed by a newline. */
  lemma LineAt(ls: seq<string>, n: nat)
    requires n < |ls|
    ensures var t := JoinLines(ls); var o := LineOffset(ls, n);
      && o + |ls[n]| < |t|
      && t[o..o + |ls[n]|] == ls[n]
      && t[o + |ls[n]|] == '\n'
  {
    JoinLinesSuffix(ls, n);
    var t := JoinLines(ls);
    var o := LineOffset(ls, n);
    var rest := JoinLines(ls[n..]);
    assert rest == ls[n] + "\n" + JoinLines(ls[n + 1..]);
    assert t[o..] == rest;
    assert t[o..o + |ls[n]|] == rest[..|ls[n]|];
    assert t[o + |ls[n]|] == rest[|ls[n]|];
  }

  /** Later lines start later. */
  lemma {:induction false} LineOffsetMonotone(ls: seq<string>, m: nat, n: nat)
    requires m <= n <= |ls|
    ensures LineOffset(ls, m) <= LineOffset(ls, n)
    decreases m
  {
    if m > 0 {
      LineOffsetMonotone(ls[1..], m - 1, n - 1);
    }
  }

  /** When no line holds a newline, the line starts (regex ^ under re.M) are exactly the line offsets. */
  lemma {:induction false} LineStartIsOffset(ls: seq<string>, p: nat)
    requires OneLineEach(ls) && p < |JoinLines(ls)| && LineStart(JoinLines(ls), p)
    ensures exists n :: 0 <= n < |ls| && p == LineOffset(ls, n)
    decreases |ls|
  {
    var t := JoinLines(ls);
    if p == 0 {
      assert LineOffset(ls, 0) == 0;
    } else {
      var w := |ls[0]|;
      assert t == ls[0] + "\n" + JoinLines(ls[1..]);
      if p - 1 == w {
        assert LineOffset(ls, 1) == p;
      } else if p - 1 > w {
        var rest := ls[1..];
        assert forall m :: 0 <= m < |rest| ==> rest[m] == ls[m + 1];
        assert t[w + 1..] == JoinLines(rest);
        assert JoinLines(rest)[p - w - 2] == t[p - 1];
        LineStartIsOffset(rest, p - w - 1);
        var m :| 0 <= m < |rest| && p - w - 1 == LineOffset(rest, m);
        assert LineOffset(ls, m + 1) == p;
      }
    }
  }

  /** A field label that fits on one line, as the three the checker uses do. */
  predicate IsLineLabel(name: string) {
    IsFieldLabel(name) && '\n' !in name
  }

  /** line does not begin with pre (it may be shorter than pre). */
  predicate DiffersFrom(line: string, pre: string) {
    !(|pre| <= |line| && line[..|pre|] == pre)
  }

  /** A line that disagrees with pre at an index both have does not begin with pre. */
  lemma DiffersAt(line: string, pre: string, i: nat)
    requires i < |pre| && i < |line| && line[i] != pre[i]
    ensures DiffersFrom(line, pre)
  {
    if |pre| <= |line| {
      assert line[..|pre|][i] != pre[i];
    }
  }

  /**
   * If line n reads "<label>: v", v starts with a non-space character, and
   * every earlier line starts with a non-space character and does not begin
   * with "<label>:", the field's value is v.
   */
  lemma FieldOnLine(ls: seq<string>, name: string, n: nat, v: string)
    requires OneLineEach(ls) && IsLineLabel(name)
    requires n < |ls| && ls[n] == name + ": " + v && v != [] && !IsSpace(v[0])
    requires forall m :: 0 <= m < n ==> ls[m] != [] && !IsSpace(ls[m][0]) && DiffersFrom(ls[m], name + ":")
    ensures FieldValue(JoinLines(ls), name) == Some(v)
  {
    var t := JoinLines(ls);
    var h := LabelledLineHit(ls, name, n, v);
    NoFieldBeforeLine(ls, name, n);
    FieldValueOfLeftmost(t, name, h);
  }

  /** Every line offset is a line start (regex ^ under re.M). */
  lemma OffsetIsLineStart(ls: seq<string>, n: nat)
    requires n < |ls|
    ensures LineStart(JoinLines(ls), LineOffset(ls, n))
  {
    if n > 0 {
      LineAt(ls, n - 1);
      LineOffsetSucc(ls, n - 1);
    }
  }

  /** The match on line n, with group 1 starting after ": ". */
  lemma LabelledLineHit(ls: seq<string>, name: string, n: nat, v: string) returns (h: FieldHit)
    requires OneLineEach(ls) && IsFieldLabel(name)
    requires n < |ls| && ls[n] == name + ": " + v && v != [] && !IsSpace(v[0])
    ensures h.p == LineOffset(ls, n) && GreedyHit(JoinLines(ls), name, h)
    ensures h.s + |v| <= |JoinLines(ls)| && JoinLines(ls)[h.s..LineEnd(JoinLines(ls), h.s)] == v
  {
    var p := LineOffset(ls, n);
    LineAt(ls, n);
    OffsetIsLineStart(ls, n);
    ValueHasNoNewline(ls[n], name, v);
    LabelledLineIn(JoinLines(ls), p, ls[n], name, v);
    h := FieldHit(p, p, p + |name| + 2);
  }

  /**
   * A line "<name>: v" at line start p of t, v starting with non-space and
   * holding no newline, is a greedy match whose value is v.
   */
  lemma LabelledLineIn(t: string, p: nat, line: string, name: string, v: string)
    requires line == name + ": " + v && v != [] && !IsSpace(v[0]) && '\n' !in v
    requires p + |line| < |t| && t[p..p + |line|] == line && t[p + |line|] == '\n' && LineStart(t, p)
    ensures var s := p + |name| + 2;
      && GreedyHit(t, name, FieldHit(p, p, s))
      && s + |v| <= |t| && t[s..LineEnd(t, s)] == v
  {
    var s := p + |name| + 2;
    assert t[p..p + |name| + 1] == line[..|name| + 1];
    assert t[p + |name| + 1] == line[|name| + 1];
    assert t[s..s + |v|] == line[|name| + 2..];
    LabelledLineMatch(t, name, p, v);
    SliceNoNewline(t, s, v);
    LineEndOf(t, s, s + |v|);
  }

  /** A line start followed by name, ": " and a value that starts with non-space is a greedy match. */
  lemma LabelledLineMatch(t: string, name: string, p: nat, v: string)
    requires v != [] && !IsSpace(v[0])
    requires p + |name| + 2 + |v| <= |t| && LineStart(t, p)
    requires t[p..p + |name| + 1] == name + ":" && t[p + |name| + 1] == ' '
    requires t[p + |name| + 2..p + |name| + 2 + |v|] == v
    ensures GreedyHit(t, name, FieldHit(p, p, p + |name| + 2))
  {
    var s := p + |name| + 2;
    assert t[s] == v[0] by {
      assert t[s..s + |v|][0] == t[s];
    }
    assert ValueStart(t, p + |name| + 1, s);
    NonSpaceIsLastValueStart(t, p + |name| + 1, s);
  }

  lemma ValueHasNoNewline(line: string, name: string, v: string)
    requires line == name + ": " + v && '\n' !in line
    ensures '\n' !in v
  {
    assert v == line[|name| + 2..];
  }

  lemma SliceNoNewline(t: string, s: nat, v: string)
    requires s + |v| <= |t| && t[s..s + |v|] == v && '\n' !in v
    ensures forall x :: s <= x < s + |v| ==> t[x] != '\n'
  {
    forall x | s <= x < s + |v|
      ensures t[x] != '\n'
    {
      assert t[x] == t[s..s + |v|][x - s];
    }
  }

  /** No match starts before line n when no earlier line begins with the label. */
  lemma NoFieldBeforeLine(ls: seq<string>, name: string, n: nat)
    requires OneLineEach(ls) && IsLineLabel(name) && n < |ls|
    requires forall m :: 0 <= m < n ==> ls[m] != [] && !IsSpace(ls[m][0]) && DiffersFrom(ls[m], name + ":")
    ensures forall h' :: FieldMatch(JoinLines(ls), name, h') ==> LineOffset(ls, n) <= h'.p
  {
    var t := JoinLines(ls);
    forall h' | FieldMatch(t, name, h')
      ensures LineOffset(ls, n) <= h'.p
    {
      if h'.p < LineOffset(ls, n) {
        LineAt(ls, n);
        LineStartIsOffset(ls, h'.p);
        var m :| 0 <= m < |ls| && h'.p == LineOffset(ls, m);
        if m >= n {
          LineOffsetMonotone(ls, n, m);
        }
        EarlierLineHasNoField(ls, name, m, h');
      }
    }
  }

  /** The line after line n starts one past its newline. */
  lemma {:induction false} LineOffsetSucc(ls: seq<string>, n: nat)
    requires n + 1 <= |ls|
    ensures LineOffset(ls, n + 1) == LineOffset(ls, n) + |ls[n]| + 1
    decreases n
  {
    if n > 0 {
      LineOffsetSucc(ls[1..], n - 1);
    }
  }

  /** A line that starts with a non-space character and differs from the label holds no match. */
  lemma EarlierLineHasNoField(ls: seq<string>, name: string, m: nat, h: FieldHit)
    requires OneLineEach(ls) && IsLineLabel(name)
    requires m < |ls| && ls[m] != [] && !IsSpace(ls[m][0]) && DiffersFrom(ls[m], name + ":")
    requires h.p == LineOffset(ls, m)
    ensures !FieldMatch(JoinLines(ls), name, h)
  {
    if FieldMatch(JoinLines(ls), name, h) {
      LabelOnLine(ls, name, m, h);
      assert false;
    }
  }

  /**
   * A match from the start of a line that begins with a non-space character
   * spells the label at the start of that line: the label holds no newline,
   * so it cannot run on past the line's end.
   */
  lemma LabelOnLine(ls: seq<string>, name: string, m: nat, h: FieldHit)
    requires IsLineLabel(name) && m < |ls| && ls[m] != [] && !IsSpace(ls[m][0])
    requires h.p == LineOffset(ls, m) && FieldMatch(JoinLines(ls), name, h)
    ensures |name| + 1 <= |ls[m]| && ls[m][..|name| + 1] == name + ":"
  {
    LineAt(ls, m);
    LabelAtLineStart(JoinLines(ls), name, LineOffset(ls, m), ls[m], h);
  }

  /** LabelOnLine for a line of any text, given where the line sits. */
  lemma LabelAtLineStart(t: string, name: string, o: nat, line: string, h: FieldHit)
    requires IsLineLabel(name) && line != [] && !IsSpace(line[0])
    requires o + |line| < |t| && t[o..o + |line|] == line && t[o + |line|] == '\n'
    requires h.p == o && FieldMatch(t, name, h)
    ensures |name| + 1 <= |line| && line[..|name| + 1] == name + ":"
  {
    assert t[o] == t[o..o + |line|][0];
    SkipSpaceUnique(t, o, o);
    FieldLabelPosition(t, name, o);
    assert h.q == o;
    LiteralWithinLine(t, o, line, name + ":");
  }

  /** A newline-free literal at the start of a line ended by a newline lies within that line. */
  lemma LiteralWithinLine(t: string, o: nat, line: string, lit: string)
    requires o + |line| < |t| && t[o..o + |line|] == line && t[o + |line|] == '\n'
    requires o + |lit| <= |t| && t[o..o + |lit|] == lit && '\n' !in lit
    ensures |lit| <= |line| && line[..|lit|] == lit
  {
    if |line| < |lit| {
      assert false;
    }
    assert line[..|lit|] == t[o..o + |lit|];
  }

  /** LineEnd is the first newline or the end of the text. */
  lemma LineEndOf(t: string, s: nat, e: nat)
    requires s <= e <= |t| && (e == |t| || t[e] == '\n')
    requires forall x :: s <= x < e ==> t[x] != '\n'
    ensures LineEnd(t, s) == e
  {
  }

  // ---------------------------------------------------------------------
  // Ruling out the "No match for" rule
  // ---------------------------------------------------------------------

  /** No character of s is c under ASCII case folding. */
  predicate FoldFree(s: string, c: char) {
    forall k :: 0 <= k < |s| ==> LowerChar(s[k]) != c
  }

  /** A reply in which no h or H occurs cannot contain "No match for". */
  lemma NoLetterHNoPhrase(t: string, d: string)
    requires FoldFree(t, 'h')
    ensures !NoMatchForMatches(t, d)
  {
    if NoMatchForMatches(t, d) {
      var i: nat, j: nat, k: nat :| NoMatchForAt(t, d, i, j, k);
      PhraseHasH(t, i);
      assert false;
    }
  }

  /** Wherever the phrase matches, its eighth character folds to h. */
  lemma PhraseHasH(t: string, i: nat)
    requires LiteralAt(t, i, NoMatchPhrase, true)
    ensures LowerChar(t[i + 7]) == 'h'
  {
    assert Lower(t[i..i + |NoMatchPhrase|])[7] == Lower(NoMatchPhrase)[7];
    assert t[i..i + |NoMatchPhrase|][7] == t[i + 7];
  }

  lemma {:induction false} FoldFreeJoin(ls: seq<string>, c: char)
    requires c != '\n' && forall n :: 0 <= n < |ls| ==> FoldFree(ls[n], c)
    ensures FoldFree(JoinLines(ls), c)
    decreases |ls|
  {
    if ls != [] {
      FoldFreeJoin(ls[1..], c);
      var t := JoinLines(ls);
      assert t == ls[0] + "\n" + JoinLines(ls[1..]);
      forall k | 0 <= k < |t|
        ensures LowerChar(t[k]) != c
      {
        if k < |ls[0]| {
          assert t[k] == ls[0][k];
        } else if k > |ls[0]| {
          assert t[k] == JoinLines(ls[1..])[k - |ls[0]| - 1];
        }
      }
    }
  }

  // ---------------------------------------------------------------------
  // The "Domain Name:" rule on a first line
  // ---------------------------------------------------------------------

  /** A reply whose first line is "Domain Name: D", D ending in a word character, matches the rule. */
  lemma DomainNameOnFirstLine(ls: seq<string>, d: string)
    requires ls != [] && ls[0] == DomainNameLabel + " " + d && d != [] && IsWordChar(d[|d| - 1])
    ensures DomainNameMatches(JoinLines(ls), d)
  {
    var t := JoinLines(ls);
    LineAt(ls, 0);
    var r := |DomainNameLabel| + 1;
    assert t[..|ls[0]|] == ls[0];
    assert t[0..|DomainNameLabel|] == DomainNameLabel by {
      assert ls[0][..|DomainNameLabel|] == DomainNameLabel;
    }
    assert t[|DomainNameLabel|] == ' ' by {
      assert ls[0][|DomainNameLabel|] == ' ';
    }
    assert t[r..r + |d|] == d by {
      assert ls[0][r..] == d;
    }
    assert t[r + |d| - 1] == d[|d| - 1];
    assert t[r + |d|] == '\n';
    assert DomainNameAt(t, d, 0, 0, r);
  }
}
