/**
 * The three regular expressions check_domain runs over the WHOIS text
 * (api/check.py:84, 87, 88-90), as explicit predicates over positions.
 *
 * For each pattern there is a declarative reading (a ghost predicate saying
 * which positions make up one match, clause by clause as the pattern is
 * written) and a scanner that searches the way the regex engine does
 * (leftmost start first, greedy \s*). Lemmas show the two agree.
 */
module Patterns {
  import opened Wrappers
  import opened Text

  /** Regex ^ under re.M: the start of the text or just after a newline. */
  predicate LineStart(t: string, p: nat) {
    p == 0 || (p <= |t| && t[p - 1] == '\n')
  }

  /** t[i..j] is a run of whitespace (what \s* or \s+ consumed). */
  predicate SpaceRun(t: string, i: nat, j: nat) {
    i <= j <= |t| && forall k :: i <= k < j ==> IsSpace(t[k])
  }

  /** Where a greedy \s* starting at i stops. */
  function SkipSpace(t: string, i: nat): (j: nat)
    requires i <= |t|
    ensures SpaceRun(t, i, j) && (j == |t| || !IsSpace(t[j]))
    decreases |t| - i
  {
    if i < |t| && IsSpace(t[i]) then SkipSpace(t, i + 1) else i
  }

  /** A whitespace run that stops before a non-whitespace character is the greedy one. */
  lemma SkipSpaceUnique(t: string, i: nat, j: nat)
    requires SpaceRun(t, i, j) && j < |t| && !IsSpace(t[j])
    ensures SkipSpace(t, i) == j
  {
  }

  /** A whitespace run that ends at a letter, digit or quote is the one \s* takes. */
  lemma SkipSpaceToAlnum(t: string, i: nat, j: nat)
    requires SpaceRun(t, i, j) && j < |t| && (IsAlnumAscii(t[j]) || t[j] == '"')
    ensures SkipSpace(t, i) == j
  {
    SkipSpaceUnique(t, i, j);
  }

  /** Regex \b between t[k-1] and t[k], the ends of the text counting as non-word. */
  predicate WordBoundary(t: string, k: nat)
    requires k <= |t|
  {
    (0 < k && IsWordChar(t[k - 1])) != (k < |t| && IsWordChar(t[k]))
  }

  /** The literal lit occurs at t[i..]; under re.I, compared without ASCII case. */
  predicate LiteralAt(t: string, i: nat, lit: string, ignoreCase: bool) {
    && i + |lit| <= |t|
    && if ignoreCase then Lower(t[i..i + |lit|]) == Lower(lit) else t[i..i + |lit|] == lit
  }

  /** A literal whose character at n is an ASCII letter or digit matches one there too. */
  lemma LiteralAlnumAt(t: string, i: nat, lit: string, ignoreCase: bool, n: nat)
    requires LiteralAt(t, i, lit, ignoreCase) && n < |lit| && IsAlnumAscii(lit[n])
    ensures i + n < |t| && IsAlnumAscii(t[i + n])
  {
    var c := t[i..i + |lit|][n];
    assert c == t[i + n];
    if ignoreCase {
      assert Lower(t[i..i + |lit|])[n] == Lower(lit)[n];
      assert LowerChar(c) == LowerChar(lit[n]);
    }
  }

  /** The domain text the patterns are built from starts with an ASCII letter or digit. */
  predicate StartsAlnum(d: string) {
    d != [] && IsAlnumAscii(d[0])
  }

  lemma UpperStartsAlnum(d: string)
    ensures StartsAlnum(d) ==> StartsAlnum(Upper(d))
  {
  }

  // ---------------------------------------------------------------------
  // r'No match for\s+"?%s"?\b' with re.I  (api/check.py:84)
  // ---------------------------------------------------------------------

  const NoMatchPhrase := "No match for"

  /** The pattern's tail "?\b: an optional quote, then a word boundary. */
  predicate QuoteThenBoundary(t: string, e: nat)
    requires e <= |t|
  {
    (e < |t| && t[e] == '"' && WordBoundary(t, e + 1)) || WordBoundary(t, e)
  }

  /**
   * One match of the pattern for the upper-cased domain d: the phrase at i,
   * at least one whitespace character up to j, an optional quote, d at k, and the tail.
   */
  ghost predicate NoMatchForAt(t: string, d: string, i: nat, j: nat, k: nat) {
    && LiteralAt(t, i, NoMatchPhrase, true)
    && i + |NoMatchPhrase| < j
    && SpaceRun(t, i + |NoMatchPhrase|, j)
    && (k == j || (k == j + 1 && j < |t| && t[j] == '"'))
    && LiteralAt(t, k, d, true)
    && QuoteThenBoundary(t, k + |d|)
  }

  ghost predicate NoMatchForMatches(t: string, d: string) {
    exists i, j, k :: NoMatchForAt(t, d, i, j, k)
  }

  /** The engine's attempt at start i: \s+ as long as possible, then an optional quote and d. */
  predicate NoMatchForHere(t: string, d: string, i: nat)
    requires i <= |t|
  {
    && LiteralAt(t, i, NoMatchPhrase, true)
    && var j := SkipSpace(t, i + |NoMatchPhrase|);
    && i + |NoMatchPhrase| < j
    && ((LiteralAt(t, j, d, true) && QuoteThenBoundary(t, j + |d|))
        || (j < |t| && t[j] == '"' && LiteralAt(t, j + 1, d, true) && QuoteThenBoundary(t, j + 1 + |d|)))
  }

  /** The engine's attempt finds a match at i. */
  lemma NoMatchForHereSound(t: string, d: string, i: nat)
    requires i <= |t| && NoMatchForHere(t, d, i)
    ensures exists j, k :: NoMatchForAt(t, d, i, j, k)
  {
    var j := SkipSpace(t, i + |NoMatchPhrase|);
    if LiteralAt(t, j, d, true) && QuoteThenBoundary(t, j + |d|) {
      assert NoMatchForAt(t, d, i, j, j);
    } else {
      assert NoMatchForAt(t, d, i, j, j + 1);
    }
  }

  /**
   * Trying only the greedy \s+ loses nothing: neither the quote nor the
   * domain's first character is whitespace, so no shorter run can work.
   */
  lemma NoMatchForHereComplete(t: string, d: string, i: nat, j: nat, k: nat)
    requires StartsAlnum(d) && NoMatchForAt(t, d, i, j, k)
    ensures NoMatchForHere(t, d, i)
  {
    if k == j {
      LiteralAlnumAt(t, k, d, true, 0);
    }
    SkipSpaceToAlnum(t, i + |NoMatchPhrase|, j);
  }

  lemma NoMatchForHereIff(t: string, d: string, i: nat)
    requires i <= |t|
    ensures StartsAlnum(d) ==> (NoMatchForHere(t, d, i) <==> exists j, k :: NoMatchForAt(t, d, i, j, k))
  {
    if NoMatchForHere(t, d, i) {
      NoMatchForHereSound(t, d, i);
    }
    if StartsAlnum(d) && exists j, k :: NoMatchForAt(t, d, i, j, k) {
      var j, k :| NoMatchForAt(t, d, i, j, k);
      NoMatchForHereComplete(t, d, i, j, k);
    }
  }

  /** re.search from start position i onwards. */
  function SearchNoMatchFor(t: string, d: string, i: nat): (found: bool)
    requires i <= |t|
    ensures StartsAlnum(d) ==> (found <==> exists i', j, k :: i <= i' && NoMatchForAt(t, d, i', j, k))
    decreases |t| - i
  {
    NoMatchForHereIff(t, d, i);
    NoMatchForHere(t, d, i) || (i < |t| && SearchNoMatchFor(t, d, i + 1))
  }

  /** re.search(r'No match for\s+"?%s"?\b' % re.escape(domain.upper()), resp, re.I) */
  function MatchesNoMatchFor(resp: string, domain: string): (found: bool)
    ensures StartsAlnum(domain) ==> (found <==> NoMatchForMatches(resp, Upper(domain)))
  {
    UpperStartsAlnum(domain);
    SearchNoMatchFor(resp, Upper(domain), 0)
  }

  /**
   * For a domain ending in a letter or digit, the tail "?\b says exactly that
   * the domain is followed by a non-word character or by the end of the text.
   */
  lemma QuoteThenBoundaryAfterDomain(t: string, d: string, k: nat)
    requires d != [] && IsAlnumAscii(d[|d| - 1]) && LiteralAt(t, k, d, true)
    ensures QuoteThenBoundary(t, k + |d|) <==> (k + |d| == |t| || !IsWordChar(t[k + |d|]))
  {
    LiteralAlnumAt(t, k, d, true, |d| - 1);
  }

  // ---------------------------------------------------------------------
  // r'^\s*Domain Name:\s*%s\b' with re.I | re.M  (api/check.py:87)
  // ---------------------------------------------------------------------

  const DomainNameLabel := "Domain Name:"

  /** One match: a line start p, whitespace to q, the label, whitespace to r, d at r, a boundary. */
  ghost predicate DomainNameAt(t: string, d: string, p: nat, q: nat, r: nat) {
    && LineStart(t, p)
    && SpaceRun(t, p, q)
    && LiteralAt(t, q, DomainNameLabel, true)
    && SpaceRun(t, q + |DomainNameLabel|, r)
    && LiteralAt(t, r, d, true)
    && WordBoundary(t, r + |d|)
  }

  ghost predicate DomainNameMatches(t: string, d: string) {
    exists p, q, r :: DomainNameAt(t, d, p, q, r)
  }

  /** The engine's attempt at start p, both \s* greedy. */
  predicate DomainNameHere(t: string, d: string, p: nat)
    requires p <= |t|
  {
    && LineStart(t, p)
    && var q := SkipSpace(t, p);
    && LiteralAt(t, q, DomainNameLabel, true)
    && var r := SkipSpace(t, q + |DomainNameLabel|);
    && LiteralAt(t, r, d, true)
    && WordBoundary(t, r + |d|)
  }

  /** The engine's attempt finds a match at p. */
  lemma DomainNameHereSound(t: string, d: string, p: nat)
    requires p <= |t| && DomainNameHere(t, d, p)
    ensures exists q, r :: DomainNameAt(t, d, p, q, r)
  {
    var q := SkipSpace(t, p);
    var r := SkipSpace(t, q + |DomainNameLabel|);
    assert DomainNameAt(t, d, p, q, r);
  }

  /** Both whitespace runs are followed by a letter or digit, so only the greedy ones can match. */
  lemma DomainNameHereComplete(t: string, d: string, p: nat, q: nat, r: nat)
    requires StartsAlnum(d) && DomainNameAt(t, d, p, q, r)
    ensures DomainNameHere(t, d, p)
  {
    LiteralAlnumAt(t, q, DomainNameLabel, true, 0);
    SkipSpaceToAlnum(t, p, q);
    LiteralAlnumAt(t, r, d, true, 0);
    SkipSpaceToAlnum(t, q + |DomainNameLabel|, r);
  }

  lemma DomainNameHereIff(t: string, d: string, p: nat)
    requires p <= |t|
    ensures StartsAlnum(d) ==> (DomainNameHere(t, d, p) <==> exists q, r :: DomainNameAt(t, d, p, q, r))
  {
    if DomainNameHere(t, d, p) {
      DomainNameHereSound(t, d, p);
    }
    if StartsAlnum(d) && exists q, r :: DomainNameAt(t, d, p, q, r) {
      var q, r :| DomainNameAt(t, d, p, q, r);
      DomainNameHereComplete(t, d, p, q, r);
    }
  }

  /** re.search from start position p onwards. */
  function SearchDomainName(t: string, d: string, p: nat): (found: bool)
    requires p <= |t|
    ensures StartsAlnum(d) ==> (found <==> exists p', q, r :: p <= p' && DomainNameAt(t, d, p', q, r))
    decreases |t| - p
  {
    DomainNameHereIff(t, d, p);
    DomainNameHere(t, d, p) || (p < |t| && SearchDomainName(t, d, p + 1))
  }

  /** re.search(r'^\s*Domain Name:\s*%s\b' % re.escape(domain.upper()), resp, re.I | re.M) */
  function MatchesDomainName(resp: string, domain: string): (found: bool)
    ensures StartsAlnum(domain) ==> (found <==> DomainNameMatches(resp, Upper(domain)))
  {
    UpperStartsAlnum(domain);
    SearchDomainName(resp, Upper(domain), 0)
  }

  // ---------------------------------------------------------------------
  // r'^\s*<Label>:\s*(.+)$' with re.M, case-sensitive  (api/check.py:88-90)
  // ---------------------------------------------------------------------

  const RegistrarLabel := "Registrar"
  const CreationDateLabel := "Creation Date"
  const ExpiryDateLabel := "Registry Expiry Date"

  /** The field labels used: they start with a non-whitespace character. */
  predicate IsFieldLabel(name: string) {
    name != [] && !IsSpace(name[0])
  }

  /** Where the line that holds position s ends: at the next newline or at the end of the text. */
  function LineEnd(t: string, s: nat): (e: nat)
    requires s <= |t|
    ensures s <= e <= |t| && (e == |t| || t[e] == '\n')
    ensures forall x :: s <= x < e ==> t[x] != '\n'
    decreases |t| - s
  {
    if s == |t| || t[s] == '\n' then s else LineEnd(t, s + 1)
  }

  /** (.+)$ can start at s after \s* consumed t[v0..s]: s is inside the text and not a newline. */
  predicate ValueStart(t: string, v0: nat, s: nat) {
    v0 <= s < |t| && SpaceRun(t, v0, s) && t[s] != '\n'
  }

  /** The last position before s, not before v0, that is not a newline. */
  function BackOff(t: string, v0: nat, s: nat): (r: Option<nat>)
    requires v0 <= s <= |t|
    ensures r.Some? ==> v0 <= r.value < s && t[r.value] != '\n' && forall x :: r.value < x < s ==> t[x] == '\n'
    ensures r.None? ==> forall x :: v0 <= x < s ==> t[x] == '\n'
    decreases s
  {
    if s == v0 then None
    else if t[s - 1] != '\n' then Some(s - 1)
    else BackOff(t, v0, s - 1)
  }

  /**
   * Where the engine starts (.+) when it runs \s*(.+)$ from v0: \s* takes all
   * the whitespace it can, and gives characters back only when that leaves
   * nothing for (.+). The result is the last possible start, or None.
   */
  function ValueSplit(t: string, v0: nat): (r: Option<nat>)
    requires v0 <= |t|
    ensures r.Some? ==> ValueStart(t, v0, r.value) && forall s :: r.value < s ==> !ValueStart(t, v0, s)
    ensures r.None? ==> forall s :: !ValueStart(t, v0, s)
  {
    var s1 := SkipSpace(t, v0);
    if s1 < |t| then Some(s1) else BackOff(t, v0, s1)
  }

  /** Positions of one match: line start p, label at q, group 1 starting at s. */
  datatype FieldHit = FieldHit(p: nat, q: nat, s: nat)

  ghost predicate FieldMatch(t: string, name: string, h: FieldHit) {
    && LineStart(t, h.p)
    && SpaceRun(t, h.p, h.q)
    && LiteralAt(t, h.q, name + ":", false)
    && ValueStart(t, h.q + |name| + 1, h.s)
  }

  /** s is the last position from which (.+)$ can start after v0. */
  ghost predicate LastValueStart(t: string, v0: nat, s: nat) {
    ValueStart(t, v0, s) && forall s' :: s < s' ==> !ValueStart(t, v0, s')
  }

  /** The match the engine reports for a start: group 1 starts as late as possible. */
  ghost predicate GreedyHit(t: string, name: string, h: FieldHit) {
    FieldMatch(t, name, h) && LastValueStart(t, h.q + |name| + 1, h.s)
  }

  /** After the line start p, the label can only sit where the whitespace run ends. */
  lemma FieldLabelPosition(t: string, name: string, p: nat)
    requires p <= |t| && IsFieldLabel(name)
    ensures forall q: nat :: SpaceRun(t, p, q) && LiteralAt(t, q, name + ":", false) ==> q == SkipSpace(t, p)
  {
    forall q: nat | SpaceRun(t, p, q) && LiteralAt(t, q, name + ":", false)
      ensures q == SkipSpace(t, p)
    {
      assert t[q..q + |name| + 1][0] == t[q];
      SkipSpaceUnique(t, p, q);
    }
  }

  /** The engine's attempt at start p. */
  function FieldHere(t: string, name: string, p: nat): (r: Option<FieldHit>)
    requires p <= |t| && IsFieldLabel(name)
    ensures r.Some? ==> r.value.p == p && GreedyHit(t, name, r.value)
    ensures r.None? ==> forall h: FieldHit :: h.p == p ==> !FieldMatch(t, name, h)
  {
    FieldLabelPosition(t, name, p);
    if !LineStart(t, p) then None
    else
      var q := SkipSpace(t, p);
      if !LiteralAt(t, q, name + ":", false) then None
      else
        match ValueSplit(t, q + |name| + 1)
        case None => None
        case Some(s) => Some(FieldHit(p, q, s))
  }

  /** re.search from start position p onwards: the leftmost match, with its greedy group. */
  function FindField(t: string, name: string, p: nat): (r: Option<FieldHit>)
    requires p <= |t| && IsFieldLabel(name)
    ensures r.Some? ==> p <= r.value.p && GreedyHit(t, name, r.value)
    ensures r.Some? ==> forall h :: FieldMatch(t, name, h) && p <= h.p ==> r.value.p <= h.p
    ensures r.None? ==> forall h :: FieldMatch(t, name, h) ==> h.p < p
    decreases |t| - p
  {
    match FieldHere(t, name, p)
    case Some(h) => Some(h)
    case None => if p < |t| then FindField(t, name, p + 1) else None
  }

  /** v is group 1 of the leftmost match, taken with its greedy split. */
  ghost predicate LeftmostValue(t: string, name: string, v: string) {
    exists h :: && GreedyHit(t, name, h)
                && h.s <= |t| && v == t[h.s..LineEnd(t, h.s)]
                && forall h' :: FieldMatch(t, name, h') ==> h.p <= h'.p
  }

  /**
   * group(1) of re.search(r'^\s*<name>:\s*(.+)$', resp, re.M), or None when
   * nothing matches. The value is the rest of a line: non-empty, no newline.
   */
  function FieldValue(t: string, name: string): (r: Option<string>)
    requires IsFieldLabel(name)
    ensures r.Some? ==> r.value != [] && forall i :: 0 <= i < |r.value| ==> r.value[i] != '\n'
    ensures r.Some? ==> LeftmostValue(t, name, r.value)
    ensures r.None? <==> forall h :: !FieldMatch(t, name, h)
  {
    match FindField(t, name, 0)
    case Some(h) =>
      var e := LineEnd(t, h.s);
      assert forall i :: 0 <= i < e - h.s ==> t[h.s..e][i] == t[h.s + i];
      Some(t[h.s..e])
    case None => None
  }

  /** A greedy match that no other match precedes fixes the value. */
  lemma FieldValueOfLeftmost(t: string, name: string, h: FieldHit)
    requires IsFieldLabel(name) && GreedyHit(t, name, h)
    requires forall h' :: FieldMatch(t, name, h') ==> h.p <= h'.p
    ensures FieldValue(t, name) == Some(t[h.s..LineEnd(t, h.s)])
  {
    match FindField(t, name, 0)
    case None =>
      assert false;
    case Some(h0) =>
      assert h0.p == h.p;
      FieldLabelPosition(t, name, h.p);
      assert h0.q == h.q;
      LastValueStartUnique(t, h.q + |name| + 1, h.s, h0.s);
  }

  lemma LastValueStartUnique(t: string, v0: nat, s1: nat, s2: nat)
    requires LastValueStart(t, v0, s1) && LastValueStart(t, v0, s2)
    ensures s1 == s2
  {
  }

  /** A value start at a non-space character is the last one: \s* cannot run past it. */
  lemma NonSpaceIsLastValueStart(t: string, v0: nat, s: nat)
    requires ValueStart(t, v0, s) && !IsSpace(t[s])
    ensures LastValueStart(t, v0, s)
  {
  }
}
