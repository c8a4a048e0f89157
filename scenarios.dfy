/**
 * Worked examples of check_domain and format_date, each proved from the
 * general lemmas rather than by evaluating the functions on literals.
 */
module Scenarios {
  import opened Wrappers
  import opened Text
  import opened Sanitizer
  import opened Dates
  import opened Registry
  import opened Patterns
  import opened Checker
  import opened Replies

  const SampleDate := "1995-08-14"
  const SampleTime := "04:00:00"
  const FreeText := "14-aug-1995"

  /** format_date("1995-08-14T04:00:00Z") == "1995-08-14" */
  lemma ZuluTimestampExample()
    ensures FormatDate(SampleDate + "T" + SampleTime + "Z") == SampleDate
  {
    var s := SampleDate;
    assert s[..4][0] == '1' && s[..4][1] == '9' && s[..4][2] == '9' && s[..4][3] == '5';
    assert s[5..7][0] == '0' && s[5..7][1] == '8';
    assert s[8..][0] == '1' && s[8..][1] == '4';
    DigitsValueSmall(s[..4]);
    DigitsValueSmall(s[5..7]);
    DigitsValueSmall(s[8..]);
    assert ParseDate(s) == Some(Date(1995, 8, 14));
    assert IsTimeOfDay(SampleTime);
    ZuluTimestampFormats(SampleDate, SampleTime);
  }

  const ExpiryDate := "2025-08-13"

  /** format_date("2025-08-13T04:00:00Z") == "2025-08-13" */
  lemma ExpiryTimestampExample()
    ensures FormatDate(ExpiryDate + "T" + SampleTime + "Z") == ExpiryDate
  {
    var s := ExpiryDate;
    assert s[..4][0] == '2' && s[..4][1] == '0' && s[..4][2] == '2' && s[..4][3] == '5';
    assert s[5..7][0] == '0' && s[5..7][1] == '8';
    assert s[8..][0] == '1' && s[8..][1] == '3';
    DigitsValueSmall(s[..4]);
    DigitsValueSmall(s[5..7]);
    DigitsValueSmall(s[8..]);
    assert ParseDate(s) == Some(Date(2025, 8, 13));
    assert IsTimeOfDay(SampleTime);
    ZuluTimestampFormats(ExpiryDate, SampleTime);
  }

  /** format_date("14-aug-1995") == "14-aug-1995" */
  lemma FreeTextExample()
    ensures FormatDate(FreeText) == FreeText
  {
    NonDateIsKept(FreeText, 3);
  }

  /** format_date("") == "Not available" */
  lemma EmptyDateExample()
    ensures FormatDate("") == NotAvailable
  {
  }

  /**
   * A response holding the text No match for "DOMAIN" anywhere, followed by
   * anything, makes the domain available: the quote after the domain gives
   * the word boundary.
   */
  lemma NoMatchLineMeansAvailable(name: string, tld: string, line: string, pre: string, post: string)
    requires IsLabel(name) && tld in WhoisServers
    requires line == NoMatchPhrase + " \"" + Upper(DomainOf(name, tld)) + "\""
    ensures Classify(DomainOf(name, tld), pre + line + post) == Available(DomainOf(name, tld))
  {
    var d := DomainOf(name, tld);
    TableKeysAreLowerCase(tld);
    assert d[|d| - 1] == tld[|tld| - 1];
    QuotedDomainMatches(pre + line + post, pre, line, post, Upper(d));
    DomainStartsAlnum(name, tld);
  }

  /** A quoted, upper-cased domain after the phrase and one space is a match at that line. */
  lemma QuotedDomainMatches(t: string, pre: string, line: string, post: string, D: string)
    requires D != [] && IsWordChar(D[|D| - 1])
    requires line == NoMatchPhrase + " \"" + D + "\"" && t == pre + line + post
    ensures NoMatchForAt(t, D, |pre|, |pre| + |NoMatchPhrase| + 1, |pre| + |NoMatchPhrase| + 2)
  {
    var i := |pre|;
    var j := i + |NoMatchPhrase| + 1;
    var k := j + 1;
    assert t[i..i + |line|] == line;
    assert line[..|NoMatchPhrase|] == NoMatchPhrase;
    assert t[i..i + |NoMatchPhrase|] == NoMatchPhrase;
    assert t[i + |NoMatchPhrase|] == ' ';
    assert t[j] == '"';
    assert line[k - i..k - i + |D|] == D;
    assert t[k..k + |D|] == D;
    assert t[k + |D| - 1] == D[|D| - 1];
    assert t[k + |D|] == '"';
    assert WordBoundary(t, k + |D|);
  }

  const ExampleName := "example"
  const ExampleTld := "com"
  const ExampleReplyLine := "No match for \"EXAMPLE.COM\""

  lemma ExampleIsLabel()
    ensures SanitizeKeyword(ExampleName) == Some(ExampleName)
  {
    assert IsLabel(ExampleName);
    SanitizeKeepsLabels(ExampleName);
  }

  lemma ExampleReplyLineSpelled()
    ensures NoMatchPhrase + " \"" + Upper(DomainOf(ExampleName, ExampleTld)) + "\"" == ExampleReplyLine
  {
    var d := DomainOf(ExampleName, ExampleTld);
    assert d == "example.com";
    assert Upper(d) == "EXAMPLE.COM";
  }

  /** check_domain on a reply holding No match for "DOMAIN" for its own domain says available. */
  lemma NoMatchReplyMeansAvailable(keyword: string, tld: string, idna: string -> Result<string>,
                                   exchange: (Endpoint, string) -> Result<string>,
                                   line: string, pre: string, post: string)
    requires SanitizeKeyword(keyword).Some?
    requires line == NoMatchPhrase + " \"" + Upper(DomainOf(SanitizeKeyword(keyword).value, tld)) + "\""
    requires WhoisRaw(DomainOf(SanitizeKeyword(keyword).value, tld), tld, idna, exchange) == Ok(pre + line + post)
    ensures CheckDomain(keyword, tld, idna, exchange) == Available(DomainOf(SanitizeKeyword(keyword).value, tld))
  {
    var name := SanitizeKeyword(keyword).value;
    CheckDomainOnReply(keyword, tld, idna, exchange, pre + line + post);
    NoMatchLineMeansAvailable(name, tld, line, pre, post);
  }

  /**
   * check_domain("example", "com") on a reply that contains
   * No match for "EXAMPLE.COM" reports example.com as available.
   */
  lemma AvailableExample(idna: string -> Result<string>, exchange: (Endpoint, string) -> Result<string>,
                         pre: string, post: string)
    requires WhoisRaw(DomainOf(ExampleName, ExampleTld), ExampleTld, idna, exchange) == Ok(pre + ExampleReplyLine + post)
    ensures CheckDomain(ExampleName, ExampleTld, idna, exchange) == Available(DomainOf(ExampleName, ExampleTld))
  {
    ExampleIsLabel();
    ExampleReplyLineSpelled();
    NoMatchReplyMeansAvailable(ExampleName, ExampleTld, idna, exchange, ExampleReplyLine, pre, post);
  }

  // ---------------------------------------------------------------------
  // A registered domain
  // ---------------------------------------------------------------------

  /** The four lines of a registry reply for domain d. */
  function RegisteredLines(d: string, registrar: string, created: string, expires: string): seq<string> {
    [ DomainNameLabel + " " + Upper(d),
      RegistrarLabel + ": " + registrar,
      CreationDateLabel + ": " + created,
      ExpiryDateLabel + ": " + expires ]
  }

  /** What a field's line lemma needs of its value: non-empty, no leading whitespace, no newline. */
  predicate FieldText(v: string) {
    v != [] && !IsSpace(v[0]) && '\n' !in v
  }

  /** A field value with no surrounding whitespace, no newline and no letter h. */
  predicate PlainValue(v: string) {
    FieldText(v) && !IsSpace(v[|v| - 1]) && FoldFree(v, 'h')
  }

  lemma FoldFreeAppend(a: string, b: string, c: char)
    requires FoldFree(a, c) && FoldFree(b, c)
    ensures FoldFree(a + b, c)
  {
    forall k | 0 <= k < |a + b|
      ensures LowerChar((a + b)[k]) != c
    {
      if k >= |a| {
        assert (a + b)[k] == b[k - |a|];
      }
    }
  }

  /** Upper-casing changes neither the newlines nor the letters up to case. */
  lemma UpperKeeps(d: string, c: char)
    requires FoldFree(d, c) && '\n' !in d
    ensures FoldFree(Upper(d), c) && '\n' !in Upper(d)
  {
    forall k | 0 <= k < |d|
      ensures LowerChar(Upper(d)[k]) == LowerChar(d[k]) && Upper(d)[k] != '\n'
    {
    }
  }

  /** None of the configured TLDs contains the letter h. */
  lemma TldsLackH(tld: string)
    requires tld in WhoisServers
    ensures FoldFree(tld, 'h') && '\n' !in tld && tld != [] && IsLowerAscii(tld[|tld| - 1])
  {
    TableKeysAreLowerCase(tld);
  }

  /** The domain text of a label and a configured TLD. */
  lemma DomainText(name: string, tld: string)
    requires IsLabel(name) && FoldFree(name, 'h') && tld in WhoisServers
    ensures var D := Upper(DomainOf(name, tld));
      && FoldFree(D, 'h') && '\n' !in D && D != [] && IsWordChar(D[|D| - 1])
  {
    var d := DomainOf(name, tld);
    TldsLackH(tld);
    assert FoldFree(".", 'h');
    FoldFreeAppend(name, ".", 'h');
    FoldFreeAppend(name + ".", tld, 'h');
    assert '\n' !in name by {
      assert forall i :: 0 <= i < |name| ==> IsLabelChar(name[i]);
    }
    assert '\n' !in d;
    UpperKeeps(d, 'h');
    assert d[|d| - 1] == tld[|tld| - 1];
  }

  /** The reply's lines meet what the line lemmas ask. */
  lemma RegisteredLinesShape(name: string, tld: string, registrar: string, created: string, expires: string)
    requires IsLabel(name) && FoldFree(name, 'h') && tld in WhoisServers
    requires PlainValue(registrar) && PlainValue(created) && PlainValue(expires)
    ensures var ls := RegisteredLines(DomainOf(name, tld), registrar, created, expires);
      && OneLineEach(ls)
      && (forall n :: 0 <= n < |ls| ==> FoldFree(ls[n], 'h'))
  {
    DomainText(name, tld);
    LabelsLackH();
    PlainLine(DomainNameLabel + " ", Upper(DomainOf(name, tld)));
    PlainLine(RegistrarLabel + ": ", registrar);
    PlainLine(CreationDateLabel + ": ", created);
    PlainLine(ExpiryDateLabel + ": ", expires);
  }

  /** The fixed text before each value holds neither a newline nor an h. */
  lemma LabelsLackH()
    ensures FoldFree(DomainNameLabel + " ", 'h') && '\n' !in DomainNameLabel + " "
    ensures FoldFree(RegistrarLabel + ": ", 'h') && '\n' !in RegistrarLabel + ": "
    ensures FoldFree(CreationDateLabel + ": ", 'h') && '\n' !in CreationDateLabel + ": "
    ensures FoldFree(ExpiryDateLabel + ": ", 'h') && '\n' !in ExpiryDateLabel + ": "
  {
  }

  /** Two pieces free of newlines and of h make a line free of both. */
  lemma PlainLine(head: string, v: string)
    requires FoldFree(head, 'h') && '\n' !in head && FoldFree(v, 'h') && '\n' !in v
    ensures FoldFree(head + v, 'h') && '\n' !in head + v
  {
    FoldFreeAppend(head, v, 'h');
  }

  /** The domain of a label and a configured TLD, upper-cased, holds no newline. */
  lemma DomainHasNoNewline(name: string, tld: string)
    requires IsLabel(name) && tld in WhoisServers
    ensures '\n' !in Upper(DomainOf(name, tld))
  {
    var d := DomainOf(name, tld);
    TableKeysAreLowerCase(tld);
    forall k | 0 <= k < |d|
      ensures Upper(d)[k] != '\n'
    {
      if k < |name| {
        assert d[k] == name[k] && IsLabelChar(name[k]);
      } else if k > |name| {
        assert d[k] == tld[k - |name| - 1];
      }
    }
  }

  /** Newline-free values make a reply of four newline-free lines. */
  lemma RegisteredLinesOneEach(name: string, tld: string, registrar: string, created: string, expires: string)
    requires IsLabel(name) && tld in WhoisServers
    requires '\n' !in registrar && '\n' !in created && '\n' !in expires
    ensures OneLineEach(RegisteredLines(DomainOf(name, tld), registrar, created, expires))
  {
    DomainHasNoNewline(name, tld);
    LabelsLackH();
  }

  /** The first letters that tell the four lines apart. */
  lemma RegisteredLinesStart(d: string, registrar: string, created: string, expires: string)
    ensures var ls := RegisteredLines(d, registrar, created, expires);
      && ls[0] != [] && ls[0][0] == 'D'
      && |ls[1]| > 7 && ls[1][0] == 'R' && ls[1][7] == 'a'
      && ls[2] != [] && ls[2][0] == 'C'
  {
    var ls := RegisteredLines(d, registrar, created, expires);
    assert ls[0][..|DomainNameLabel|] == DomainNameLabel;
    assert ls[1][..|RegistrarLabel|] == RegistrarLabel;
    assert ls[2][..|CreationDateLabel|] == CreationDateLabel;
  }

  /**
   * Each field is found on its own line, for any values that are non-empty,
   * do not start with whitespace and hold no newline: no earlier line begins
   * with the field's label.
   */
  lemma RegisteredFieldsFound(name: string, tld: string, registrar: string, created: string, expires: string)
    requires IsLabel(name) && tld in WhoisServers
    requires FieldText(registrar) && FieldText(created) && FieldText(expires)
    ensures var t := JoinLines(RegisteredLines(DomainOf(name, tld), registrar, created, expires));
      && FieldValue(t, RegistrarLabel) == Some(registrar)
      && FieldValue(t, CreationDateLabel) == Some(created)
      && FieldValue(t, ExpiryDateLabel) == Some(expires)
  {
    var d := DomainOf(name, tld);
    var ls := RegisteredLines(d, registrar, created, expires);
    RegisteredLinesOneEach(name, tld, registrar, created, expires);
    RegisteredLinesStart(d, registrar, created, expires);
    RegistrarFound(ls, registrar);
    CreationDateFound(ls, created);
    ExpiryDateFound(ls, expires);
  }

  lemma RegistrarFound(ls: seq<string>, registrar: string)
    requires |ls| == 4 && OneLineEach(ls) && FieldText(registrar)
    requires ls[0] != [] && ls[0][0] == 'D' && ls[1] == RegistrarLabel + ": " + registrar
    ensures FieldValue(JoinLines(ls), RegistrarLabel) == Some(registrar)
  {
    DiffersAt(ls[0], RegistrarLabel + ":", 0);
    FieldOnLine(ls, RegistrarLabel, 1, registrar);
  }

  lemma CreationDateFound(ls: seq<string>, created: string)
    requires |ls| == 4 && OneLineEach(ls) && FieldText(created)
    requires ls[0] != [] && ls[0][0] == 'D' && ls[1] != [] && ls[1][0] == 'R'
    requires ls[2] == CreationDateLabel + ": " + created
    ensures FieldValue(JoinLines(ls), CreationDateLabel) == Some(created)
  {
    DiffersAt(ls[0], CreationDateLabel + ":", 0);
    DiffersAt(ls[1], CreationDateLabel + ":", 0);
    FieldOnLine(ls, CreationDateLabel, 2, created);
  }

  lemma ExpiryDateFound(ls: seq<string>, expires: string)
    requires |ls| == 4 && OneLineEach(ls) && FieldText(expires)
    requires ls[0] != [] && ls[0][0] == 'D' && |ls[1]| > 7 && ls[1][0] == 'R' && ls[1][7] == 'a'
    requires ls[2] != [] && ls[2][0] == 'C'
    requires ls[3] == ExpiryDateLabel + ": " + expires
    ensures FieldValue(JoinLines(ls), ExpiryDateLabel) == Some(expires)
  {
    DiffersAt(ls[0], ExpiryDateLabel + ":", 0);
    DiffersAt(ls[1], ExpiryDateLabel + ":", 7);
    DiffersAt(ls[2], ExpiryDateLabel + ":", 0);
    FieldOnLine(ls, ExpiryDateLabel, 3, expires);
  }

  /**
   * A reply made of the lines Domain Name, Registrar, Creation Date and
   * Registry Expiry Date for the queried domain reads as Registered, with
   * the registrar as written and the dates passed through format_date.
   */
  lemma RegisteredReplyReads(name: string, tld: string, registrar: string, created: string, expires: string)
    requires IsLabel(name) && FoldFree(name, 'h') && tld in WhoisServers
    requires PlainValue(registrar) && PlainValue(created) && PlainValue(expires)
    ensures var d := DomainOf(name, tld);
      Classify(d, JoinLines(RegisteredLines(d, registrar, created, expires)))
        == Registered(d, registrar, FormatDate(created), FormatDate(expires))
  {
    var d := DomainOf(name, tld);
    var ls := RegisteredLines(d, registrar, created, expires);
    var t := JoinLines(ls);
    DomainText(name, tld);
    RegisteredLinesShape(name, tld, registrar, created, expires);
    FoldFreeJoin(ls, 'h');
    NoLetterHNoPhrase(t, Upper(d));
    DomainNameOnFirstLine(ls, Upper(d));
    DomainStartsAlnum(name, tld);
    RegisteredFieldsFound(name, tld, registrar, created, expires);
    StripFixed(registrar);
  }

  const ExampleRegistrar := "Example Registrar, Inc."
  const ExampleCreated := SampleDate + "T" + SampleTime + "Z"
  const ExampleExpires := ExpiryDate + "T" + SampleTime + "Z"

  /** The sample values: no surrounding whitespace, no newline, no letter h. */
  lemma ExampleNameIsPlain()
    ensures IsLabel(ExampleName) && FoldFree(ExampleName, 'h')
  {
  }

  lemma ExampleRegistrarIsPlain()
    ensures PlainValue(ExampleRegistrar)
  {
  }

  lemma ExampleDatesArePlain()
    ensures PlainValue(ExampleCreated) && PlainValue(ExampleExpires)
  {
  }

  /**
   * A sample reply for example.com -- Domain Name: EXAMPLE.COM,
   * Registrar: Example Registrar, Inc., Creation Date: 1995-08-14T04:00:00Z,
   * Registry Expiry Date: 2025-08-13T04:00:00Z -- reads as Registered with
   * registrar "Example Registrar, Inc." and dates 1995-08-14 and 2025-08-13.
   */
  lemma RegisteredExample(idna: string -> Result<string>, exchange: (Endpoint, string) -> Result<string>)
    requires var d := DomainOf(ExampleName, ExampleTld);
      WhoisRaw(d, ExampleTld, idna, exchange)
        == Ok(JoinLines(RegisteredLines(d, ExampleRegistrar, ExampleCreated, ExampleExpires)))
    ensures CheckDomain(ExampleName, ExampleTld, idna, exchange)
      == Registered(DomainOf(ExampleName, ExampleTld), ExampleRegistrar, SampleDate, ExpiryDate)
  {
    ExampleIsLabel();
    ExampleNameIsPlain();
    ExampleRegistrarIsPlain();
    ExampleDatesArePlain();
    ZuluTimestampExample();
    ExpiryTimestampExample();
    RegisteredReplyReads(ExampleName, ExampleTld, ExampleRegistrar, ExampleCreated, ExampleExpires);
  }
}
