/**
 * check_domain (api/check.py:62-105): sanitize the keyword, query WHOIS for
 * name.tld, and classify the response with the three patterns. The returned
 * dictionary is one of five outcomes.
 */
module Checker {
  import opened Wrappers
  import opened Text
  import opened Sanitizer
  import opened Dates
  import opened Registry
  import opened Patterns

  const InvalidKeywordError := "The keyword is not valid as a domain name."

  /** How much of an unrecognised response is echoed back under "raw". */
  const SnippetLength: nat := 400

  const UnknownRegistrar := "Unknown"

  /** The dictionaries check_domain returns, one constructor per return statement. */
  datatype Outcome =
    | InvalidKeyword
    | CheckFailed(domain: string, error: string)
    | Available(domain: string)
    | Registered(domain: string, registrar: string, creationDate: string, expirationDate: string)
    | Unrecognised(domain: string, raw: string)
  {
    /** The "status" entry; "Check failed" covers both a failed query and an unrecognised reply. */
    function Status(): (r: string)
      ensures r == "Check failed" <==> CheckFailed? || Unrecognised?
    {
      match this
      case InvalidKeyword => "Invalid keyword"
      case CheckFailed(_, _) => "Check failed"
      case Available(_) => "Available for registration"
      case Registered(_, _, _, _) => "Registered"
      case Unrecognised(_, _) => "Check failed"
    }

    /** The "available" entry: True, False, or None. */
    function Availability(): (r: Option<bool>)
      ensures r == Some(true) <==> Available?
      ensures r == Some(false) <==> Registered?
    {
      match this
      case Available(_) => Some(true)
      case Registered(_, _, _, _) => Some(false)
      case _ => None
    }

    /** The "error" entry, present for an invalid keyword and for a failed query. */
    function ErrorEntry(): (r: Option<string>)
      ensures r.Some? <==> InvalidKeyword? || CheckFailed?
    {
      match this
      case InvalidKeyword => Some(InvalidKeywordError)
      case CheckFailed(_, e) => Some(e)
      case _ => None
    }
  }

  /** resp[:400]. */
  function Snippet(resp: string): (r: string)
    ensures |r| == if |resp| < SnippetLength then |resp| else SnippetLength
    ensures r == resp[..|r|]
  {
    if |resp| <= SnippetLength then resp else resp[..SnippetLength]
  }

  /** f"{name}.{tld}": the name, a dot, then the TLD. */
  function DomainOf(name: string, tld: string): (d: string)
    ensures |d| == |name| + 1 + |tld|
    ensures d[..|name|] == name && d[|name|] == '.' && d[|name| + 1..] == tld
  {
    name + "." + tld
  }

  /**
   * A label has no dot, so name.tld determines both the name and the TLD:
   * the first dot of the domain is the one the f-string inserted.
   */
  lemma DomainOfInjective(name1: string, tld1: string, name2: string, tld2: string)
    requires IsLabel(name1) && IsLabel(name2)
    requires DomainOf(name1, tld1) == DomainOf(name2, tld2)
    ensures name1 == name2 && tld1 == tld2
  {
    var d := DomainOf(name1, tld1);
    if |name1| < |name2| {
      assert false;
    } else if |name2| < |name1| {
      assert false;
    }
  }

  /** The registrar entry: the stripped value of the first Registrar line, or "Unknown". */
  ghost predicate ReportedRegistrar(t: string, out: string) {
    || ((forall h :: !FieldMatch(t, RegistrarLabel, h)) && out == UnknownRegistrar)
    || exists v :: LeftmostValue(t, RegistrarLabel, v) && out == Strip(v)
  }

  /** What format_date makes of a field value v. */
  ghost predicate DateReading(v: string, out: string) {
    if IsIsoTimestamp(Strip(v)) then
      |Strip(v)| >= 10 && out == Strip(v)[..10] && ParseDate(out).Some?
    else
      out == Strip(v)
  }

  /** A date entry: "Not available" without a matching line, else the reading of the first one. */
  ghost predicate ReportedDate(t: string, name: string, out: string) {
    || ((forall h :: !FieldMatch(t, name, h)) && out == NotAvailable)
    || exists v :: LeftmostValue(t, name, v) && DateReading(v, out)
  }

  /** The entries of the "Registered" dictionary (api/check.py:88-98). */
  function RegisteredRecord(domain: string, resp: string): (r: Outcome)
    ensures r.Registered? && r.domain == domain
    ensures ReportedRegistrar(resp, r.registrar)
    ensures ReportedDate(resp, CreationDateLabel, r.creationDate)
    ensures ReportedDate(resp, ExpiryDateLabel, r.expirationDate)
    ensures forall i :: 0 <= i < |r.registrar| ==> r.registrar[i] != '\n'
  {
    Registered(domain, RegistrarEntry(resp), FieldDate(resp, CreationDateLabel), FieldDate(resp, ExpiryDateLabel))
  }

  /** registrar.group(1).strip() if registrar else "Unknown" */
  function RegistrarEntry(resp: string): (out: string)
    ensures ReportedRegistrar(resp, out)
    ensures forall i :: 0 <= i < |out| ==> out[i] != '\n'
  {
    match FieldValue(resp, RegistrarLabel)
    case Some(v) =>
      StripOmits(v, '\n');
      Strip(v)
    case None => UnknownRegistrar
  }

  /** format_date(m.group(1) if m else "") for one date field. */
  function FieldDate(resp: string, name: string): (out: string)
    requires IsFieldLabel(name)
    ensures ReportedDate(resp, name, out)
  {
    match FieldValue(resp, name)
    case Some(v) => FormatDate(v)
    case None => FormatDate("")
  }

  /**
   * The outcome the rules of api/check.py:84-105 prescribe for domain d and
   * response text t, read through the patterns' declarative meaning.
   */
  ghost predicate DecisionList(d: string, t: string, r: Outcome) {
    && (NoMatchForMatches(t, Upper(d)) ==> r == Available(d))
    && (!NoMatchForMatches(t, Upper(d)) && DomainNameMatches(t, Upper(d)) ==> r == RegisteredRecord(d, t))
    && (!NoMatchForMatches(t, Upper(d)) && !DomainNameMatches(t, Upper(d)) ==> r == Unrecognised(d, Snippet(t)))
  }

  /**
   * The decision list of api/check.py:84-105 on a response: the "No match
   * for" rule first, then the "Domain Name:" rule, else the snippet. The
   * domain always starts with a letter or digit, which the rules' readings need.
   */
  function Classify(domain: string, resp: string): (r: Outcome)
    ensures r.Available? || r.Registered? || r.Unrecognised?
    ensures r.domain == domain
    ensures StartsAlnum(domain) ==> DecisionList(domain, resp, r)
  {
    if MatchesNoMatchFor(resp, domain) then Available(domain)
    else if MatchesDomainName(resp, domain) then RegisteredRecord(domain, resp)
    else Unrecognised(domain, Snippet(resp))
  }

  /** A sanitized name is a label, so name.tld starts with a letter or digit. */
  lemma DomainStartsAlnum(name: string, tld: string)
    requires IsLabel(name)
    ensures StartsAlnum(DomainOf(name, tld))
  {
    assert DomainOf(name, tld)[0] == name[0];
  }

  /**
   * check_domain(keyword, tld), with idna standing for the IDNA encoding
   * and exchange for the socket round trip inside whois_raw.
   */
  function CheckDomain(keyword: string, tld: string, idna: string -> Result<string>,
                       exchange: (Endpoint, string) -> Result<string>): (r: Outcome)
    ensures r.InvalidKeyword? <==> SanitizeKeyword(keyword).None?
    ensures !r.InvalidKeyword? ==>
      SanitizeKeyword(keyword).Some? && r.domain == DomainOf(SanitizeKeyword(keyword).value, tld)
    ensures r.Available? || r.Registered? || r.Unrecognised? ==> tld in WhoisServers
  {
    match SanitizeKeyword(keyword)
    case None => InvalidKeyword
    case Some(name) =>
      var domain := DomainOf(name, tld);
      match WhoisRaw(domain, tld, idna, exchange)
      case Err(e) => CheckFailed(domain, e)
      case Ok(resp) => Classify(domain, resp)
  }

  // ---------------------------------------------------------------------
  // What check_domain promises
  // ---------------------------------------------------------------------

  /** "available" is True exactly for the available status, False exactly for "Registered". */
  lemma StatusMatchesAvailability(o: Outcome)
    ensures o.Availability() == Some(true) <==> o.Status() == "Available for registration"
    ensures o.Availability() == Some(false) <==> o.Status() == "Registered"
    ensures o.Availability().None? <==> o.Status() in {"Invalid keyword", "Check failed"}
    ensures o.ErrorEntry().Some? ==> o.Availability().None?
  {
  }

  /**
   * A keyword that sanitizes to nothing is answered with "Invalid keyword"
   * before any WHOIS work: the result is the same whatever the IDNA encoder
   * and the network would do.
   */
  lemma InvalidKeywordNeverQueries(keyword: string, tld: string,
                                   idna1: string -> Result<string>, exchange1: (Endpoint, string) -> Result<string>,
                                   idna2: string -> Result<string>, exchange2: (Endpoint, string) -> Result<string>)
    requires SanitizeKeyword(keyword).None?
    ensures CheckDomain(keyword, tld, idna1, exchange1) == InvalidKeyword
    ensures CheckDomain(keyword, tld, idna1, exchange1) == CheckDomain(keyword, tld, idna2, exchange2)
    ensures CheckDomain(keyword, tld, idna1, exchange1).ErrorEntry() == Some(InvalidKeywordError)
  {
  }

  /**
   * A TLD without a WHOIS server yields "Check failed" and never reaches the
   * network; once IDNA has accepted the domain, the error names the TLD.
   */
  lemma UnconfiguredTldFails(keyword: string, tld: string, idna: string -> Result<string>,
                             exchange1: (Endpoint, string) -> Result<string>,
                             exchange2: (Endpoint, string) -> Result<string>)
    requires SanitizeKeyword(keyword).Some? && tld !in WhoisServers
    ensures var r := CheckDomain(keyword, tld, idna, exchange1);
      && r.CheckFailed?
      && r.domain == DomainOf(SanitizeKeyword(keyword).value, tld)
      && (idna(r.domain).Ok? ==> r.error == NotConfigured(tld))
      && r == CheckDomain(keyword, tld, idna, exchange2)
  {
  }

  /** TLDs are matched case-sensitively: "COM" is not "com". */
  lemma UpperCaseTldFails(keyword: string, tld: string, i: nat, idna: string -> Result<string>,
                          exchange: (Endpoint, string) -> Result<string>)
    requires SanitizeKeyword(keyword).Some? && i < |tld| && IsUpperAscii(tld[i])
    ensures CheckDomain(keyword, tld, idna, exchange).CheckFailed?
  {
    UpperCaseTldIsUnknown(tld, i);
  }

  /** An IDNA or network error becomes "Check failed" carrying the error's text. */
  lemma QueryErrorFails(keyword: string, tld: string, idna: string -> Result<string>,
                        exchange: (Endpoint, string) -> Result<string>)
    requires SanitizeKeyword(keyword).Some?
    requires WhoisRaw(DomainOf(SanitizeKeyword(keyword).value, tld), tld, idna, exchange).Err?
    ensures CheckDomain(keyword, tld, idna, exchange) ==
      CheckFailed(DomainOf(SanitizeKeyword(keyword).value, tld),
                  WhoisRaw(DomainOf(SanitizeKeyword(keyword).value, tld), tld, idna, exchange).error)
  {
  }

  /**
   * With a response in hand, the rules decide in order: "No match for"
   * wins even when a "Domain Name:" line is present too.
   */
  lemma ResponseDecides(keyword: string, tld: string, idna: string -> Result<string>,
                        exchange: (Endpoint, string) -> Result<string>, resp: string)
    requires SanitizeKeyword(keyword).Some?
    requires WhoisRaw(DomainOf(SanitizeKeyword(keyword).value, tld), tld, idna, exchange) == Ok(resp)
    ensures tld in WhoisServers
    ensures DecisionList(DomainOf(SanitizeKeyword(keyword).value, tld), resp, CheckDomain(keyword, tld, idna, exchange))
  {
    CheckDomainOnReply(keyword, tld, idna, exchange, resp);
    DomainStartsAlnum(SanitizeKeyword(keyword).value, tld);
  }

  /** Once the query has returned text, check_domain is the classification of that text. */
  lemma CheckDomainOnReply(keyword: string, tld: string, idna: string -> Result<string>,
                           exchange: (Endpoint, string) -> Result<string>, resp: string)
    requires SanitizeKeyword(keyword).Some?
    requires WhoisRaw(DomainOf(SanitizeKeyword(keyword).value, tld), tld, idna, exchange) == Ok(resp)
    ensures tld in WhoisServers
    ensures CheckDomain(keyword, tld, idna, exchange) == Classify(DomainOf(SanitizeKeyword(keyword).value, tld), resp)
  {
  }
}
