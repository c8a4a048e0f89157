/**
 * The WHOIS_SERVERS table (api/check.py:12-21) and whois_raw
 * (api/check.py:38-53) with its socket exchange taken as a parameter.
 */
module Registry {
  import opened Wrappers
  import opened Text

  /** TLD -> WHOIS server host, fixed at start-up. */
  const WhoisServers: map<string, string> := map[
    "com" := "whois.verisign-grs.com",
    "net" := "whois.verisign-grs.com",
    "org" := "whois.pir.org",
    "co" := "whois.nic.co",
    "xyz" := "whois.nic.xyz",
    "io" := "whois.nic.io",
    "online" := "whois.nic.online",
    "app" := "whois.nic.google"
  ]

  const WhoisPort: int := 43

  const TimeoutSeconds: int := 8

  /** Where the query goes: socket.create_connection((host, port), timeout=...). */
  datatype Endpoint = Endpoint(host: string, port: int, timeoutSeconds: int)

  /** The ValueError message for a TLD without a server; it ends with ".tld". */
  function NotConfigured(tld: string): (m: string)
    ensures |m| > |tld| + 1 && m[|m| - |tld| - 1..] == "." + tld
  {
    "\U{274C} WHOIS server not configured for ." + tld
  }

  /** WHOIS_SERVERS.get(tld) followed by the `if not server` test. */
  function LookupServer(tld: string): (r: Result<string>)
    ensures r.Ok? <==> tld in WhoisServers
    ensures r.Ok? ==> r.value == WhoisServers[tld] && r.value != []
    ensures r.Err? ==> r.error == NotConfigured(tld)
  {
    if tld in WhoisServers && WhoisServers[tld] != "" then Ok(WhoisServers[tld])
    else Err(NotConfigured(tld))
  }

  /** Every configured TLD is a non-empty run of lower-case ASCII letters. */
  lemma TableKeysAreLowerCase(tld: string)
    requires tld in WhoisServers
    ensures tld != [] && forall i :: 0 <= i < |tld| ==> IsLowerAscii(tld[i])
  {
  }

  /** A TLD with an upper-case letter, such as "COM", is not in the table. */
  lemma UpperCaseTldIsUnknown(tld: string, i: nat)
    requires i < |tld| && IsUpperAscii(tld[i])
    ensures tld !in WhoisServers
    ensures LookupServer(tld) == Err(NotConfigured(tld))
  {
    if tld in WhoisServers {
      TableKeysAreLowerCase(tld);
    }
  }

  /**
   * whois_raw: IDNA-encode the domain (idna stands for
   * domain.encode("idna").decode("ascii")), look up the server, then run the
   * exchange (connect, send the query line, read to EOF, decode), which
   * yields the response text or the message of the error it raised.
   */
  function WhoisRaw(domain: string, tld: string, idna: string -> Result<string>,
                    exchange: (Endpoint, string) -> Result<string>): (r: Result<string>)
    ensures idna(domain).Err? ==> r == Err(idna(domain).error)
    ensures idna(domain).Ok? && tld !in WhoisServers ==> r == Err(NotConfigured(tld))
    ensures idna(domain).Ok? && tld in WhoisServers ==>
      r == exchange(Endpoint(WhoisServers[tld], WhoisPort, TimeoutSeconds), idna(domain).value + "\r\n")
  {
    match idna(domain)
    case Err(e) => Err(e)
    case Ok(ascii) =>
      match LookupServer(tld)
      case Err(e) => Err(e)
      case Ok(server) => exchange(Endpoint(server, WhoisPort, TimeoutSeconds), ascii + "\r\n")
  }
}
