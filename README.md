# WHOIS domain-availability checker, modelled in Dafny

The checker in `api/check.py` turns a keyword and a top-level domain into
one of five answers.

1. It cleans the keyword into a domain label (`sanitize_keyword`).
2. It builds `name.tld` and asks the TLD's WHOIS server about it
   (`whois_raw`, which uses the `WHOIS_SERVERS` table).
3. It reads the registry's reply with three regular expressions.
4. It returns one of "Invalid keyword", "Check failed",
   "Available for registration", "Registered" (with registrar and dates made
   readable by `format_date`), or "Check failed" with a 400-character
   snippet of the reply.

This project models that core as pure Dafny functions and proves what each
step promises. The modules are:

- `Text`: the Python string operations the code relies on: `str.strip`, ASCII
  `lower`/`upper`, `str.replace` with a one-character pattern, and the
  whitespace set of `str.isspace`/`\s`.
- `Sanitizer`: `sanitize_keyword`.
- `Dates`: `format_date`, with `datetime.fromisoformat` replaced by a
  restricted ISO recogniser and `strftime("%Y-%m-%d")` by zero-padded printing.
- `Registry`: the `WHOIS_SERVERS` table and `whois_raw`. The IDNA codec and
  the socket exchange are function parameters.
- `Patterns`: the three regular expressions of `check_domain`. Each has a
  declarative reading (which positions make up a match) and a scanner that
  searches the way Python's engine does: leftmost start first, greedy `\s*`
  with back-tracking for `(.+)$`. Lemmas show the two agree.
- `Checker`: `check_domain`, with a five-constructor `Outcome` datatype,
  and the promises of the decision list.
- `Replies`: replies written as a list of lines, and lemmas that find a
  field's value or rule out a pattern line by line.
- `Scenarios`: worked examples proved from the general lemmas: the sample
  dates, an available `example.com` and a registered `example.com`.

Some behaviours of `api/check.py` that the model keeps as written:

- `s.replace("Z", "+00:00")` rewrites every `Z` in a date, not only a
  trailing one.
- The field patterns' `\s*` after the colon also crosses newlines, so a
  value can come from the line after its label.
- The TLD is not lower-cased before the table lookup, so "COM" fails.

## Model

| member | source | states |
|---|---|---|
| `Text.LowerFolds` | api/check.py:57 | `lower()` keeps the length, leaves no upper-case ASCII letter, keeps every other character, and turns each upper-case letter into its own lower-case partner |
| `Text.LowerIdempotent` | api/check.py:57 | lower-casing twice is lower-casing once |
| `Text.UpperFolds` | api/check.py:84-87 | `upper()` keeps the length, leaves no lower-case ASCII letter, and every character folds under `re.I` to what the original folds to |
| `Text.LowerOfUpper` | api/check.py:84-87 | `lower(upper(s)) == lower(s)`: upper-casing the domain loses nothing the case-insensitive match compares |
| `Text.ReplaceChar` | api/check.py:32 | text without the pattern character is unchanged, and when the replacement lacks that character none is left |
| `Text.Strip` | api/check.py:30 | the result is the slice of s from StripStart(s); all that is cut on either side is whitespace, and the result neither starts nor ends with whitespace |
| `Text.StripIdempotent` | api/check.py:30 | stripping twice is stripping once |
| `Text.ReplaceCharPrefix` | api/check.py:32 | `replace` copies the text up to the first occurrence and writes the first character of the replacement there |
| `Text.ReplaceCharAppend` | api/check.py:32 | `replace` on a concatenation is the concatenation of the replacements |
| `Sanitizer.Filter` | api/check.py:57 | `re.sub(r"[^a-z0-9-]+", "", s)` leaves only characters of `[a-z0-9-]` |
| `Sanitizer.FilterIsSubsequence` | api/check.py:57 | the substitution's result is a subsequence of its input and keeps every `[a-z0-9-]` character (multiset counts agree) |
| `Sanitizer.FilterAppend` | api/check.py:57 | the substitution distributes over concatenation |
| `Sanitizer.StripIsRedundant` | api/check.py:57 | stripping before lower-casing and filtering never changes the filtered name |
| `Sanitizer.SanitizeKeyword` | api/check.py:55-60 | a result is a valid label (non-empty, `[a-z0-9-]` only, no hyphen at either end), equals the filtered lower-cased keyword, and is a subsequence of it; None exactly when the filtered name is empty or starts or ends with `-` |
| `Sanitizer.SanitizeKeepsLabels` | api/check.py:55-60 | every valid label sanitizes to itself |
| `Sanitizer.SanitizeIdempotent` | api/check.py:55-60 | sanitizing a sanitized keyword gives it back |
| `Sanitizer.SanitizeRejects` | api/check.py:58-59 | `""`, `"-abc"`, `"abc-"` and `"---"` sanitize to None |
| `Sanitizer.SanitizeToLabel` | api/check.py:58-60 | a keyword whose filtered lower-cased form is non-empty and hyphen-free at both ends sanitizes to exactly that form |
| `Sanitizer.SanitizeCleans` | api/check.py:57-60 | `" My-Site! "` sanitizes to `"my-site"` |
| `Dates.PadDigitsValue` | api/check.py:34 | printing the value of a digit string zero-padded to its own width gives the string back |
| `Dates.DigitsValuePad` | api/check.py:34 | reading back a number below 10^width, zero-padded to that width, gives the number |
| `Dates.ParseDate` | api/check.py:33 | an accepted date part is YYYY-MM-DD with a real Gregorian date (month 1-12, day within the month, leap years) |
| `Dates.StrftimeYmd` | api/check.py:34 | the printed date is YYYY-MM-DD shaped |
| `Dates.ParseStrftime` | api/check.py:33-34 | printing a date and parsing it back gives the date |
| `Dates.StrftimeParse` | api/check.py:33-34 | parsing a date string and printing the date gives the same string |
| `Dates.ParseIsoDateTime` | api/check.py:33 | an accepted timestamp begins with an accepted date, and that date is the result |
| `Dates.ZuluToOffset` | api/check.py:32 | after `s.replace("Z", "+00:00")` no `Z` is left, and text without a `Z` is unchanged |
| `Dates.IsIsoTimestamp` | api/check.py:31-35 | the `try` succeeds only on text whose own first ten characters are a valid date |
| `Dates.ZuluKeepsDatePrefix` | api/check.py:32 | when the rewritten text starts with a date, the rewrite left those ten characters alone |
| `Dates.FormatDate` | api/check.py:26-36 | empty input gives "Not available"; for a timestamp the result is the first ten characters of the stripped text and is a valid date; anything else gives the stripped text |
| `Dates.FormatDateIdempotent` | api/check.py:26-36 | formatting a formatted date changes nothing (except for whitespace-only input) |
| `Dates.NotAvailableIsKept` | api/check.py:28-29 | "Not available" formats to itself |
| `Dates.LetterStartIsKept` | api/check.py:35-36 | stripped text that starts with a letter (Z included, which the rewrite turns into `+`) is returned unchanged |
| `Dates.DateIsKept` | api/check.py:30-34 | a printed date formats to itself |
| `Dates.NonDateIsKept` | api/check.py:35-36 | stripped text without Z that has a non-digit, non-hyphen character in its first ten is returned unchanged |
| `Dates.ZuluTimestampFormats` | api/check.py:30-34 | `date + "T" + HH:MM:SS + "Z"` formats to `date` |
| `Dates.ZuluRewrite` | api/check.py:32 | the trailing Z of such a timestamp becomes `+00:00` and nothing else changes |
| `Dates.OffsetTimestampParses` | api/check.py:33 | `date + "T" + HH:MM:SS + "+00:00"` is read as that date |
| `Registry.NotConfigured` | api/check.py:43 | the ValueError message ends with a dot and the TLD |
| `Registry.LookupServer` | api/check.py:41-43 | the lookup succeeds exactly for a TLD in the table, giving its server; otherwise the error is the "not configured" message naming the TLD |
| `Registry.TableKeysAreLowerCase` | api/check.py:12-21 | every configured TLD is a non-empty run of lower-case ASCII letters |
| `Registry.UpperCaseTldIsUnknown` | api/check.py:41-43 | a TLD with an upper-case letter is not in the table and the lookup fails |
| `Registry.WhoisRaw` | api/check.py:38-53 | an IDNA error comes first; then a TLD missing from the table gives the "not configured" error; else the exchange goes to (server, 43) with timeout 8 and the query is the ASCII domain followed by CRLF |
| `Patterns.SkipSpace` | api/check.py:87 | greedy `\s*` stops at the first non-whitespace character or the end of the text |
| `Patterns.QuoteThenBoundaryAfterDomain` | api/check.py:84 | after a domain ending in a letter or digit, `"?\b` holds exactly when a non-word character or the end of the text follows |
| `Patterns.NoMatchForHereSound` | api/check.py:84 | the engine's attempt at a start position yields a match of the pattern there |
| `Patterns.NoMatchForHereComplete` | api/check.py:84 | any match at a start position is found by the engine's greedy attempt there |
| `Patterns.NoMatchForHereIff` | api/check.py:84 | the attempt at i succeeds if and only if some match starts at i |
| `Patterns.SearchNoMatchFor` | api/check.py:84 | the search from i succeeds if and only if some match starts at or after i |
| `Patterns.MatchesNoMatchFor` | api/check.py:84 | `re.search` of the rule succeeds if and only if the text contains "no match for" (any case), at least one whitespace character, an optional quote, and the upper-cased domain followed by `"?\b` |
| `Patterns.DomainNameHereSound` | api/check.py:87 | the engine's attempt at a start position yields a match there |
| `Patterns.DomainNameHereComplete` | api/check.py:87 | any match at a start position is found by the greedy attempt there |
| `Patterns.DomainNameHereIff` | api/check.py:87 | the attempt at p succeeds if and only if some match starts at p |
| `Patterns.SearchDomainName` | api/check.py:87 | the search from p succeeds if and only if some match starts at or after p |
| `Patterns.MatchesDomainName` | api/check.py:87 | `re.search` of the rule succeeds if and only if some line start, optional whitespace, "domain name:" (any case), optional whitespace and the upper-cased domain followed by a word boundary occur in order |
| `Patterns.LineEnd` | api/check.py:88 | `$` under `re.M`: the first newline at or after s, or the end of the text |
| `Patterns.BackOff` | api/check.py:88 | the last non-newline position before s, or None when there is none |
| `Patterns.ValueSplit` | api/check.py:88 | `(.+)` starts at the last position reachable by `\s*` that is not a newline; None when there is none |
| `Patterns.FieldLabelPosition` | api/check.py:88-90 | after a line start, the label can only sit where the whitespace run ends |
| `Patterns.FieldHere` | api/check.py:88-90 | the attempt at p yields the greedy match at p, or there is no match at p |
| `Patterns.FindField` | api/check.py:88-90 | the search yields the leftmost match with its greedy group, or there is no match |
| `Patterns.FieldValue` | api/check.py:88-90 | `group(1)` is the non-empty, newline-free rest of the line of the leftmost match; None exactly when nothing matches |
| `Patterns.FieldValueOfLeftmost` | api/check.py:88-90 | a greedy match that no other match precedes fixes `group(1)` |
| `Checker.Outcome.Status` | api/check.py:66-105 | the "status" entry is "Check failed" exactly for a failed query and for an unrecognised reply |
| `Checker.Outcome.Availability` | api/check.py:66-105 | the "available" entry is True exactly for an available domain and False exactly for a registered one |
| `Checker.Outcome.ErrorEntry` | api/check.py:66-82 | an "error" entry is present exactly for an invalid keyword and for a failed query |
| `Checker.DomainOf` | api/check.py:73 | `f"{name}.{tld}"` is the name, a dot at index len(name), then the TLD |
| `Checker.DomainOfInjective` | api/check.py:73 | for sanitized names, the domain determines both the name and the TLD |
| `Checker.Snippet` | api/check.py:104 | `resp[:400]`: a prefix of the reply of length min(400, len(resp)) |
| `Checker.RegistrarEntry` | api/check.py:95 | "Unknown" when no Registrar line matches, else the stripped value of the leftmost one; never contains a newline |
| `Checker.FieldDate` | api/check.py:96-97 | "Not available" when no line matches, else `format_date` of the leftmost value (its date when it is a timestamp, else the stripped value) |
| `Checker.RegisteredRecord` | api/check.py:88-98 | the "Registered" entries: registrar and both dates as above |
| `Checker.DomainStartsAlnum` | api/check.py:73 | `name.tld` of a sanitized name starts with a letter or digit |
| `Checker.Classify` | api/check.py:84-105 | "No match for" first, then "Domain Name:", else the snippet, each read through the rule's declarative meaning |
| `Checker.CheckDomain` | api/check.py:62-105 | "Invalid keyword" exactly when sanitizing fails; every other outcome carries `name.tld` for the sanitized name; answers from a reply only arise for a configured TLD |
| `Checker.StatusMatchesAvailability` | api/check.py:66-105 | "available" is True exactly for "Available for registration", False exactly for "Registered", None for the other statuses; outcomes with an "error" entry have no availability |
| `Checker.InvalidKeywordNeverQueries` | api/check.py:64-71 | an invalid keyword gives "Invalid keyword" with its fixed message, whatever IDNA and the network would do |
| `Checker.UnconfiguredTldFails` | api/check.py:41-43 | a TLD without a server gives "Check failed" for the domain, names the TLD once IDNA succeeds, and never depends on the network |
| `Checker.UpperCaseTldFails` | api/check.py:73 | a TLD with an upper-case letter gives "Check failed" |
| `Checker.QueryErrorFails` | api/check.py:74-82 | an IDNA, lookup or network error gives "Check failed" with the domain and the error's text |
| `Checker.ResponseDecides` | api/check.py:84-105 | with a reply in hand, the outcome is the one the ordered rules prescribe: a "No match for" match wins over a "Domain Name:" match |
| `Checker.CheckDomainOnReply` | api/check.py:74-75 | once the query returned text, the TLD is configured and `check_domain` is the classification of that text |
| `Replies.LineStartIsOffset` | api/check.py:88 | in a reply made of newline-free lines, every position where `^` matches under `re.M` is the offset of some line |
| `Replies.OffsetIsLineStart` | api/check.py:88 | conversely, `^` matches at the offset of every line |
| `Replies.FieldOnLine` | api/check.py:88-90 | a line "Label: v" (v not starting with whitespace) gives `group(1) == v` when every earlier line is non-empty, starts with a non-space character and does not begin with "Label:" (a shorter line, such as a prefix of the label, qualifies) |
| `Replies.NoFieldBeforeLine` | api/check.py:88-90 | under the same condition on the earlier lines, no match of the field pattern starts before line n |
| `Replies.NoLetterHNoPhrase` | api/check.py:84 | a reply without the letter h in any case cannot match the "No match for" rule |
| `Replies.DomainNameOnFirstLine` | api/check.py:87 | a first line "Domain Name: D", with D ending in a word character, matches the "Domain Name:" rule for D |
| `Scenarios.ZuluTimestampExample` | api/check.py:26-36 | `format_date("1995-08-14T04:00:00Z") == "1995-08-14"` |
| `Scenarios.ExpiryTimestampExample` | api/check.py:26-36 | `format_date("2025-08-13T04:00:00Z") == "2025-08-13"` |
| `Scenarios.FreeTextExample` | api/check.py:35-36 | `format_date("14-aug-1995") == "14-aug-1995"` |
| `Scenarios.EmptyDateExample` | api/check.py:28-29 | `format_date("") == "Not available"` |
| `Scenarios.QuotedDomainMatches` | api/check.py:84 | `No match for "D"` anywhere in a reply is a match of the rule |
| `Scenarios.NoMatchLineMeansAvailable` | api/check.py:84-85 | a reply containing `No match for "NAME.TLD"` classifies as available for a label and a configured TLD |
| `Scenarios.NoMatchReplyMeansAvailable` | api/check.py:84-85 | `check_domain` answers "Available for registration" for such a reply |
| `Scenarios.AvailableExample` | api/check.py:84-85 | `check_domain("example", "com")` on a reply containing `No match for "EXAMPLE.COM"` is Available with domain `example.com` |
| `Scenarios.RegisteredFieldsFound` | api/check.py:88-90 | in the four-line registered reply for any label and configured TLD, each field pattern finds its own line's value, for any values that are non-empty, newline-free and do not start with whitespace |
| `Scenarios.RegisteredReplyReads` | api/check.py:87-98 | a reply of Domain Name, Registrar, Creation Date and Registry Expiry Date lines reads as Registered with the registrar as written and the dates through `format_date`; only for values with no surrounding whitespace, no newline and no letter h or H, and a name without h (a registrar such as "NameCheap, Inc." is not covered) |
| `Scenarios.RegisteredExample` | api/check.py:87-98 | the example.com reply with "Example Registrar, Inc." and the two `Z` timestamps gives Registered, 1995-08-14, 2025-08-13 |

## Left out

- The socket connection, the send and the recv loop with its timeout (api/check.py:45-52) are network I/O. They are the `exchange` parameter of `Registry.WhoisRaw`, which yields the reply text or the error's message.
- `domain.encode("idna")` (api/check.py:40) is a foreign codec, including its label-length check. It is the `idna` parameter.
- Decoding the reply's bytes with `errors="ignore"` (api/check.py:53), which drops invalid bytes, belongs to the codec; the reply is taken as text.
- The Flask app, CORS, the `/check` route with its JSON decoding and 400 answer, and `app.run` (api/check.py:5-9, 107-121) are HTTP plumbing. The default `tld="com"` of `check_domain` is not modelled because the route always passes a TLD.
- `public/script.js` is browser UI and is not part of this model.
- Sanitizer.SanitizeKeyword: `lower()` is ASCII-only here. Python's Unicode `lower()` can produce ASCII letters from non-ASCII ones (U+0130 becomes "i" plus a combining dot, and the filter keeps the "i"). The model drops such characters instead.
- Patterns.MatchesNoMatchFor: case-insensitive matching is ASCII-only. Python's `re.I` also lets the Kelvin sign, long s, dotless i and capital I with dot above (U+0130) match k, s, i and i, so for instance `DOMAİN NAME:` matches in Python but not here. `\w` is ASCII-only too, so a non-ASCII letter right after the domain counts as a boundary here but not in Python.
- Patterns.MatchesDomainName: the same ASCII-only reading of `re.I` and `\b` as above.
- Patterns.MatchesNoMatchFor: the rule's meaning is proved for domains that start with a letter or digit. Every sanitized name does.
- Dates.ParseIsoDateTime: `datetime.fromisoformat` is read as `YYYY-MM-DD[(T|space)HH[:MM[:SS[.fff|.ffffff]]][(+|-)HH:MM[:SS]]]` only. Other inputs format to the stripped text, whereas Python may accept them. Among them:
  - another separator character;
  - offsets with fractions;
  - a fraction after the hour or the minute (`12.123`, `12:30.123`) and a colon before the fraction (`12:30:45:123`), which Python 3.7-3.10 accepts;
  - offsets whose minute or second field is 60-99, such as `+00:90`, which Python 3.7-3.10 accepts while the whole offset stays under 24 hours;
  - years 0001-0999, which `strftime("%Y")` would print unpadded;
  - the wider grammar of Python 3.11 and later.
- Scenarios.RegisteredReplyReads: proved only for values without surrounding whitespace, newlines or the letter h, and a name without h. The proof rules out the "No match for" phrase, which comes first, by the absence of h, and compares the registrar as written rather than stripped.
- Dates.FormatDate: the same restriction of the recogniser applies to its timestamp branch.
