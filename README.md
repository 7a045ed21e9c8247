# crurlrc redirect checker, modelled in Dafny

crurlrc checks whether a URL redirects. For each URL it sends one bare
HTTP/1.0 `HEAD` request and reads the whole reply. It parses the status line,
the headers and the body without an HTTP library. It reports a `URLResult`
carrying the status and the `Location` target when the status is a redirect.

This project models the core of `src/lib.rs`. There are four parts.

1. The URL decomposer (module `Url`):
   - the port and TLS flag come from a substring test for "https";
   - the scheme is cut off at "://";
   - the rest splits into a server and a path at the first '/';
   - the default port is appended to a server that has no ':';
   - there is also the name the TLS handshake checks.
2. The request builder (module `Request`).
3. The response parser (module `Parser`):
   - the status line is read as `scan!` reads it;
   - every copy of the status line is removed;
   - the text is split at the first blank line;
   - the header lines are folded into a map by a loop (`ReadHeaders`).
4. The redirect classifier (module `Redirect`): `is_redirect`,
   `get_redirect_url` and `check_url`.

Module `Client` joins these parts into `get`. The network exchange is an
input of type `Exchange`:
- opening the connection failed (the name did not resolve, the host could not
  be reached, or the connection was refused);
- a later transport step panicked;
- or the reply arrived, already decoded to text.

Module `Strings` models the Rust `str` operations the code uses:
- `contains` and `find`;
- `split` with a string pattern, and `join`;
- `replace`;
- `strip_prefix` and `strip_suffix`;
- `split_whitespace`;
- `u16` parsing and decimal formatting.

Module `Scenarios` proves concrete URLs and replies from end to end.

Rust panics become explicit faults (type `Types.Fault`). `check_url` returns
a `Redirect.CheckOutcome`:
- `Checked(verdict)` is a run that returns the `Option<URLResult>`. A failure
  to open the connection is the one `Err` that `get` returns, and it gives
  `Checked(None)`.
- `Aborted(fault)` is a run that panics at that point and ends the process.
  The one exception is `VersionOutsideModel`. It marks a reply whose HTTP
  version is not a digit, a point and a digit, which the model does not
  follow (see "## Left out").

Where the code and the intended behaviour of the crate differ, the model
follows the code:

- Only a failure to open the TCP connection makes `check_url` silently return no
  result. These failures panic instead:
  - a failed TLS handshake;
  - a failed read;
  - invalid UTF-8;
  - a status line that does not match;
  - a missing blank line;
  - a malformed header line;
  - a redirect without `Location`.
- Removing the status line removes its line break too. A reply with no
  header lines, such as "HTTP/1.0 200 OK\r\n\r\nhi", then has no blank line
  left and panics. See `Parser.NoHeadersNoSeparator` and
  `Scenarios.OkWithoutHeaders`.
- An https URL with an explicit port other than 443 has no ":443" to strip
  before the handshake, so it panics once connected. See
  `Scenarios.ExplicitPortOverTls`.
- The status line is removed with `replace`, so every copy of it goes, not
  only the first.
- The body is the text between the first blank line and the next one.
  Anything after a second blank line is dropped. See `Parser.ParseBody` and
  `Scenarios.BodyCutAtSecondBlankLine`.
- The URL-change branch of `check_url` can never fire, because `get` always
  reports the URL it was given.
- "https" anywhere in the URL selects TLS and port 443, including in the
  path. A second "://" cuts the URL short.
- `is_redirect` holds for 301 to 398. Both 300 and 399 are excluded.

## Model

| member | source | states |
|---|---|---|
| Strings.ContainsIff | src/lib.rs:54 | `contains` holds exactly when the pattern occurs at some index |
| Strings.IndexOf | src/lib.rs:54 | the result is the first index at which the pattern occurs; None means it occurs nowhere |
| Strings.SplitOn | src/lib.rs:60 | the pieces joined with the separator give the input back; no piece holds the separator; there are two or more pieces exactly when the separator occurs; the first piece ends at the first occurrence |
| Strings.SplitOnRest | src/lib.rs:60 | the first piece is the text before the first separator, and the later pieces are the split of the text after it |
| Strings.SecondPiece | src/lib.rs:60 | the second piece of a split starts just after the first separator; no separator starts inside it; it ends where the next separator starts, or at the end |
| Strings.JoinStartsWith | src/lib.rs:110 | a join begins with its first part |
| Strings.JoinEndsWith | src/lib.rs:110 | a join ends with its last part |
| Strings.SplitOfJoin | src/lib.rs:106 | splitting undoes joining when no part holds the separator or ends in one of its characters |
| Strings.SplitAfter | src/lib.rs:101 | a first piece free of the separator is split off, and the rest is split as if on its own |
| Strings.Replace | src/lib.rs:95-98 | text without the pattern is returned unchanged |
| Strings.ReplaceIsSplitJoin | src/lib.rs:95-98 | `replace` equals splitting on the pattern and joining with the replacement |
| Strings.ReplaceLeading | src/lib.rs:95-98 | a leading occurrence is replaced, and the search resumes right after it |
| Strings.StripPrefix | src/lib.rs:66 | the result is present exactly when the prefix begins the text, and the prefix plus the result is the text |
| Strings.StripSuffix | src/lib.rs:78 | the result is present exactly when the text ends in the suffix, and the result plus the suffix is the text |
| Strings.Tokens | src/lib.rs:108 | every token is a non-empty run of non-whitespace characters |
| Strings.WordEnd | src/lib.rs:108 | a token extends over non-whitespace up to the next whitespace character or the end |
| Strings.TokensOfJoin | src/lib.rs:108-110 | `split_whitespace` of words joined by single spaces gives back those words |
| Strings.Decimal | src/lib.rs:68 | the decimal form is all digits, denotes the number and has no leading zero |
| Strings.ParseU16 | src/lib.rs:94 | the token parses exactly when it is ASCII digits, with or without a leading '+', whose value is below 65536; the result is the value of those digits |
| Strings.ParseU16OfDecimal | src/lib.rs:94-96 | parsing the printed form of a 16-bit value gives the value back |
| Strings.TakeUntil | src/lib.rs:94 | the capture holds no delimiter; when the delimiter occurs, it is consumed; otherwise the whole input is captured |
| Strings.TakeUntilField | src/lib.rs:94 | a field free of the delimiter, followed by the delimiter, is captured whole |
| Url.PortAndTls | src/lib.rs:54-58 | TLS exactly when "https" occurs anywhere in the URL, with port 443; port 80 otherwise |
| Url.AfterScheme | src/lib.rs:59-63 | the kept text holds no "://"; a URL without "://" is kept whole |
| Url.AfterSchemeSegment | src/lib.rs:59-63 | the kept text starts right after the first "://" and ends at the next "://" or at the end of the URL |
| Url.Server | src/lib.rs:65 | the server is a prefix of the text, holds no '/' and ends at the first '/' or at the end |
| Url.PathAfter | src/lib.rs:66 | server followed by path is the stripped URL; the path is empty or starts with '/'; the "/" fallback is never taken |
| Url.WithPort | src/lib.rs:67-71 | ":" and the port are appended exactly when the server holds no ':' |
| Url.DefaultPorts | src/lib.rs:68 | the default ports print as "443" and "80" |
| Url.Decompose | src/lib.rs:53-71 | TLS iff "https" occurs; server plus path is the text after the scheme; the path is empty or starts with '/'; the address is the server, with ":443" or ":80" appended when the server has no ':' |
| Url.DecomposeOfParts | src/lib.rs:53-71 | scheme "://" host path decomposes into that host with its port, that path, and the TLS flag of the substring test |
| Url.ServerOfParts | src/lib.rs:65 | the server of a host followed by a path is the host |
| Url.TlsName | src/lib.rs:78 | a name exists exactly when the address ends in ":443"; the name followed by ":443" is the address |
| Url.TlsNameOfTarget | src/lib.rs:75-79 | for an https URL without a port, the handshake name is the bare server; with an explicit port, a name exists exactly when the port is ":443" |
| Request.RequestText | src/lib.rs:73 | for a path without CR, the request is exactly the `HEAD` request line, the user-agent line and a blank line |
| Request.RequestLineTokens | src/lib.rs:73 | the request line's words are the method, the path and the version |
| Parser.ScanStatusLine | src/lib.rs:93-94 | an accepted status line has a D.D version and a reason without CR; a rejection is a mismatch or a version outside the model |
| Parser.ScanFields | src/lib.rs:94 | as `ScanStatusLine`, for the captures after "HTTP/" |
| Parser.ScanFieldsFinds | src/lib.rs:94 | what the captures accepted is version, space, code token, space, reason, CR LF at the start of the text |
| Parser.ScanFindsLine | src/lib.rs:93-94 | the scanned values, printed with some spelling of the code, begin the response |
| Parser.ScanFieldsOf | src/lib.rs:94 | captures written out with their delimiters are read back unchanged |
| Parser.ScanOfStatusLine | src/lib.rs:94-96 | scanning the re-printed status line gives its values back, whatever follows it |
| Parser.StatusLineText | src/lib.rs:96 | the re-printed status line begins with "HTTP/" and ends with CRLF |
| Parser.HeadersAndBody | src/lib.rs:95-98 | a reply in which the status line does not occur is left unchanged |
| Parser.HeadersAndBodyPieces | src/lib.rs:95-98 | what is left is the text between the copies of the status line, put together |
| Parser.Lines | src/lib.rs:106 | the header block has at least one line, and a block without CRLF is one line |
| Parser.LinesJoin | src/lib.rs:106 | the lines joined with CRLF are the block, and no line holds CRLF |
| Parser.ParseHeaderLine | src/lib.rs:107-112 | no tokens means `EmptyHeaderLine`; a first token without a trailing ':' means `KeyWithoutColon`; otherwise the line parses, the key is the first token without its ':', and the value is the remaining tokens joined by single spaces |
| Parser.TokensOfHeaderLine | src/lib.rs:108 | a header line written as a key, ':' and words splits into the key with its colon, then the words |
| Parser.ParseOfHeaderLine | src/lib.rs:107-112 | such a line parses back to that key and to the words joined by single spaces |
| Parser.StripColon | src/lib.rs:109 | stripping ':' from the key's token gives the key |
| Parser.Headers | src/lib.rs:105-114 | no lines give the empty map, and the loop stops only with a header line's fault |
| Parser.HeadersOk | src/lib.rs:105-114 | the header loop finishes exactly when every line parses |
| Parser.HeadersFault | src/lib.rs:105-114 | when the loop stops, it reports the fault of the first line that does not parse |
| Parser.HeadersSnoc | src/lib.rs:113 | each line inserts its key and value into the map built before it |
| Parser.HeadersKeys | src/lib.rs:105-114 | a key is in the map exactly when some line defines it |
| Parser.HeadersLastWins | src/lib.rs:113 | a key's value comes from the last line that defines it |
| Parser.ReadHeaders | src/lib.rs:105-114 | the loop over the header lines gives the fold `Headers` over those lines |
| Parser.HeadersStop | src/lib.rs:106-113 | a line that does not parse, after lines that do, decides the loop's result |
| Parser.Parse | src/lib.rs:92-127 | the url is the one requested; the status is the scanned code; the body is never `Some("")`; the error set is listed; `NoBodySeparator` exactly when no blank line remains after the status line is removed |
| Parser.ParseParts | src/lib.rs:100-126 | the headers are the fold over the lines before the first blank line; body is Some exactly when the next piece is non-empty |
| Parser.ParseBody | src/lib.rs:100-103 | the body is the text right after the first blank line; no blank line starts inside it; it stops where the next one starts, or at the end |
| Parser.BodySegment | src/lib.rs:101-102 | the second piece of the split at blank lines runs from the first blank line up to the start of the next |
| Parser.ParseWellFormed | src/lib.rs:93-127 | status line, header lines, blank line and body parse to that status, the fold of those lines and that body, or None for an empty body |
| Parser.StatusLineRemoved | src/lib.rs:95-98 | removing a leading status line that does not recur leaves the rest |
| Parser.LinesOfBlock | src/lib.rs:106 | a header block written from header lines splits back into those lines |
| Parser.BodySplit | src/lib.rs:101 | the first blank line after the header block ends it, and a body without a blank line is the second piece |
| Parser.NoHeadersNoSeparator | src/lib.rs:95-102 | a status line followed directly by the blank line leaves no blank line, so the response stops with `NoBodySeparator` |
| Parser.SingleLineBreak | src/lib.rs:101 | one line break followed by text without CR has no blank line |
| Parser.HeaderLineNotEmpty | src/lib.rs:108-109 | a line that parses as a header is not empty and does not start with CR |
| Parser.BlockEnd | src/lib.rs:101 | the header block does not end in CR or LF |
| Parser.BlockFree | src/lib.rs:101 | the header block holds no blank line |
| Client.Fetch | src/lib.rs:52-129 | a successful response carries the requested url and is the parse of the reply; `IoError` exactly when the connection could not be opened; once connected, a TLS address without ":443" gives `TlsNameMissing`; otherwise a received reply gives its parse and a panicked transport gives `StreamFailed` |
| Client.Get | src/lib.rs:52-129 | running `get` step by step, with the header loop, gives `Fetch` |
| Redirect.AsI16 | src/lib.rs:21 | `as i16` gives a signed 16-bit value with the same bits |
| Redirect.WrapI16 | src/lib.rs:21 | the wrapped difference lies in the i16 range and is congruent to the exact one modulo 65536 |
| Redirect.IsRedirect | src/lib.rs:20-23 | true exactly for statuses 301 to 398 |
| Redirect.GetRedirectUrl | src/lib.rs:25-27 | the value of the exact key "Location"; `MissingLocation` exactly when it is absent |
| Redirect.Classify | src/lib.rs:29-50 | a connection that cannot be opened gives no result; other faults abort; a redirect gives status, requested url and Location, or aborts without Location; a changed url gives that url; otherwise no result |
| Redirect.CheckUrl | src/lib.rs:29-50 | filling in the `URLResult` field by field gives `Classify` of `Fetch` |
| Redirect.OnlyRedirectsReported | src/lib.rs:29-50 | every result reported has a status from 301 to 398, the requested url and the Location header as its target: the url-change branch never fires |
| Redirect.NonRedirectGivesNone | src/lib.rs:41-49 | a fetched response that is not a redirect gives no result |
| Redirect.ConnectFailureGivesNone | src/lib.rs:35-49 | a connection that cannot be opened gives no result |
| Redirect.RedirectTargetIsLastLocation | src/lib.rs:39 | the reported target is the value on the last header line whose key is exactly "Location" |
| Scenarios.BareServer | src/lib.rs:53-71 | "http://a.b" connects to "a.b:80", requests the empty path and uses no TLS |
| Scenarios.HttpsInPath | src/lib.rs:54-58 | "https" in the path alone selects TLS and port 443 |
| Scenarios.SecondSchemeSeparator | src/lib.rs:59-63 | the part after a second "://" is dropped |
| Scenarios.SecondSchemeRest | src/lib.rs:59-63 | the kept text of "http://a.b/x://y" is "a.b/x" |
| Scenarios.ExplicitPortTarget | src/lib.rs:54-71 | an explicit port is kept, and TLS still comes from the scheme |
| Scenarios.ExplicitPortOverTls | src/lib.rs:75-79 | an https URL with port 8443 stops with `TlsNameMissing` once connected |
| Scenarios.OkWithoutHeaders | src/lib.rs:95-103 | "HTTP/1.0 200 OK\r\n\r\nhi" aborts with `NoBodySeparator` |
| Scenarios.MovedPermanently | src/lib.rs:29-50 | a 301 reply with "Location: /b" gives the result (301, requested url, "/b") |
| Scenarios.BodyCutAtSecondBlankLine | src/lib.rs:101-102 | "A\r\n\r\nB\r\n\r\nC" splits into three pieces, and the body piece is "B" |
| Scenarios.OverlappingBlankLines | src/lib.rs:101 | "A\r\n\r\nB\r\n\r\n\r\nC" splits into "A", "B" and "\r\nC" |
| Scenarios.MovedResponse | src/lib.rs:93-127 | that reply parses to status 301, no body and the single header Location "/b" |

## Left out

- TCP connection, TLS session, writing the request and reading the reply (src/lib.rs lines 75-90) are not modelled as I/O. They become the `Client.Exchange` input. A failed or partial write is ignored by the code, so it is not modelled.
- `TlsConnector::new()` (line 76) is assumed to succeed; its panic is not modelled.
- Client.Fetch: a failed TLS handshake, a failed read and invalid UTF-8 (lines 79, 82, 88, 92) are one fault, `StreamFailed`; which of them happened is not distinguished.
- UTF-8 decoding (line 92) is not modelled. The reply arrives as text, and `scan!`, which reads the raw bytes, is modelled on that text. The two agree when the status line is ASCII.
- Parser.ScanFields: the version is read as an `f32` and printed back with `{:.1}`. Only versions of the form digit, point, digit are modelled, since they print back unchanged. Any other version token gives `VersionOutsideModel`, not the float parse and re-printing.
- Parser.ScanFields: a failed `u16` parse, a missing delimiter and any other `scan!` failure are all `StatusLineMismatch`.
- Redirect.IsRedirect: subtraction wraps as in a release build. In a debug build, statuses 32768 to 33067 overflow `i16` and panic; that is not modelled.
- `HashMap` ordering and hashing are not modelled; the headers are a `map`.
- There is no timeout and reads block indefinitely; timing is not modelled.
- `src/main.rs` (argument handling, printing, the loop over URLs) is not part of this model.
