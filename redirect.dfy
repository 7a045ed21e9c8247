/**
 * The redirect classifier (src/lib.rs, lines 20-50): `is_redirect`,
 * `get_redirect_url` and `check_url`, with the exchange `get` would have had
 * with the server passed in.
 */
module Redirect {
  import opened Wrappers
  import opened Strings
  import opened Types
  import opened Parser
  import opened Client

  /** `x as i16` for a `u16`: the same bits read as two's complement. */
  function AsI16(x: u16): (v: int)
    ensures -0x8000 <= v < 0x8000
    ensures v % 0x1_0000 == x
  {
    if x < 0x8000 then x else x - 0x1_0000
  }

  /** An `i16` result of wrapping arithmetic: `v` reduced into -32768..32767. */
  function WrapI16(v: int): (w: int)
    ensures -0x8000 <= w < 0x8000
    ensures (w - v) % 0x1_0000 == 0
  {
    (v + 0x8000) % 0x1_0000 - 0x8000
  }

  /**
   * Lines 20-23: `status as i16 - 300` strictly between 0 and 99, with the
   * subtraction wrapping as in a release build. Exactly 301 to 398.
   */
  function IsRedirect(resp: Response): (b: bool)
    ensures b <==> 301 <= resp.status <= 398
  {
    var s := WrapI16(AsI16(resp.status) - 300);
    0 < s && s < 99
  }

  const LOCATION: string := "Location"

  /** Lines 25-27: the "Location" header, looked up by exact, case-sensitive key. */
  function GetRedirectUrl(resp: Response): (r: Result<string, Fault>)
    ensures r.Ok? <==> LOCATION in resp.headers
    ensures r.Ok? ==> r.value == resp.headers[LOCATION]
    ensures r.Err? ==> r.error == MissingLocation
  {
    if LOCATION in resp.headers then Ok(resp.headers[LOCATION]) else Err(MissingLocation)
  }

  /**
   * How a check of one URL ends: with the `Option<URLResult>` that
   * `check_url` returns, or aborted by a panic.
   */
  datatype CheckOutcome = Checked(verdict: Option<URLResult>) | Aborted(fault: Fault)

  /** Lines 29-50, given what `get` returned. */
  function Classify(url: string, fetched: Result<Response, Fault>): (r: CheckOutcome)
    ensures fetched == Err(IoError) ==> r == Checked(None)
    ensures fetched.Err? && fetched.error != IoError ==> r == Aborted(fetched.error)
    ensures r.Checked? && r.verdict.Some? ==>
              && fetched.Ok?
              && r.verdict.value.url == url
              && r.verdict.value.status == fetched.value.status
              && (IsRedirect(fetched.value) || fetched.value.url != url)
    ensures fetched.Ok? && IsRedirect(fetched.value) ==>
              r == (if LOCATION in fetched.value.headers
                    then Checked(Some(URLResult(fetched.value.status, url, fetched.value.headers[LOCATION])))
                    else Aborted(MissingLocation))
    ensures fetched.Ok? && !IsRedirect(fetched.value) ==>
              r == Checked(if fetched.value.url == url then None
                           else Some(URLResult(fetched.value.status, url, fetched.value.url)))
  {
    match fetched
    case Err(f) => if f == IoError then Checked(None) else Aborted(f)
    case Ok(c) =>
      if IsRedirect(c) then
        match GetRedirectUrl(c)
        case Err(f) => Aborted(f)
        case Ok(location) => Checked(Some(URLResult(c.status, url, location)))
      else if c.url != url then Checked(Some(URLResult(c.status, url, c.url)))
      else Checked(None)
  }

  /** Lines 29-50: `check_url`, filling in its `URLResult` field by field. */
  method CheckUrl(url: string, ex: Exchange) returns (outcome: CheckOutcome)
    ensures outcome == Classify(url, Fetch(url, ex))
  {
    var result := URLResult(0, url, []);
    var fetched := Get(url, ex);
    match fetched {
      case Ok(c) =>
        if IsRedirect(c) {
          result := result.(status := c.status);
          var location := GetRedirectUrl(c);
          if location.Err? {
            return Aborted(location.error);
          }
          result := result.(redirectTo := location.value);
          return Checked(Some(result));
        } else if c.url != url {
          result := result.(status := c.status);
          result := result.(redirectTo := c.url);
          return Checked(Some(result));
        }
      case Err(f) =>
        if f != IoError {
          return Aborted(f);
        }
    }
    return Checked(None);
  }

  /**
   * `get` always reports the URL it was asked for, so the second branch of
   * `check_url` (a changed URL) is never taken: a check reports a result only
   * for a redirect status, and then the redirect target is the "Location"
   * header.
   */
  lemma OnlyRedirectsReported(url: string, ex: Exchange)
    ensures var r := Classify(url, Fetch(url, ex));
            r.Checked? && r.verdict.Some? ==>
              && 301 <= r.verdict.value.status <= 398
              && r.verdict.value.url == url
              && r.verdict.value.redirectTo == Fetch(url, ex).value.headers[LOCATION]
  {
  }

  /** A response that is not a redirect ends the check with no result. */
  lemma NonRedirectGivesNone(url: string, ex: Exchange)
    requires Fetch(url, ex).Ok? && !IsRedirect(Fetch(url, ex).value)
    ensures Classify(url, Fetch(url, ex)) == Checked(None)
  {
  }

  /** A connection that cannot be opened ends the check with no result. */
  lemma ConnectFailureGivesNone(url: string)
    ensures Classify(url, Fetch(url, ConnectFailed)) == Checked(None)
  {
  }

  /**
   * For a redirect, the target reported is the value of the last header line
   * whose key is exactly "Location".
   */
  lemma RedirectTargetIsLastLocation(url: string, ex: Exchange)
    requires Fetch(url, ex).Ok? && IsRedirect(Fetch(url, ex).value)
    requires Classify(url, Fetch(url, ex)).Checked?
    ensures ex.Received?
    ensures var text := ex.text;
            var hb := HeadersAndBody(text, ScanStatusLine(text).value);
            var lines := Lines(SplitOn(hb, BLANK_LINE)[0]);
            exists i :: LastDefinition(lines, LOCATION, i)
                        && Classify(url, Fetch(url, ex)).verdict.value.redirectTo
                           == ParseHeaderLine(lines[i]).value.value
  {
    var text := ex.text;
    var hb := HeadersAndBody(text, ScanStatusLine(text).value);
    var lines := Lines(SplitOn(hb, BLANK_LINE)[0]);
    var resp := Fetch(url, ex).value;
    assert Fetch(url, ex) == Parse(url, text);
    ParseParts(url, text);
    assert Classify(url, Fetch(url, ex)).verdict.value.redirectTo == resp.headers[LOCATION];
    HeadersLastWins(lines, LOCATION);
  }
}
