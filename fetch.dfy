/**
 * `get` (src/lib.rs, lines 52-129) as a whole: the URL is decomposed, the
 * transport is given as an input (what the connection, the TLS handshake and
 * the read produced), and the decoded reply is parsed.
 */
module Client {
  import opened Wrappers
  import opened Strings
  import opened Types
  import opened Url
  import opened Parser

  /**
   * What one connection to the server produced: opening the connection
   * failed (the host did not resolve, could not be reached or refused), a
   * later step of the transport panicked, or the reply arrived and decoded to
   * `text`.
   */
  datatype Exchange = ConnectFailed | TransportPanicked | Received(text: string)

  /**
   * Lines 52-129: `Err(IoError)` when opening the connection fails (the one `?` in
   * `get`), an `Err` with any other fault where `get` panics, and the parsed
   * response otherwise.
   */
  function Fetch(url: string, ex: Exchange): (r: Result<Response, Fault>)
    ensures r.Ok? ==> r.value.url == url
    ensures r == Err(IoError) <==> ex == ConnectFailed
    ensures ex != ConnectFailed && Decompose(url).tls && TlsName(Decompose(url).address).None?
            ==> r == Err(TlsNameMissing)
    ensures r.Ok? ==> ex.Received? && Parse(url, ex.text) == r
    ensures ex.Received? && !(Decompose(url).tls && TlsName(Decompose(url).address).None?)
            ==> r == Parse(url, ex.text)
    ensures ex == TransportPanicked && !(Decompose(url).tls && TlsName(Decompose(url).address).None?)
            ==> r == Err(StreamFailed)
  {
    var target := Decompose(url);
    if ex == ConnectFailed then Err(IoError)
    else if target.tls && TlsName(target.address).None? then Err(TlsNameMissing)
    else if ex == TransportPanicked then Err(StreamFailed)
    else Parse(url, ex.text)
  }

  /** Lines 52-129, step by step, with the header loop run by `ReadHeaders`. */
  method Get(url: string, ex: Exchange) returns (r: Result<Response, Fault>)
    ensures r == Fetch(url, ex)
  {
    var target := Decompose(url);
    if ex == ConnectFailed {
      return Err(IoError);
    }
    if target.tls && TlsName(target.address).None? {
      return Err(TlsNameMissing);
    }
    if ex == TransportPanicked {
      return Err(StreamFailed);
    }
    var response := ex.text;
    var scanned := ScanStatusLine(response);
    if scanned.Err? {
      return Err(scanned.error);
    }
    var headersBody := HeadersAndBody(response, scanned.value);
    var v := SplitOn(headersBody, BLANK_LINE);
    if |v| < 2 {
      return Err(NoBodySeparator);
    }
    var processed := ReadHeaders(v[0]);
    if processed.Err? {
      return Err(processed.error);
    }
    var body := if v[1] != [] then Some(v[1]) else None;
    return Ok(Response(scanned.value.code, url, body, processed.value));
  }
}
