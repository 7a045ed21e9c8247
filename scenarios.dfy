/** Concrete checks of single URLs, end to end. */
module Scenarios {
  import opened Wrappers
  import opened Strings
  import opened Types
  import opened Url
  import opened Parser
  import opened Client
  import opened Redirect

  /** A URL with no path after the server asks for the empty path, on port 80. */
  lemma BareServer(url: string)
    requires url == "http://a.b"
    ensures Decompose(url) == Target("a.b:80", "", false)
  {
    var host, path := "a.b", "";
    assert ':' !in host && Decimal(80) == "80";
    assert WithPort(host, 80) == "a.b:80";
    assert url == "http" + SCHEME_SEPARATOR + (host + path);
    assert !Contains(url, "https") by {
      AbsentChar(url, "https", 4);
    }
    assert !Contains(host + path, SCHEME_SEPARATOR) by {
      AbsentChar(host + path, SCHEME_SEPARATOR, 0);
    }
    DecomposeOfParts("http", host, path);
  }

  /** "https" anywhere in the URL, even in its path, selects TLS on port 443. */
  lemma HttpsInPath(url: string)
    requires url == "http://a.b/https"
    ensures Decompose(url) == Target("a.b:443", "/https", true)
  {
    var host, path := "a.b", "/https";
    assert ':' !in host && Decimal(443) == "443";
    assert WithPort(host, 443) == "a.b:443";
    assert url == "http" + SCHEME_SEPARATOR + (host + path);
    assert OccursAt(url, "https", 11);
    assert !Contains(host + path, SCHEME_SEPARATOR) by {
      AbsentChar(host + path, SCHEME_SEPARATOR, 0);
    }
    DecomposeOfParts("http", host, path);
  }

  /** Only the text up to a second "://" is kept: the rest of the URL is dropped. */
  lemma SecondSchemeSeparator(url: string)
    requires url == "http://a.b/x://y"
    ensures Decompose(url) == Target("a.b:80", "/x", false)
  {
    var host, path := "a.b", "/x";
    assert ':' !in host && Decimal(80) == "80";
    assert WithPort(host, 80) == "a.b:80";
    assert !Contains(url, "https") by {
      AbsentChar(url, "https", 4);
    }
    SecondSchemeRest(url, host, path);
    ServerOfParts(host, path);
  }

  /** The text kept from "http://a.b/x://y" is "a.b/x". */
  lemma SecondSchemeRest(url: string, host: string, path: string)
    requires url == "http://a.b/x://y" && host == "a.b" && path == "/x"
    ensures AfterScheme(url) == host + path
  {
    var scheme, tail := "http", "y";
    var kept := host + path;
    assert url == scheme + SCHEME_SEPARATOR + (kept + SCHEME_SEPARATOR + tail);
    AbsentChar(scheme, SCHEME_SEPARATOR, 0);
    AbsentChar(kept, SCHEME_SEPARATOR, 0);
    AbsentChar(tail, SCHEME_SEPARATOR, 0);
    SplitAfterInto(kept, SCHEME_SEPARATOR, tail, [tail]);
    SplitAfterInto(scheme, SCHEME_SEPARATOR, kept + SCHEME_SEPARATOR + tail, [kept, tail]);
  }

  /** An explicit port is kept as it is, and TLS is still chosen by the "https" in the scheme. */
  lemma ExplicitPortTarget(url: string)
    requires url == "https://a:8443"
    ensures Decompose(url) == Target("a:8443", "", true)
  {
    var host, path := "a:8443", "";
    assert url == "https" + SCHEME_SEPARATOR + (host + path);
    assert OccursAt(url, "https", 0);
    assert !Contains(host + path, SCHEME_SEPARATOR) by {
      AbsentChar(host + path, SCHEME_SEPARATOR, 1);
    }
    DecomposeOfParts("https", host, path);
    assert ':' in host;
  }

  /**
   * An https URL with an explicit port other than 443 has no ":443" suffix to
   * strip before the TLS handshake: once connected, the check panics.
   */
  lemma ExplicitPortOverTls(url: string, ex: Exchange)
    requires url == "https://a:8443" && ex != ConnectFailed
    ensures Fetch(url, ex) == Err(TlsNameMissing)
  {
    var address := "a:8443";
    ExplicitPortTarget(url);
    assert address[|address| - 4..] != ":443" by {
      assert address[|address| - 4..][0] == '8';
    }
    assert TlsName(address) == None;
  }

  /**
   * A reply with a status line, the blank line and a body but no headers:
   * removing the status line also removes the first line break, so no blank
   * line is left and the check panics instead of reporting nothing.
   */
  lemma OkWithoutHeaders(url: string, text: string)
    requires url == "http://a.b" && text == "HTTP/1.0 200 OK\r\n\r\nhi"
    ensures Classify(url, Fetch(url, Received(text))) == Aborted(NoBodySeparator)
  {
    BareServer(url);
    OkParse(url, text, StatusLine("1.0", 200, "OK"), "hi");
    PlainFetch(url, text, Err(NoBodySeparator));
  }

  /** Without TLS, what is fetched is what the parser makes of the reply. */
  lemma PlainFetch(url: string, text: string, parsed: Result<Response, Fault>)
    requires !Decompose(url).tls && Parse(url, text) == parsed
    ensures Fetch(url, Received(text)) == parsed
  {
  }

  /** The reply of `OkWithoutHeaders` stops the parser with `NoBodySeparator`. */
  lemma OkParse(url: string, text: string, sl: StatusLine, body: string)
    requires text == "HTTP/1.0 200 OK\r\n\r\nhi"
    requires sl == StatusLine("1.0", 200, "OK") && body == "hi"
    ensures Parse(url, text) == Err(NoBodySeparator)
  {
    var status := StatusLineText(sl);
    OkText(text, sl, status, body);
    AbsentChar(CRLF + body, status, 0);
    NoHeadersNoSeparator(url, sl, body);
  }

  /** The reply of `OkWithoutHeaders`, cut into its status line, a line break and its body. */
  lemma OkText(text: string, sl: StatusLine, status: string, body: string)
    requires text == "HTTP/1.0 200 OK\r\n\r\nhi"
    requires sl == StatusLine("1.0", 200, "OK") && body == "hi"
    requires status == StatusLineText(sl)
    ensures status == "HTTP/1.0 200 OK\r\n"
    ensures text == status + (CRLF + body)
    ensures 'H' !in CRLF + body
  {
    assert Decimal(200) == "200";
  }

  /** The redirect of a moved page is reported with its status and the "Location" header. */
  lemma MovedPermanently(url: string, text: string)
    requires url == "http://a.b/a"
    requires text == "HTTP/1.1 301 Moved\r\nLocation: /b\r\n\r\n"
    ensures Classify(url, Fetch(url, Received(text)))
            == Checked(Some(URLResult(301, url, "/b")))
  {
    var target := "/b";
    var resp := Response(301, url, None, map[LOCATION := target]);
    MovedResponse(url, text, StatusLine("1.1", 301, "Moved"), "Location: " + target, target);
    PlainHttp(url);
    PlainFetch(url, text, Ok(resp));
    assert IsRedirect(resp) && LOCATION in resp.headers;
  }

  /** A URL without "https" is fetched without TLS. */
  lemma PlainHttp(url: string)
    requires url == "http://a.b/a"
    ensures !Decompose(url).tls
  {
    AbsentChar(url, "https", 4);
  }

  /** The status line of the moved page. */
  lemma MovedStatusLine(sl: StatusLine)
    requires sl == StatusLine("1.1", 301, "Moved")
    ensures StatusLineText(sl) == "HTTP/1.1 301 Moved\r\n"
  {
    assert Decimal(301) == "301";
  }

  /** The reply of `MovedPermanently` parses to status 301 with one "Location" header. */
  lemma MovedResponse(url: string, text: string, sl: StatusLine, line: string, target: string)
    requires text == "HTTP/1.1 301 Moved\r\nLocation: /b\r\n\r\n"
    requires sl == StatusLine("1.1", 301, "Moved")
    requires target == "/b" && line == "Location: " + target
    ensures Parse(url, text) == Ok(Response(301, url, None, map[LOCATION := target]))
  {
    var lines := [line];
    var body: string := [];
    var status := StatusLineText(sl);
    var rest := JoinWith(lines, CRLF) + BLANK_LINE + body;
    MovedStatusLine(sl);
    assert JoinWith(lines, CRLF) == line;
    MovedText(text, status, line, body);
    LocationLine(line, target);
    MovedRest(rest, line, body);
    AbsentChar(rest, status, 0);
    assert !Contains(body, BLANK_LINE);
    ParseWellFormed(url, sl, lines, body);
    assert Headers(lines) == Ok(map[][LOCATION := target]);
  }

  /** The reply of `MovedPermanently`, cut into its status line, its header line, the blank line and its body. */
  lemma MovedText(text: string, status: string, line: string, body: string)
    requires text == "HTTP/1.1 301 Moved\r\nLocation: /b\r\n\r\n"
    requires status == "HTTP/1.1 301 Moved\r\n"
    requires line == "Location: /b" && body == []
    ensures text == status + (line + BLANK_LINE + body)
  {
  }

  /** What follows the status line of the moved page holds no 'H', so the status line does not recur. */
  lemma MovedRest(rest: string, line: string, body: string)
    requires line == "Location: /b" && body == []
    requires rest == JoinWith([line], CRLF) + BLANK_LINE + body
    ensures 'H' !in rest
  {
    assert rest == "Location: /b\r\n\r\n";
  }

  /** The "Location" line of `MovedPermanently` is a header line with that key and value. */
  lemma LocationLine(line: string, target: string)
    requires target == "/b" && line == "Location: " + target
    ensures IsHeaderLine(line)
    ensures ParseHeaderLine(line) == Ok(HeaderLine(LOCATION, target))
  {
    assert IsWord(target);
    assert line == HeaderLineText(LOCATION, [target]);
    assert JoinWith([target], " ") == target;
    ParseOfHeaderLine(LOCATION, [target]);
  }

  /** The body stops at the second blank line: what follows it is dropped. */
  lemma BodyCutAtSecondBlankLine(hb: string)
    requires hb == "A\r\n\r\nB\r\n\r\nC"
    ensures |SplitOn(hb, BLANK_LINE)| == 3 && SplitOn(hb, BLANK_LINE)[1] == "B"
  {
    var a, b, c := "A", "B", "C";
    AbsentChar(c, BLANK_LINE, 0);
    assert SplitOn(c, BLANK_LINE) == [c];
    AbsentChar(b, BLANK_LINE, 0);
    SplitAfterInto(b, BLANK_LINE, c, [c]);
    AbsentChar(a, BLANK_LINE, 0);
    assert hb == a + BLANK_LINE + (b + BLANK_LINE + c);
    SplitAfterInto(a, BLANK_LINE, b + BLANK_LINE + c, [b, c]);
  }

  /**
   * Occurrences of the blank line are found left to right without overlap:
   * after "B", the first four of the six characters "\r\n\r\n\r\n" separate,
   * and the last line break starts the next piece.
   */
  lemma OverlappingBlankLines(hb: string)
    requires hb == "A\r\n\r\nB\r\n\r\n\r\nC"
    ensures SplitOn(hb, BLANK_LINE) == ["A", "B", "\r\nC"]
  {
    var a, b, c := "A", "B", "\r\nC";
    assert SplitOn(c, BLANK_LINE) == [c];
    AbsentChar(b, BLANK_LINE, 0);
    SplitAfterInto(b, BLANK_LINE, c, [c]);
    AbsentChar(a, BLANK_LINE, 0);
    assert hb == a + BLANK_LINE + (b + BLANK_LINE + c);
    SplitAfterInto(a, BLANK_LINE, b + BLANK_LINE + c, [b, c]);
  }
}
