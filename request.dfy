/** The request `get` sends (src/lib.rs, line 73). */
module Request {
  import opened Strings

  const CRLF: string := "\r\n"

  /**
   * The bare HTTP/1.0 `HEAD` request for `path`, with the fixed user agent and
   * no other header. For a path without a carriage return it is exactly the
   * request line, the user-agent header and the blank line that ends the
   * header block: split on CRLF it gives these four pieces.
   */
  function RequestText(path: string): (r: string)
    ensures '\r' !in path ==> SplitOn(r, CRLF) == ["HEAD " + path + " HTTP/1.0", "User-Agent: crurlrc", "", ""]
  {
    var line := "HEAD " + path + " HTTP/1.0";
    var agent := "User-Agent: crurlrc";
    RequestLines(path, line, agent);
    line + CRLF + agent + CRLF + CRLF
  }

  /** Two lines free of `sep`, then `sep` twice: the two lines and two empty pieces. */
  lemma TwoLinesAndBlank(line: string, agent: string, sep: string)
    requires sep != []
    requires !Contains(line, sep) && !Contains(agent, sep)
    requires line != [] && line[|line| - 1] !in sep
    requires agent != [] && agent[|agent| - 1] !in sep
    ensures SplitOn(line + sep + agent + sep + sep, sep) == [line, agent, [], []]
  {
    var x := agent + sep + sep;
    assert line + sep + agent + sep + sep == line + sep + x;
    var empty: string := [];
    assert [line] + [agent, empty, empty] == [line, agent, empty, empty];
    LineAndBlank(agent, sep);
    SplitAfterInto(line, sep, x, [agent, [], []]);
  }

  lemma LineAndBlank(agent: string, sep: string)
    requires sep != []
    requires !Contains(agent, sep)
    requires agent != [] && agent[|agent| - 1] !in sep
    ensures SplitOn(agent + sep + sep, sep) == [agent, [], []]
  {
    SplitOfSeparator(sep);
    SplitAfter(agent, sep, sep);
  }

  lemma SplitOfSeparator(sep: string)
    requires sep != []
    ensures SplitOn(sep, sep) == [[], []]
  {
    assert !Contains([], sep);
    assert sep == [] + sep + [];
    SplitAfter([], sep, []);
  }

  /** The request line and the user-agent line of a path without CR are the first two lines of the request. */
  lemma RequestLines(path: string, line: string, agent: string)
    requires line == "HEAD " + path + " HTTP/1.0" && agent == "User-Agent: crurlrc"
    ensures '\r' !in path ==> SplitOn(line + CRLF + agent + CRLF + CRLF, CRLF) == [line, agent, "", ""]
  {
    if '\r' !in path {
      assert line[|line| - 1] == '0';
      assert '\r' !in line && '\r' !in agent;
      AbsentChar(line, CRLF, 0);
      AbsentChar(agent, CRLF, 0);
      TwoLinesAndBlank(line, agent, CRLF);
    }
  }

  /** Three parts joined by `sep`. */
  lemma JoinThree(a: string, b: string, c: string, sep: string)
    ensures JoinWith([a, b, c], sep) == a + sep + b + sep + c
  {
    var parts := [a, b, c];
    assert parts[1..] == [b, c];
    assert parts[1..][1..] == [c];
    assert JoinWith([b, c], sep) == b + sep + c;
    assert JoinWith(parts, sep) == a + sep + (b + sep + c);
  }

  /** A path that is one word is the second token of the request line, between the method and the version. */
  lemma RequestLineTokens(path: string)
    requires IsWord(path)
    ensures Tokens("HEAD " + path + " HTTP/1.0") == ["HEAD", path, "HTTP/1.0"]
  {
    var verb, version := "HEAD", "HTTP/1.0";
    assert IsWord(verb) && IsWord(version);
    JoinThree(verb, path, version, " ");
    assert "HEAD " + path + " HTTP/1.0" == verb + " " + path + " " + version;
    TokensOfJoin([verb, path, version]);
  }
}
