/**
 * The response parser inside `get` (src/lib.rs, lines 93-127), over the
 * decoded response text: the status line is scanned and every copy of it
 * removed, the rest is split at the first blank line into a header block and
 * a body, and the header block is folded line by line into a map.
 */
module Parser {
  import opened Wrappers
  import opened Strings
  import opened Types

  const CRLF: string := "\r\n"
  const BLANK_LINE: string := "\r\n\r\n"

  /** The three values `scan!` reads from the status line. */
  datatype StatusLine = StatusLine(version: string, code: u16, reason: string)

  /** One header line, split into its key and its value. */
  datatype HeaderLine = HeaderLine(key: string, value: string)

  /** A version that `{:.1}` prints back unchanged: a digit, a point and a digit. */
  predicate IsShortVersion(v: string) {
    |v| == 3 && IsDigit(v[0]) && v[1] == '.' && IsDigit(v[2])
  }

  /** A status line with the status code spelled as `token`. */
  function ScannedLine(version: string, token: string, reason: string): string {
    "HTTP/" + version + " " + token + " " + reason + CRLF
  }

  /** Line 96: the status line printed back from the scanned values. */
  function StatusLineText(sl: StatusLine): (line: string)
    ensures "HTTP/" <= line
    ensures |line| >= 2 && line[|line| - 2..] == CRLF
  {
    ScannedLine(sl.version, Decimal(sl.code), sl.reason)
  }

  /**
   * Line 94, `scan!(... => "HTTP/{} {} {}\r\n", ...)`: the text must begin
   * with "HTTP/", and the three captures follow.
   */
  function ScanStatusLine(text: string): (r: Result<StatusLine, Fault>)
    ensures r.Ok? ==> IsShortVersion(r.value.version) && '\r' !in r.value.reason
    ensures r.Err? ==> r.error == StatusLineMismatch || r.error == VersionOutsideModel
  {
    match StripPrefix(text, "HTTP/")
    case None => Err(StatusLineMismatch)
    case Some(fields) => ScanFields(fields)
  }

  /**
   * The captures of the status line: each reads up to and over its delimiter
   * (a space, a space, a carriage return), then a line feed must follow.
   */
  function ScanFields(s: string): (r: Result<StatusLine, Fault>)
    ensures r.Ok? ==> IsShortVersion(r.value.version) && '\r' !in r.value.reason
    ensures r.Err? ==> r.error == StatusLineMismatch || r.error == VersionOutsideModel
  {
    var (version, afterVersion) := TakeUntil(s, ' ');
    if !IsShortVersion(version) then Err(VersionOutsideModel)
    else
      var (token, afterCode) := TakeUntil(afterVersion, ' ');
      match ParseU16(token)
      case None => Err(StatusLineMismatch)
      case Some(code) =>
        var (reason, afterReason) := TakeUntil(afterCode, '\r');
        if afterReason == [] || afterReason[0] != '\n' then Err(StatusLineMismatch)
        else Ok(StatusLine(version, code, reason))
  }

  /** The captures found three fields and their delimiters at the start of `s`. */
  lemma ScanFieldsFinds(s: string)
    requires ScanFields(s).Ok?
    ensures var sl := ScanFields(s).value;
            exists token, rest :: ParseU16(token) == Some(sl.code)
                                  && s == sl.version + " " + token + " " + sl.reason + CRLF + rest
  {
    var first := TakeUntil(s, ' ');
    var second := TakeUntil(first.1, ' ');
    var third := TakeUntil(second.1, '\r');
    ScanFieldsSteps(s, first, second, third);
    var rest := third.1[1..];
    Rejoin(s, first.0, second.0, third.0, first.1, second.1, rest);
    var sl := ScanFields(s).value;
    assert ParseU16(second.0) == Some(sl.code);
  }

  /** What an accepted scan read at each of its three steps. */
  lemma ScanFieldsSteps(s: string, first: (string, string), second: (string, string), third: (string, string))
    requires ScanFields(s).Ok?
    requires first == TakeUntil(s, ' ') && second == TakeUntil(first.1, ' ') && third == TakeUntil(second.1, '\r')
    ensures ScanFields(s) == Ok(StatusLine(first.0, ParseU16(second.0).value, third.0))
    ensures s == first.0 + [' '] + first.1
    ensures first.1 == second.0 + [' '] + second.1
    ensures second.1 == third.0 + ['\r'] + ("\n" + third.1[1..])
  {
    assert third.1 == "\n" + third.1[1..];
  }

  /** The three steps of the scan, put back together. */
  lemma Rejoin(s: string, version: string, token: string, reason: string, afterVersion: string, afterCode: string, rest: string)
    requires s == version + [' '] + afterVersion
    requires afterVersion == token + [' '] + afterCode
    requires afterCode == reason + ['\r'] + ("\n" + rest)
    ensures s == version + " " + token + " " + reason + CRLF + rest
  {
    Reassemble(version, token, reason, rest);
  }

  /** Three captures and their delimiters, put back together. */
  lemma Reassemble(version: string, token: string, reason: string, rest: string)
    ensures version + [' '] + (token + [' '] + (reason + ['\r'] + ("\n" + rest)))
            == version + " " + token + " " + reason + CRLF + rest
  {
  }

  /** What the scan accepted is a status line at the start of the text, its code spelled by some token. */
  lemma ScanFindsLine(text: string)
    requires ScanStatusLine(text).Ok?
    ensures var sl := ScanStatusLine(text).value;
            exists token :: ParseU16(token) == Some(sl.code) && ScannedLine(sl.version, token, sl.reason) <= text
  {
    var fields := StripPrefix(text, "HTTP/").value;
    var sl := ScanFields(fields).value;
    ScanFieldsFinds(fields);
    var token, rest :| ParseU16(token) == Some(sl.code)
                       && fields == sl.version + " " + token + " " + sl.reason + CRLF + rest;
    assert text == "HTTP/" + fields;
    PrefixBeforeFields(sl.version, token, sl.reason, rest);
    assert ScannedLine(sl.version, token, sl.reason) <= text;
  }

  /** The status line is a prefix of "HTTP/" followed by its fields and anything after them. */
  lemma PrefixBeforeFields(version: string, token: string, reason: string, rest: string)
    ensures ScannedLine(version, token, reason) <= "HTTP/" + (version + " " + token + " " + reason + CRLF + rest)
  {
    var line := ScannedLine(version, token, reason);
    assert "HTTP/" + (version + " " + token + " " + reason + CRLF + rest) == line + rest;
  }

  /** The captures read back fields free of their delimiters. */
  lemma ScanFieldsOf(sl: StatusLine, token: string, rest: string)
    requires IsShortVersion(sl.version) && '\r' !in sl.reason
    requires ' ' !in token && ParseU16(token) == Some(sl.code)
    ensures ScanFields(sl.version + " " + token + " " + sl.reason + CRLF + rest) == Ok(sl)
  {
    var afterCode := sl.reason + ['\r'] + ("\n" + rest);
    var afterVersion := token + [' '] + afterCode;
    Reassemble(sl.version, token, sl.reason, rest);
    assert ' ' !in sl.version;
    TakeUntilField(sl.version, ' ', afterVersion);
    TakeUntilField(token, ' ', afterCode);
    TakeUntilField(sl.reason, '\r', "\n" + rest);
  }

  /** Scanning a status line printed from its values gives those values back. */
  lemma ScanOfStatusLine(sl: StatusLine, rest: string)
    requires IsShortVersion(sl.version) && '\r' !in sl.reason
    ensures ScanStatusLine(StatusLineText(sl) + rest) == Ok(sl)
  {
    var token := Decimal(sl.code);
    var fields := sl.version + " " + token + " " + sl.reason + CRLF + rest;
    var text := StatusLineText(sl) + rest;
    assert text == "HTTP/" + fields;
    assert text[5..] == fields;
    assert ' ' !in token by {
      assert AllDigits(token);
    }
    ParseU16OfDecimal(sl.code);
    ScanFieldsOf(sl, token, rest);
  }

  /**
   * Line 109 and the line after: the key is the first whitespace-separated
   * token without its trailing ':', the value is the remaining tokens.
   */
  function ParseHeaderLine(line: string): (r: Result<HeaderLine, Fault>)
    ensures r.Err? ==> r.error == EmptyHeaderLine || r.error == KeyWithoutColon
    ensures r == Err(EmptyHeaderLine) <==> Tokens(line) == []
    ensures r.Ok? ==> |Tokens(line)| >= 1 && Tokens(line)[0] == r.value.key + ":"
    ensures r == Err(KeyWithoutColon) <==> Tokens(line) != [] && StripSuffix(Tokens(line)[0], ":").None?
    ensures r.Ok? ==> Tokens(r.value.value) == Tokens(line)[1..]
    ensures r.Ok? ==> r.value.value == JoinWith(Tokens(line)[1..], " ")
  {
    var words := Tokens(line);
    if |words| == 0 then Err(EmptyHeaderLine)
    else
      match StripSuffix(words[0], ":")
      case None => Err(KeyWithoutColon)
      case Some(key) =>
        TokensOfJoin(words[1..]);
        Ok(HeaderLine(key, JoinWith(words[1..], " ")))
  }

  /** The header line that carries `key` and the words of its value, written with single spaces. */
  function HeaderLineText(key: string, words: seq<string>): string {
    if words == [] then key + ":" else key + ": " + JoinWith(words, " ")
  }

  /** The tokens of a header line written from a key and words are the key with its colon, then the words. */
  lemma TokensOfHeaderLine(key: string, words: seq<string>)
    requires forall i :: 0 <= i < |key| ==> !IsWhitespace(key[i])
    requires forall k :: 0 <= k < |words| ==> IsWord(words[k])
    ensures Tokens(HeaderLineText(key, words)) == [key + ":"] + words
  {
    var name := key + ":";
    assert IsWord(name) by {
      assert forall i :: 0 <= i < |key| ==> name[i] == key[i];
    }
    if words == [] {
      assert HeaderLineText(key, words) == name + [];
      TokensOfWord(name, []);
    } else {
      var value := JoinWith(words, " ");
      assert HeaderLineText(key, words) == name + (" " + value);
      TokensOfWord(name, " " + value);
      TokensAfterSpace(' ', value);
      TokensOfJoin(words);
    }
  }

  /** A header line written from a key and words parses back to that key and the words joined by spaces. */
  lemma ParseOfHeaderLine(key: string, words: seq<string>)
    requires forall i :: 0 <= i < |key| ==> !IsWhitespace(key[i])
    requires forall k :: 0 <= k < |words| ==> IsWord(words[k])
    ensures ParseHeaderLine(HeaderLineText(key, words)) == Ok(HeaderLine(key, JoinWith(words, " ")))
  {
    var tokens := [key + ":"] + words;
    TokensOfHeaderLine(key, words);
    assert tokens[1..] == words;
    StripColon(key);
  }

  /** The key is its token without the trailing colon. */
  lemma StripColon(key: string)
    ensures StripSuffix(key + ":", ":") == Some(key)
  {
    var name := key + ":";
    assert name[|name| - 1..] == ":";
    assert name[..|name| - 1] == key;
  }

  /** `line` parses to a header with key `k`. */
  predicate Defines(line: string, k: string) {
    ParseHeaderLine(line).Ok? && ParseHeaderLine(line).value.key == k
  }

  /**
   * Lines 105-114 as a fold from the left: each line is parsed and inserted
   * into the map; the first line that does not parse stops the loop.
   */
  function Headers(lines: seq<string>): (r: Result<map<string, string>, Fault>)
    ensures lines == [] ==> r == Ok(map[])
    ensures r.Err? ==> r.error == EmptyHeaderLine || r.error == KeyWithoutColon
    decreases |lines|
  {
    if lines == [] then Ok(map[])
    else
      match Headers(lines[..|lines| - 1])
      case Err(f) => Err(f)
      case Ok(m) =>
        match ParseHeaderLine(lines[|lines| - 1])
        case Err(f) => Err(f)
        case Ok(h) => Ok(m[h.key := h.value])
  }

  /** The fold finishes exactly when every line parses. */
  lemma {:induction false} HeadersOk(lines: seq<string>)
    ensures Headers(lines).Ok? <==> forall i :: 0 <= i < |lines| ==> ParseHeaderLine(lines[i]).Ok?
    decreases |lines|
  {
    if lines != [] {
      var init := lines[..|lines| - 1];
      HeadersOk(init);
      assert forall i :: 0 <= i < |init| ==> init[i] == lines[i];
    }
  }

  /** Line `i` is the first of `lines` that does not parse. */
  predicate FirstFailure(lines: seq<string>, i: int) {
    && 0 <= i < |lines| && ParseHeaderLine(lines[i]).Err?
    && forall j :: 0 <= j < i ==> ParseHeaderLine(lines[j]).Ok?
  }

  /** A first failure stays the first when lines are appended. */
  lemma FirstFailureSnoc(lines: seq<string>, i: int)
    requires lines != [] && FirstFailure(lines[..|lines| - 1], i)
    ensures FirstFailure(lines, i)
  {
    var init := lines[..|lines| - 1];
    assert lines[i] == init[i];
    forall j | 0 <= j < i
      ensures ParseHeaderLine(lines[j]).Ok?
    {
      assert lines[j] == init[j];
    }
  }

  /** When the fold stops, it reports the fault of the first line that does not parse. */
  lemma {:induction false} HeadersFault(lines: seq<string>)
    requires Headers(lines).Err?
    ensures exists i :: FirstFailure(lines, i) && ParseHeaderLine(lines[i]) == Err(Headers(lines).error)
    decreases |lines|
  {
    var init := lines[..|lines| - 1];
    var last := |lines| - 1;
    if Headers(init).Err? {
      assert Headers(lines) == Headers(init);
      HeadersFault(init);
      var i :| FirstFailure(init, i) && ParseHeaderLine(init[i]) == Err(Headers(init).error);
      FirstFailureSnoc(lines, i);
      assert lines[i] == init[i];
    } else {
      HeadersOk(init);
      forall j | 0 <= j < last
        ensures ParseHeaderLine(lines[j]).Ok?
      {
        assert lines[j] == init[j];
      }
      assert FirstFailure(lines, last);
    }
  }

  /** One more line inserts its key into the map built from the lines before it. */
  lemma HeadersSnoc(lines: seq<string>)
    requires lines != [] && Headers(lines).Ok?
    ensures var init := lines[..|lines| - 1];
            var h := ParseHeaderLine(lines[|lines| - 1]);
            && Headers(init).Ok? && h.Ok?
            && Headers(lines).value == Headers(init).value[h.value.key := h.value.value]
  {
  }

  /** Some line of `lines` defines `k`. */
  predicate DefinedIn(lines: seq<string>, k: string) {
    exists i :: 0 <= i < |lines| && Defines(lines[i], k)
  }

  /** A key is defined by some line exactly when it is defined before the last line or by it. */
  lemma DefinedInSnoc(lines: seq<string>, k: string)
    requires lines != []
    ensures DefinedIn(lines, k) <==> DefinedIn(lines[..|lines| - 1], k) || Defines(lines[|lines| - 1], k)
  {
    var init := lines[..|lines| - 1];
    if DefinedIn(init, k) {
      var i :| 0 <= i < |init| && Defines(init[i], k);
      assert lines[i] == init[i];
    }
    if DefinedIn(lines, k) && !Defines(lines[|lines| - 1], k) {
      var i :| 0 <= i < |lines| && Defines(lines[i], k);
      assert init[i] == lines[i];
    }
  }

  /** A key is in the map exactly when some line defines it. */
  lemma {:induction false} HeadersKeys(lines: seq<string>, k: string)
    requires Headers(lines).Ok?
    ensures k in Headers(lines).value <==> DefinedIn(lines, k)
    decreases |lines|
  {
    if lines != [] {
      HeadersSnoc(lines);
      HeadersKeys(lines[..|lines| - 1], k);
      DefinedInSnoc(lines, k);
    }
  }

  /** Line `i` is the last of `lines` that defines `k`. */
  predicate LastDefinition(lines: seq<string>, k: string, i: int) {
    && 0 <= i < |lines| && Defines(lines[i], k)
    && forall j :: i < j < |lines| ==> !Defines(lines[j], k)
  }

  /** A line that does not define `k` leaves the last definition of `k` where it was. */
  lemma LastDefinitionSnoc(lines: seq<string>, k: string, i: int)
    requires lines != [] && !Defines(lines[|lines| - 1], k)
    requires LastDefinition(lines[..|lines| - 1], k, i)
    ensures LastDefinition(lines, k, i)
  {
    var init := lines[..|lines| - 1];
    assert lines[i] == init[i];
    forall j | i < j < |lines|
      ensures !Defines(lines[j], k)
    {
      if j < |lines| - 1 {
        assert lines[j] == init[j];
      }
    }
  }

  /**
   * The value of a key is the one given by the last line that defines it:
   * later duplicates overwrite earlier ones.
   */
  lemma {:induction false} HeadersLastWins(lines: seq<string>, k: string)
    requires Headers(lines).Ok? && k in Headers(lines).value
    ensures exists i :: LastDefinition(lines, k, i)
                        && Headers(lines).value[k] == ParseHeaderLine(lines[i]).value.value
    decreases |lines|
  {
    var init := lines[..|lines| - 1];
    var last := |lines| - 1;
    HeadersSnoc(lines);
    var h := ParseHeaderLine(lines[last]).value;
    if h.key == k {
      assert LastDefinition(lines, k, last);
    } else {
      HeadersLastWins(init, k);
      var i :| LastDefinition(init, k, i)
               && Headers(init).value[k] == ParseHeaderLine(init[i]).value.value;
      LastDefinitionSnoc(lines, k, i);
      assert lines[i] == init[i];
    }
  }

  /** Line 106: the header block's lines. */
  function Lines(block: string): (lines: seq<string>)
    ensures |lines| >= 1
    ensures !Contains(block, CRLF) ==> lines == [block]
  {
    SplitOn(block, CRLF)
  }

  /** The lines of a block, put back together with CRLF, are the block; no line holds CRLF. */
  lemma LinesJoin(block: string)
    ensures JoinWith(Lines(block), CRLF) == block
    ensures forall k :: 0 <= k < |Lines(block)| ==> !Contains(Lines(block)[k], CRLF)
  {
  }

  /** Lines 105-114, the loop that fills `processed_headers`. */
  method ReadHeaders(block: string) returns (r: Result<map<string, string>, Fault>)
    ensures r == Headers(Lines(block))
  {
    var lines := Lines(block);
    var processed: map<string, string> := map[];
    for i := 0 to |lines|
      invariant Headers(lines[..i]) == Ok(processed)
    {
      assert lines[..i + 1][..i] == lines[..i];
      var entry := ParseHeaderLine(lines[i]);
      if entry.Err? {
        HeadersStop(lines, i);
        return Err(entry.error);
      }
      processed := processed[entry.value.key := entry.value.value];
    }
    assert lines[..|lines|] == lines;
    return Ok(processed);
  }

  /** A line that does not parse, after a prefix that does, decides the fold's result. */
  lemma {:induction false} HeadersStop(lines: seq<string>, i: nat)
    requires i < |lines|
    requires Headers(lines[..i]).Ok? && ParseHeaderLine(lines[i]).Err?
    ensures Headers(lines) == Err(ParseHeaderLine(lines[i]).error)
    decreases |lines|
  {
    var init := lines[..|lines| - 1];
    if i < |lines| - 1 {
      assert init[..i] == lines[..i];
      HeadersStop(init, i);
    } else {
      assert init == lines[..i];
    }
  }

  /** Lines 95-98: the response with every copy of the re-printed status line removed. */
  function HeadersAndBody(text: string, sl: StatusLine): (rest: string)
    ensures !Contains(text, StatusLineText(sl)) ==> rest == text
  {
    Replace(text, StatusLineText(sl), "")
  }

  /** What is left is the text between the copies of the status line, put together. */
  lemma HeadersAndBodyPieces(text: string, sl: StatusLine)
    ensures HeadersAndBody(text, sl) == JoinWith(SplitOn(text, StatusLineText(sl)), "")
  {
    ReplaceIsSplitJoin(text, StatusLineText(sl), "");
  }

  /** Lines 92-127 after decoding: the response `get` builds, or the fault that stops it. */
  function Parse(url: string, text: string): (r: Result<Response, Fault>)
    ensures r.Ok? ==> r.value.url == url
    ensures r.Ok? ==> ScanStatusLine(text).Ok? && r.value.status == ScanStatusLine(text).value.code
    ensures r.Ok? ==> r.value.body != Some([])
    ensures r.Err? ==> r.error in {StatusLineMismatch, VersionOutsideModel, NoBodySeparator,
                                   EmptyHeaderLine, KeyWithoutColon}
    ensures r == Err(NoBodySeparator) <==>
              ScanStatusLine(text).Ok? && !Contains(HeadersAndBody(text, ScanStatusLine(text).value), BLANK_LINE)
  {
    match ScanStatusLine(text)
    case Err(f) => Err(f)
    case Ok(sl) =>
      var pieces := SplitOn(HeadersAndBody(text, sl), BLANK_LINE);
      if |pieces| < 2 then Err(NoBodySeparator)
      else
        match Headers(Lines(pieces[0]))
        case Err(f) =>
          HeadersFault(Lines(pieces[0]));
          Err(f)
        case Ok(headers) =>
          Ok(Response(sl.code, url, if pieces[1] != [] then Some(pieces[1]) else None, headers))
  }

  /**
   * The body is the text after the first blank line, cut at the next blank
   * line; it is present exactly when that text is not empty.
   */
  lemma ParseBody(url: string, text: string)
    requires Parse(url, text).Ok?
    ensures var hb := HeadersAndBody(text, ScanStatusLine(text).value);
            var body := Parse(url, text).value.body;
            && Contains(hb, BLANK_LINE)
            && PieceFrom(hb, BLANK_LINE, IndexOf(hb, BLANK_LINE).value + 4, if body.Some? then body.value else [])
  {
    var hb := HeadersAndBody(text, ScanStatusLine(text).value);
    var body := Parse(url, text).value.body;
    assert |SplitOn(hb, BLANK_LINE)| >= 2
           && body == (if SplitOn(hb, BLANK_LINE)[1] != [] then Some(SplitOn(hb, BLANK_LINE)[1]) else None) by {
      ParseParts(url, text);
    }
    BodySegment(hb, body);
  }

  /** The second piece of a split at blank lines, as a body, lies between the first blank line and the next. */
  lemma BodySegment(hb: string, body: Option<string>)
    requires |SplitOn(hb, BLANK_LINE)| >= 2
    requires var p := SplitOn(hb, BLANK_LINE)[1]; body == if p != [] then Some(p) else None
    ensures && Contains(hb, BLANK_LINE)
            && PieceFrom(hb, BLANK_LINE, IndexOf(hb, BLANK_LINE).value + 4, if body.Some? then body.value else [])
  {
    SecondPiece(hb, BLANK_LINE);
  }

  /**
   * A parsed response is made of the pieces around the first blank line: the
   * headers are the fold over the lines of the first, the body is the second
   * when it is not empty.
   */
  lemma ParseParts(url: string, text: string)
    requires Parse(url, text).Ok?
    ensures var hb := HeadersAndBody(text, ScanStatusLine(text).value);
            var pieces := SplitOn(hb, BLANK_LINE);
            var r := Parse(url, text).value;
            && |pieces| >= 2
            && Headers(Lines(pieces[0])) == Ok(r.headers)
            && r.body == (if pieces[1] != [] then Some(pieces[1]) else None)
  {
  }

  /** A header line as a server sends it: one line that parses. */
  predicate IsHeaderLine(line: string) {
    '\r' !in line && '\n' !in line && ParseHeaderLine(line).Ok?
  }

  /**
   * A response made of a status line, header lines, a blank line and a body
   * without a second blank line parses to that status, those headers and that
   * body, provided the status line does not occur again after its first copy.
   */
  lemma ParseWellFormed(url: string, sl: StatusLine, lines: seq<string>, body: string)
    requires IsShortVersion(sl.version) && '\r' !in sl.reason
    requires |lines| >= 1 && forall k :: 0 <= k < |lines| ==> IsHeaderLine(lines[k])
    requires !Contains(body, BLANK_LINE)
    requires !Contains(JoinWith(lines, CRLF) + BLANK_LINE + body, StatusLineText(sl))
    ensures Headers(lines).Ok?
    ensures Parse(url, StatusLineText(sl) + (JoinWith(lines, CRLF) + BLANK_LINE + body))
            == Ok(Response(sl.code, url, if body == [] then None else Some(body), Headers(lines).value))
  {
    var block := JoinWith(lines, CRLF);
    var rest := block + BLANK_LINE + body;
    var text := StatusLineText(sl) + rest;
    ScanOfStatusLine(sl, rest);
    StatusLineRemoved(sl, rest);
    BodySplit(lines, body);
    LinesOfBlock(lines);
    HeadersOk(lines);
    assert ScanStatusLine(text) == Ok(sl);
    assert SplitOn(HeadersAndBody(text, sl), BLANK_LINE) == [block, body];
    assert Headers(Lines(block)) == Ok(Headers(lines).value);
  }

  /** Removing the status line from the front of a text in which it does not recur leaves the rest. */
  lemma StatusLineRemoved(sl: StatusLine, rest: string)
    requires !Contains(rest, StatusLineText(sl))
    ensures HeadersAndBody(StatusLineText(sl) + rest, sl) == rest
  {
    var line := StatusLineText(sl);
    var text := line + rest;
    assert OccursAt(text, line, 0) by {
      assert text[..|line|] == line;
    }
    ReplaceLeading(text, line, "");
    assert text[|line|..] == rest;
  }

  /** The header block written from header lines splits back into those lines. */
  lemma LinesOfBlock(lines: seq<string>)
    requires |lines| >= 1 && forall k :: 0 <= k < |lines| ==> IsHeaderLine(lines[k])
    ensures Lines(JoinWith(lines, CRLF)) == lines
  {
    forall k | 0 <= k < |lines|
      ensures !Contains(lines[k], CRLF)
      ensures lines[k] == [] || lines[k][|lines[k]| - 1] !in CRLF
    {
      AbsentChar(lines[k], CRLF, 0);
    }
    SplitOfJoin(lines, CRLF);
  }

  /** The first blank line after a header block ends it, and a body without a blank line is one piece. */
  lemma BodySplit(lines: seq<string>, body: string)
    requires |lines| >= 1 && forall k :: 0 <= k < |lines| ==> IsHeaderLine(lines[k])
    requires !Contains(body, BLANK_LINE)
    ensures SplitOn(JoinWith(lines, CRLF) + BLANK_LINE + body, BLANK_LINE) == [JoinWith(lines, CRLF), body]
  {
    var block := JoinWith(lines, CRLF);
    BlockEnd(lines);
    BlockFree(lines);
    assert SplitOn(body, BLANK_LINE) == [body];
    SplitAfterInto(block, BLANK_LINE, body, [body]);
  }

  /**
   * A response whose status line is followed directly by the blank line has
   * no "\r\n\r\n" left once the status line, with its own line break, is
   * removed: such a response stops with `NoBodySeparator`.
   */
  lemma NoHeadersNoSeparator(url: string, sl: StatusLine, body: string)
    requires IsShortVersion(sl.version) && '\r' !in sl.reason
    requires '\r' !in body
    requires !Contains(CRLF + body, StatusLineText(sl))
    ensures Parse(url, StatusLineText(sl) + (CRLF + body)) == Err(NoBodySeparator)
  {
    ScanOfStatusLine(sl, CRLF + body);
    StatusLineRemoved(sl, CRLF + body);
    SingleLineBreak(body);
  }

  /** A line break followed by a text without carriage returns holds no blank line. */
  lemma SingleLineBreak(body: string)
    requires '\r' !in body
    ensures !Contains(CRLF + body, BLANK_LINE)
  {
    var s := CRLF + body;
    forall j | 0 <= j && j + 4 <= |s|
      ensures !OccursAt(s, BLANK_LINE, j)
    {
      if j == 0 {
        assert s[j..j + 4][2] == body[0];
      } else if j == 1 {
        assert s[j..j + 4][0] == CRLF[1];
      } else {
        assert s[j..j + 4][0] == body[j - 2];
      }
    }
  }

  /** A header line is never empty: it holds at least the key token. */
  lemma HeaderLineNotEmpty(line: string)
    requires IsHeaderLine(line)
    ensures line != [] && line[0] != '\r'
  {
    assert Tokens(line) != [];
  }

  /** The header block ends in the last character of its last line, never in CR or LF. */
  lemma {:induction false} BlockEnd(lines: seq<string>)
    requires |lines| >= 1 && forall k :: 0 <= k < |lines| ==> IsHeaderLine(lines[k])
    ensures var block := JoinWith(lines, CRLF);
            block != [] && block[|block| - 1] !in BLANK_LINE
    decreases |lines|
  {
    HeaderLineNotEmpty(lines[0]);
    if |lines| > 1 {
      BlockEnd(lines[1..]);
    } else {
      var l := lines[0];
      assert l[|l| - 1] in l;
    }
  }

  /** The header block holds no blank line: CR LF occurs only between two non-empty lines. */
  lemma {:induction false} BlockFree(lines: seq<string>)
    requires |lines| >= 1 && forall k :: 0 <= k < |lines| ==> IsHeaderLine(lines[k])
    ensures !Contains(JoinWith(lines, CRLF), BLANK_LINE)
    decreases |lines|
  {
    var block := JoinWith(lines, CRLF);
    var first := lines[0];
    if |lines| == 1 {
      AbsentChar(first, BLANK_LINE, 0);
    } else {
      var tail := JoinWith(lines[1..], CRLF);
      assert block == first + CRLF + tail;
      BlockFree(lines[1..]);
      HeaderLineNotEmpty(lines[1]);
      JoinStartsWith(lines[1..], CRLF);
      assert tail[0] == lines[1][0];
      forall j | 0 <= j && j + 4 <= |block|
        ensures !OccursAt(block, BLANK_LINE, j)
      {
        var w := block[j..j + 4];
        if j < |first| {
          assert w[0] == first[j];
          assert first[j] in first;
        } else if j == |first| {
          assert w[2] == tail[0];
        } else if j == |first| + 1 {
          assert block[j] == CRLF[1];
          assert w[0] == block[j];
        } else {
          var k := j - |first| - 2;
          assert w == tail[k..k + 4];
          assert !OccursAt(tail, BLANK_LINE, k);
        }
      }
    }
  }
}
