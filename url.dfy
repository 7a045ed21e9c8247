/**
 * The URL decomposer at the start of `get` (src/lib.rs, lines 53-71): port and
 * TLS by a substring test, the scheme stripped, the rest split into server and
 * path, and the default port appended to a server that names none. Also the
 * name the TLS handshake verifies (line 78).
 */
module Url {
  import opened Wrappers
  import opened Strings

  /** Where `get` connects, the path it requests, and whether it wraps the stream in TLS. */
  datatype Target = Target(address: string, path: string, tls: bool)

  const SCHEME_SEPARATOR: string := "://"

  /** Lines 54-58: port 443 with TLS when "https" occurs anywhere in the URL, port 80 otherwise. */
  function PortAndTls(url: string): (r: (nat, bool))
    ensures r.1 <==> exists j :: OccursAt(url, "https", j)
    ensures r == (443, true) || r == (80, false)
  {
    ContainsIff(url, "https");
    if Contains(url, "https") then (443, true) else (80, false)
  }

  /** Lines 59-63: the second piece of `split("://")`, or the whole URL when it has no "://". */
  function AfterScheme(url: string): (rest: string)
    ensures !Contains(rest, SCHEME_SEPARATOR)
    ensures !Contains(url, SCHEME_SEPARATOR) ==> rest == url
  {
    if Contains(url, SCHEME_SEPARATOR) then SplitOn(url, SCHEME_SEPARATOR)[1] else url
  }

  /**
   * After the scheme, the decomposer keeps only the text up to a second "://":
   * it is a prefix of what follows the first "://" and stops at the end of the
   * URL or at the next "://".
   */
  lemma AfterSchemeSegment(url: string)
    requires Contains(url, SCHEME_SEPARATOR)
    ensures PieceFrom(url, SCHEME_SEPARATOR, IndexOf(url, SCHEME_SEPARATOR).value + 3, AfterScheme(url))
  {
    SecondPiece(url, SCHEME_SEPARATOR);
  }

  /** Line 65: the server is the text before the first '/'. */
  function Server(rest: string): (server: string)
    ensures server <= rest
    ensures '/' !in server
    ensures |server| == |rest| || rest[|server|] == '/'
  {
    var segs := SplitOn(rest, "/");
    ContainsChar(segs[0], '/');
    assert |segs| >= 2 ==> rest == segs[0] + "/" + JoinWith(segs[1..], "/");
    segs[0]
  }

  /**
   * Line 66: `strip_prefix(server).unwrap_or("/")`. The server is always a
   * prefix, so the path is what follows it: empty, or starting with '/'.
   */
  function PathAfter(rest: string, server: string): (path: string)
    requires server == Server(rest)
    ensures server + path == rest
    ensures path == [] || path[0] == '/'
  {
    match StripPrefix(rest, server)
    case Some(path) => path
    case None => "/"
  }

  /** Lines 67-71: append ":<port>" to a server that holds no ':'. */
  function WithPort(server: string, port: nat): (address: string)
    ensures ':' !in server ==> address == server + ":" + Decimal(port)
    ensures ':' in server ==> address == server
  {
    if ':' !in server then server + ":" + Decimal(port) else server
  }

  /** The decimal forms of the two default ports. */
  lemma DefaultPorts()
    ensures Decimal(443) == "443" && Decimal(80) == "80"
  {
  }

  /** Lines 53-71 of `get`. */
  function Decompose(url: string): (t: Target)
    ensures t.tls <==> Contains(url, "https")
    ensures Server(AfterScheme(url)) + t.path == AfterScheme(url)
    ensures '/' !in Server(AfterScheme(url))
    ensures t.path == [] || t.path[0] == '/'
    ensures var server := Server(AfterScheme(url));
            t.address == if ':' in server then server
                         else server + ":" + (if t.tls then "443" else "80")
  {
    var (port, tls) := PortAndTls(url);
    var rest := AfterScheme(url);
    var server := Server(rest);
    DefaultPorts();
    Target(WithPort(server, port), PathAfter(rest, server), tls)
  }

  /**
   * The decomposer takes a URL of the form scheme "://" host path apart into
   * that host and that path, when the scheme holds neither ':' nor '/', the
   * host holds no '/', the path is empty or starts with '/', and no second
   * "://" follows.
   */
  lemma DecomposeOfParts(scheme: string, host: string, path: string)
    requires ':' !in scheme && '/' !in scheme && '/' !in host
    requires path == [] || path[0] == '/'
    requires !Contains(host + path, SCHEME_SEPARATOR)
    ensures var url := scheme + SCHEME_SEPARATOR + (host + path);
            Decompose(url) == Target(WithPort(host, if Contains(url, "https") then 443 else 80),
                                     path, Contains(url, "https"))
  {
    var rest := host + path;
    AbsentChar(scheme, SCHEME_SEPARATOR, 0);
    assert scheme == [] || scheme[|scheme| - 1] in scheme;
    SplitAfterInto(scheme, SCHEME_SEPARATOR, rest, [rest]);
    assert AfterScheme(scheme + SCHEME_SEPARATOR + rest) == rest;
    ServerOfParts(host, path);
  }

  /** The server of host path is the host. */
  lemma ServerOfParts(host: string, path: string)
    requires '/' !in host
    requires path == [] || path[0] == '/'
    ensures Server(host + path) == host
  {
    ContainsChar(host, '/');
    if path == [] {
      assert host + path == host;
    } else {
      assert host == [] || host[|host| - 1] in host;
      assert host + path == host + "/" + path[1..];
      SplitAfter(host, "/", path[1..]);
    }
  }

  /** Line 78: the TLS handshake is given the address without its ":443" suffix. */
  function TlsName(address: string): (name: Option<string>)
    ensures name.Some? <==> |address| >= 4 && address[|address| - 4..] == ":443"
    ensures name.Some? ==> name.value + ":443" == address
  {
    StripSuffix(address, ":443")
  }

  /**
   * For an https URL without an explicit port, the handshake name is the bare
   * server; with an explicit port it exists exactly when that port is ":443".
   */
  lemma TlsNameOfTarget(url: string)
    requires Contains(url, "https")
    ensures var server := Server(AfterScheme(url));
            var name := TlsName(Decompose(url).address);
            && (':' !in server ==> name == Some(server))
            && (':' in server ==> (name.Some? <==> StripSuffix(server, ":443").Some?))
  {
    var server := Server(AfterScheme(url));
    if ':' !in server {
      var address := server + ":" + "443";
      assert address[|address| - 4..] == ":443";
      assert address[..|address| - 4] == server;
    }
  }
}
