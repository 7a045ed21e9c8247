/** The records crurlrc passes between its stages, and the ways a check of one URL can stop. */
module Types {
  import opened Wrappers

  /** Rust's `u16`. */
  type u16 = x: int | 0 <= x < 0x1_0000

  /**
   * Every point at which a check of one URL stops early. `IoError` is the one
   * `Err` that `get` returns. `VersionOutsideModel` marks a reply that the
   * model does not follow: the source reads the version as a float and may go
   * on parsing (a version such as "10.5" prints back unchanged) or stop. All
   * the others are panics in the source (an `unwrap` or an index out of
   * range), which end the whole process.
   */
  datatype Fault =
    | IoError               // TcpStream::connect failed (the `?` operator)
    | StreamFailed          // a later transport step panicked: TLS handshake, read, UTF-8 decoding
    | TlsNameMissing        // the address has no ":443" suffix to strip before the TLS handshake
    | StatusLineMismatch    // scan! found no "HTTP/<v> <code> <reason>\r\n" line
    | VersionOutsideModel   // the version token is not of the form D.D (`Parser.IsShortVersion`)
    | NoBodySeparator       // no "\r\n\r\n" after the status line, so `v[1]` is out of range
    | EmptyHeaderLine       // a header line without tokens, so `v[0]` is out of range
    | KeyWithoutColon       // the first token of a header line does not end in ':'
    | MissingLocation       // a redirect status without a "Location" header

  /** One HTTP exchange as `get` reports it. */
  datatype Response = Response(
    status: u16,
    url: string,
    body: Option<string>,
    headers: map<string, string>)

  /** The verdict for one checked URL. */
  datatype URLResult = URLResult(status: u16, url: string, redirectTo: string)
}
