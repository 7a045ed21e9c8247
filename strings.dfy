/**
 * The parts of Rust's `str` API that the redirect checker relies on, over
 * `seq<char>`: substring search (`find`, `contains`), `split` on a string
 * pattern and its inverse `join`, `replace`, `strip_prefix`/`strip_suffix`,
 * `split_whitespace`, and `u16` parsing and decimal formatting.
 */
module Strings {
  import opened Wrappers

  /** `pat` occurs in `s` at index `j`. */
  predicate OccursAt(s: string, pat: string, j: int) {
    0 <= j && j + |pat| <= |s| && s[j..j + |pat|] == pat
  }

  /** The first index at or after `i` where `pat` occurs in `s`. */
  function IndexFrom(s: string, pat: string, i: nat): (r: Option<nat>)
    ensures r.Some? ==> i <= r.value && OccursAt(s, pat, r.value)
    ensures r.Some? ==> forall j :: i <= j < r.value ==> !OccursAt(s, pat, j)
    ensures r.None? ==> forall j :: i <= j ==> !OccursAt(s, pat, j)
    decreases |s| - i
  {
    if i + |pat| > |s| then None
    else if s[i..i + |pat|] == pat then Some(i)
    else IndexFrom(s, pat, i + 1)
  }

  /** `str::find`: the first occurrence of `pat` in `s`. */
  function IndexOf(s: string, pat: string): (r: Option<nat>)
    ensures r.Some? ==> OccursAt(s, pat, r.value)
    ensures r.Some? ==> forall j :: 0 <= j < r.value ==> !OccursAt(s, pat, j)
    ensures r.None? ==> forall j :: !OccursAt(s, pat, j)
  {
    IndexFrom(s, pat, 0)
  }

  /** `str::contains` with a string pattern. */
  predicate Contains(s: string, pat: string) {
    IndexOf(s, pat).Some?
  }

  /** A pattern is contained exactly when it occurs at some index. */
  lemma ContainsIff(s: string, pat: string)
    ensures Contains(s, pat) <==> exists j :: OccursAt(s, pat, j)
  {
  }

  /** A one-character pattern occurs exactly where that character does. */
  lemma ContainsChar(s: string, c: char)
    ensures Contains(s, [c]) <==> c in s
  {
    if c in s {
      var j :| 0 <= j < |s| && s[j] == c;
      assert s[j..j + 1] == [c];
      assert OccursAt(s, [c], j);
    } else {
      forall j | 0 <= j < |s|
        ensures !OccursAt(s, [c], j)
      {
        assert s[j..j + 1][0] == s[j];
      }
    }
  }

  /** No occurrence of `pat` lies wholly before its first occurrence. */
  lemma NoneBeforeFirst(s: string, pat: string, i: nat)
    requires pat != []
    requires IndexOf(s, pat) == Some(i)
    ensures !Contains(s[..i], pat)
  {
    forall j | 0 <= j && j + |pat| <= i
      ensures !OccursAt(s[..i], pat, j)
    {
      assert s[..i][j..j + |pat|] == s[j..j + |pat|];
      assert !OccursAt(s, pat, j);
    }
  }

  /** A pattern with a character that is absent from `s` does not occur in `s`. */
  lemma AbsentChar(s: string, pat: string, k: nat)
    requires k < |pat| && pat[k] !in s
    ensures !Contains(s, pat)
  {
    forall j | 0 <= j < |s| && j + |pat| <= |s|
      ensures !OccursAt(s, pat, j)
    {
      assert s[j..j + |pat|][k] == s[j + k];
    }
  }

  /** `parts` joined, with `sep` between neighbours (`[&str]::join`). */
  function JoinWith(parts: seq<string>, sep: string): string {
    if |parts| == 0 then []
    else if |parts| == 1 then parts[0]
    else parts[0] + sep + JoinWith(parts[1..], sep)
  }

  /** A join begins with its first part. */
  lemma JoinStartsWith(parts: seq<string>, sep: string)
    requires |parts| >= 1
    ensures parts[0] <= JoinWith(parts, sep)
  {
  }

  /** A join ends with its last part. */
  lemma {:induction false} JoinEndsWith(parts: seq<string>, sep: string)
    requires |parts| >= 1
    ensures var last := parts[|parts| - 1];
            |last| <= |JoinWith(parts, sep)| && JoinWith(parts, sep)[|JoinWith(parts, sep)| - |last|..] == last
    decreases |parts|
  {
    if |parts| > 1 {
      var tail := JoinWith(parts[1..], sep);
      JoinEndsWith(parts[1..], sep);
      assert parts[1..][|parts| - 2] == parts[|parts| - 1];
      var r := parts[0] + sep + tail;
      assert r[|r| - |tail|..] == tail;
    }
  }

  /**
   * `str::split` with a non-empty string pattern: the pieces between the
   * non-overlapping occurrences of `sep`, found from left to right.
   */
  function SplitOn(s: string, sep: string): (r: seq<string>)
    requires sep != []
    ensures |r| >= 1
    ensures Contains(s, sep) <==> |r| >= 2
    ensures JoinWith(r, sep) == s
    ensures forall k :: 0 <= k < |r| ==> !Contains(r[k], sep)
    ensures |r| >= 2 ==> IndexOf(s, sep) == Some(|r[0]|)
    decreases |s|
  {
    match IndexOf(s, sep)
    case None =>
      [s]
    case Some(i) =>
      NoneBeforeFirst(s, sep, i);
      var rest := SplitOn(s[i + |sep|..], sep);
      assert s == s[..i] + sep + s[i + |sep|..] by {
        assert s[i..i + |sep|] == sep;
      }
      assert ([s[..i]] + rest)[1..] == rest;
      [s[..i]] + rest
  }

  /**
   * Splitting on `sep` finds `h` as the first piece when `h` holds no `sep`
   * and does not end in a character of `sep`, so that no occurrence can
   * straddle the end of `h`.
   */
  lemma SplitAfter(h: string, sep: string, x: string)
    requires sep != []
    requires !Contains(h, sep)
    requires h == [] || h[|h| - 1] !in sep
    ensures IndexOf(h + sep + x, sep) == Some(|h|)
    ensures SplitOn(h + sep + x, sep) == [h] + SplitOn(x, sep)
  {
    var s := h + sep + x;
    assert OccursAt(s, sep, |h|) by {
      assert s[|h|..|h| + |sep|] == sep;
    }
    forall j | 0 <= j < |h|
      ensures !OccursAt(s, sep, j)
    {
      if j + |sep| <= |h| {
        assert h[j..j + |sep|] == s[j..j + |sep|];
        assert !OccursAt(h, sep, j);
      } else if j + |sep| <= |s| {
        var k := |h| - 1 - j;
        assert s[j..j + |sep|][k] == h[|h| - 1];
        assert s[j..j + |sep|][k] !in sep;
      }
    }
    var i := IndexOf(s, sep).value;
    assert i == |h|;
    assert s[..i] == h;
    assert s[i + |sep|..] == x;
  }

  /** `SplitAfter` with the pieces of the remainder already known. */
  lemma SplitAfterInto(h: string, sep: string, x: string, pieces: seq<string>)
    requires sep != []
    requires !Contains(h, sep)
    requires h == [] || h[|h| - 1] !in sep
    requires SplitOn(x, sep) == pieces
    ensures SplitOn(h + sep + x, sep) == [h] + pieces
  {
    SplitAfter(h, sep, x);
  }

  /**
   * Splitting undoes joining, provided no piece holds `sep` or ends in one of
   * its characters.
   */
  lemma {:induction false} SplitOfJoin(parts: seq<string>, sep: string)
    requires sep != [] && |parts| >= 1
    requires forall k :: 0 <= k < |parts| ==> !Contains(parts[k], sep)
    requires forall k :: 0 <= k < |parts| ==> parts[k] == [] || parts[k][|parts[k]| - 1] !in sep
    ensures SplitOn(JoinWith(parts, sep), sep) == parts
    decreases |parts|
  {
    if |parts| == 1 {
      var r := SplitOn(parts[0], sep);
      assert |r| == 1;
      assert JoinWith(r, sep) == r[0];
    } else {
      var tail := JoinWith(parts[1..], sep);
      assert [parts[0]] + parts[1..] == parts;
      SplitOfJoin(parts[1..], sep);
      SplitAfterInto(parts[0], sep, tail, parts[1..]);
    }
  }

  /**
   * After its first piece, a split goes on with the text that follows the first
   * `sep`: the later pieces are those of that text.
   */
  lemma SplitOnRest(s: string, sep: string)
    requires sep != [] && Contains(s, sep)
    ensures var r := SplitOn(s, sep);
            var i := IndexOf(s, sep).value;
            && r[0] == s[..i]
            && r[1..] == SplitOn(s[i + |sep|..], sep)
  {
    var i := IndexOf(s, sep).value;
    var pieces := SplitOn(s[i + |sep|..], sep);
    assert SplitOn(s, sep) == [s[..i]] + pieces;
    assert ([s[..i]] + pieces)[1..] == pieces;
  }

  /**
   * `p` is the text of `s` from `start` up to the next `sep`, or to the end of
   * `s` when no `sep` follows: no occurrence of `sep` starts inside `p`.
   */
  predicate PieceFrom(s: string, sep: string, start: nat, p: string) {
    && start <= |s| && p <= s[start..]
    && (start + |p| == |s| || OccursAt(s, sep, start + |p|))
    && forall j :: start <= j < start + |p| ==> !OccursAt(s, sep, j)
  }

  /** The first piece of a split runs up to the first `sep`, or over the whole string. */
  lemma FirstPiece(x: string, sep: string)
    requires sep != []
    ensures PieceFrom(x, sep, 0, SplitOn(x, sep)[0])
  {
    var r := SplitOn(x, sep);
    if |r| == 1 {
      assert JoinWith(r, sep) == r[0];
    } else {
      assert x == r[0] + sep + JoinWith(r[1..], sep);
    }
  }

  /** A piece of a suffix of `s` is a piece of `s` itself. */
  lemma PieceOfSuffix(s: string, sep: string, start: nat, p: string)
    requires start <= |s| && PieceFrom(s[start..], sep, 0, p)
    ensures PieceFrom(s, sep, start, p)
  {
    var rest := s[start..];
    if |p| < |rest| {
      var k := start + |p|;
      assert s[k..k + |sep|] == rest[|p|..|p| + |sep|];
    }
    forall j | start <= j < start + |p|
      ensures !OccursAt(s, sep, j)
    {
      assert !OccursAt(rest, sep, j - start);
      if j + |sep| <= |s| {
        assert s[j..j + |sep|] == rest[j - start..j - start + |sep|];
      }
    }
  }

  /**
   * The second piece of a split is what follows the first `sep`, up to the
   * next `sep` or the end of `s`.
   */
  lemma SecondPiece(s: string, sep: string)
    requires sep != [] && Contains(s, sep)
    ensures PieceFrom(s, sep, IndexOf(s, sep).value + |sep|, SplitOn(s, sep)[1])
  {
    var i := IndexOf(s, sep).value;
    var rest := s[i + |sep|..];
    SplitOnRest(s, sep);
    var p := SplitOn(rest, sep)[0];
    assert SplitOn(s, sep)[1] == SplitOn(s, sep)[1..][0];
    PieceAfterSeparator(s, sep, i + |sep|, p);
  }

  /** The first piece of the text after `start` is a piece of `s` from `start`. */
  lemma PieceAfterSeparator(s: string, sep: string, start: nat, p: string)
    requires sep != [] && start <= |s|
    requires p == SplitOn(s[start..], sep)[0]
    ensures PieceFrom(s, sep, start, p)
  {
    FirstPiece(s[start..], sep);
    PieceOfSuffix(s, sep, start, p);
  }

  /** `str::replace`: every non-overlapping occurrence of `from`, left to right, becomes `to`. */
  function Replace(s: string, from: string, to: string): (r: string)
    requires from != []
    ensures !Contains(s, from) ==> r == s
    decreases |s|
  {
    match IndexOf(s, from)
    case None => s
    case Some(i) => s[..i] + to + Replace(s[i + |from|..], from, to)
  }

  /** `replace` is `split` followed by `join` with the replacement. */
  lemma {:induction false} ReplaceIsSplitJoin(s: string, from: string, to: string)
    requires from != []
    ensures Replace(s, from, to) == JoinWith(SplitOn(s, from), to)
    decreases |s|
  {
    match IndexOf(s, from)
    case None =>
    case Some(i) =>
      var rest := s[i + |from|..];
      ReplaceIsSplitJoin(rest, from, to);
      var parts := SplitOn(rest, from);
      assert SplitOn(s, from) == [s[..i]] + parts;
      assert ([s[..i]] + parts)[1..] == parts;
  }

  /** An occurrence at the very start is removed and the search resumes after it. */
  lemma ReplaceLeading(s: string, from: string, to: string)
    requires from != [] && OccursAt(s, from, 0)
    ensures Replace(s, from, to) == to + Replace(s[|from|..], from, to)
  {
    assert IndexOf(s, from) == Some(0);
  }

  /** `str::strip_prefix`. */
  function StripPrefix(s: string, prefix: string): (r: Option<string>)
    ensures r.Some? <==> prefix <= s
    ensures r.Some? ==> prefix + r.value == s
  {
    if prefix <= s then Some(s[|prefix|..]) else None
  }

  /** `str::strip_suffix`. */
  function StripSuffix(s: string, suffix: string): (r: Option<string>)
    ensures r.Some? <==> |suffix| <= |s| && s[|s| - |suffix|..] == suffix
    ensures r.Some? ==> r.value + suffix == s
  {
    if |suffix| <= |s| && s[|s| - |suffix|..] == suffix then Some(s[..|s| - |suffix|]) else None
  }

  /** Rust's `char::is_whitespace`: the Unicode White_Space property. */
  predicate IsWhitespace(c: char) {
    var n := c as int;
    (9 <= n <= 13) || n == 0x20 || n == 0x85 || n == 0xA0 || n == 0x1680
    || (0x2000 <= n <= 0x200A) || n == 0x2028 || n == 0x2029 || n == 0x202F
    || n == 0x205F || n == 0x3000
  }

  /** A non-empty run of non-whitespace characters. */
  predicate IsWord(w: string) {
    |w| > 0 && forall i :: 0 <= i < |w| ==> !IsWhitespace(w[i])
  }

  /** The end of the run of non-whitespace characters that starts at `i`. */
  function WordEnd(s: string, i: nat): (r: nat)
    requires i <= |s|
    ensures i <= r <= |s|
    ensures forall j :: i <= j < r ==> !IsWhitespace(s[j])
    ensures r == |s| || IsWhitespace(s[r])
    decreases |s| - i
  {
    if i == |s| || IsWhitespace(s[i]) then i else WordEnd(s, i + 1)
  }

  /** `str::split_whitespace`: the maximal runs of non-whitespace characters, in order. */
  function Tokens(s: string): (r: seq<string>)
    ensures forall k :: 0 <= k < |r| ==> IsWord(r[k])
    decreases |s|
  {
    if s == [] then []
    else if IsWhitespace(s[0]) then Tokens(s[1..])
    else
      var n := WordEnd(s, 0);
      [s[..n]] + Tokens(s[n..])
  }

  /** Leading whitespace is skipped. */
  lemma TokensAfterSpace(c: char, s: string)
    requires IsWhitespace(c)
    ensures Tokens([c] + s) == Tokens(s)
  {
    assert ([c] + s)[1..] == s;
  }

  /** A word followed by whitespace or by nothing is the first token. */
  lemma TokensOfWord(w: string, rest: string)
    requires IsWord(w)
    requires rest == [] || IsWhitespace(rest[0])
    ensures Tokens(w + rest) == [w] + Tokens(rest)
  {
    var s := w + rest;
    assert s[0] == w[0];
    var n := WordEnd(s, 0);
    assert forall j :: 0 <= j < |w| ==> s[j] == w[j];
    assert |w| == |s| || s[|w|] == rest[0];
    assert n == |w|;
    assert s[..n] == w;
    assert s[n..] == rest;
  }

  /** `split_whitespace` undoes joining words with single spaces. */
  lemma {:induction false} TokensOfJoin(words: seq<string>)
    requires forall k :: 0 <= k < |words| ==> IsWord(words[k])
    ensures Tokens(JoinWith(words, " ")) == words
    decreases |words|
  {
    if |words| == 0 {
    } else if |words| == 1 {
      TokensOfWord(words[0], []);
      assert words[0] + [] == words[0];
    } else {
      var tail := JoinWith(words[1..], " ");
      TokensOfJoin(words[1..]);
      TokensAfterSpace(' ', tail);
      TokensOfWord(words[0], " " + tail);
      assert words[0] + " " + tail == words[0] + (" " + tail);
      assert [words[0]] + words[1..] == words;
    }
  }

  predicate IsDigit(c: char) {
    '0' <= c <= '9'
  }

  predicate AllDigits(s: string) {
    forall i :: 0 <= i < |s| ==> IsDigit(s[i])
  }

  function DigitChar(d: nat): (c: char)
    requires d < 10
    ensures IsDigit(c)
  {
    (48 + d) as char
  }

  /** The number an ASCII digit string denotes, most significant digit first. */
  function DigitsValue(s: string): nat
    requires AllDigits(s)
  {
    if s == [] then 0 else DigitsValue(s[..|s| - 1]) * 10 + ((s[|s| - 1] as int) - 48)
  }

  /** `n.to_string()`: the decimal form of `n` without leading zeros. */
  function Decimal(n: nat): (r: string)
    ensures |r| >= 1 && AllDigits(r)
    ensures DigitsValue(r) == n
    ensures n > 0 ==> r[0] != '0'
  {
    if n < 10 then [DigitChar(n)]
    else
      var high := Decimal(n / 10);
      var r := high + [DigitChar(n % 10)];
      assert r[..|r| - 1] == high;
      r
  }

  /** `tok` is `d`, with or without a leading '+', and `d` is ASCII digits denoting a 16-bit value. */
  predicate U16Spelling(tok: string, d: string) {
    && (tok == d || tok == "+" + d)
    && d != [] && AllDigits(d) && DigitsValue(d) < 0x1_0000
  }

  /**
   * `str::parse::<u16>`: an optional `+`, then at least one ASCII digit, and a
   * value that fits in 16 bits.
   */
  function ParseU16(tok: string): (r: Option<int>)
    ensures r.Some? <==> exists d :: U16Spelling(tok, d)
    ensures forall d :: U16Spelling(tok, d) ==> r == Some(DigitsValue(d))
    ensures r.Some? ==> 0 <= r.value < 0x1_0000
  {
    var digits := if |tok| > 0 && tok[0] == '+' then tok[1..] else tok;
    SpellingDigits(tok, digits);
    if digits == [] || !AllDigits(digits) then None
    else if DigitsValue(digits) < 0x1_0000 then
      assert U16Spelling(tok, digits);
      Some(DigitsValue(digits))
    else None
  }

  /** The digits of a spelling are what follows an optional leading '+'. */
  lemma SpellingDigits(tok: string, digits: string)
    requires digits == if |tok| > 0 && tok[0] == '+' then tok[1..] else tok
    ensures forall d :: U16Spelling(tok, d) ==> d == digits
    ensures |tok| > 0 && tok[0] == '+' ==> tok == "+" + digits
  {
    forall d | U16Spelling(tok, d)
      ensures d == digits
    {
      if tok == d {
        assert IsDigit(d[0]);
      }
    }
    if |tok| > 0 && tok[0] == '+' {
      assert tok == [tok[0]] + tok[1..];
    }
  }

  /** Parsing the decimal form of a 16-bit value gives the value back. */
  lemma ParseU16OfDecimal(n: nat)
    requires n < 0x1_0000
    ensures ParseU16(Decimal(n)) == Some(n)
  {
    assert Decimal(n)[0] != '+' by {
      assert IsDigit(Decimal(n)[0]);
    }
  }

  /** The characters up to the first `c`, and those after it; in text_io a capture reads up to its delimiter. */
  function TakeUntil(s: string, c: char): (r: (string, string))
    ensures c !in r.0
    ensures c in s ==> s == r.0 + [c] + r.1
    ensures c !in s ==> r.0 == s && r.1 == []
    decreases |s|
  {
    if s == [] then ([], [])
    else if s[0] == c then ([], s[1..])
    else
      var (field, rest) := TakeUntil(s[1..], c);
      assert s == [s[0]] + s[1..];
      ([s[0]] + field, rest)
  }

  /** A field free of the delimiter is captured whole. */
  lemma {:induction false} TakeUntilField(field: string, c: char, rest: string)
    requires c !in field
    ensures TakeUntil(field + [c] + rest, c) == (field, rest)
    decreases |field|
  {
    var s := field + [c] + rest;
    if field == [] {
      assert s[1..] == rest;
    } else {
      assert s[1..] == field[1..] + [c] + rest;
      TakeUntilField(field[1..], c, rest);
      assert [field[0]] + field[1..] == field;
    }
  }
}
