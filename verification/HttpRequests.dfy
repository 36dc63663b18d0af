/** Requests as a client may lay them out, and which texts http_req_header_parser takes for requests:
    the request line and headers of sections 4.2 and 5.1 of RFC 2616. */
module HttpRequests {
  import opened Common
  import opened BasicFuncs
  import opened HttpParser
  import opened HttpRoundTrip

  // ---------------------------------------------------------------- the names that are known

  /** The header names that the parser knows, and where their values go. */
  predicate IsKnown(name: string, f: Field) {
    || (name == "Accept" && f == Accept) || (name == "Accept-Charset" && f == AcceptCharset)
    || (name == "Accept-Encoding" && f == AcceptEncode) || (name == "Accept-Language" && f == AcceptLang)
    || (name == "Cookie" && f == Cookie) || (name == "Host" && f == Host)
    || (name == "Referer" && f == Referer) || (name == "User-Agent" && f == UserAgent)
  }

  lemma ShorterBegins(p: string, q: string, s: string)
    requires p <= s && q <= s && |p| <= |q|
    ensures p <= q
  {
    assert forall i | 0 <= i < |p| :: p[i] == s[i] && q[i] == s[i];
  }

  lemma LongestAccept(key: string, name: string, f: Field)
    requires IsKnown(name, f) && name <= key && "Accept" <= key
    requires "Accept-Language" <= key ==> "Accept-Language" <= name
    requires "Accept-Encoding" <= key ==> "Accept-Encoding" <= name
    requires "Accept-Charset" <= key ==> "Accept-Charset" <= name
    requires "Accept" <= name
    ensures FieldOf(key) == f
  {
    if name == "Accept-Encoding" {
      SeventhOf("Accept-Language", name);
    } else if name == "Accept-Charset" {
      assert |name| < 15;
    } else if name == "Accept" {
      assert |name| < 14;
    } else {
      SeventhOf("Accept", name);
    }
  }

  /** Prefixes agree where they can. */
  lemma SeventhOf(p: string, name: string)
    ensures p <= name ==> (|p| > 7 ==> p[7] == name[7]) && (p != "" ==> p[0] == name[0])
  {
  }

  lemma LongestOther(key: string, name: string, f: Field)
    requires IsKnown(name, f) && name <= key && name[0] != 'A'
    ensures FieldOf(key) == f
  {
    assert key[0] == name[0];
    assert !("Accept" <= key) && !("Accept-Language" <= key);
    assert !("Accept-Encoding" <= key) && !("Accept-Charset" <= key);
  }

  /** A key belongs to the longest known name that it begins with, whatever the order of the tests. */
  lemma LongestNameCounts(key: string, name: string, f: Field)
    requires IsKnown(name, f) && name <= key
    requires forall n, g :: IsKnown(n, g) && n <= key ==> |n| <= |name|
    ensures FieldOf(key) == f
  {
    if name[0] == 'A' {
      forall n, g | IsKnown(n, g) && n <= key
        ensures n <= name
      {
        ShorterBegins(n, name, key);
      }
      assert "Accept" <= name;
      assert IsKnown("Accept-Charset", AcceptCharset);
      assert IsKnown("Accept-Encoding", AcceptEncode) && IsKnown("Accept-Language", AcceptLang);
      LongestAccept(key, name, f);
    } else {
      LongestOther(key, name, f);
    }
  }

  lemma OtherNames(key: string)
    requires forall n, g :: IsKnown(n, g) ==> !(n <= key)
    ensures FieldOf(key) == Unknown
  {
    assert IsKnown("Accept", Accept) && IsKnown("Accept-Charset", AcceptCharset);
    assert IsKnown("Accept-Encoding", AcceptEncode) && IsKnown("Accept-Language", AcceptLang);
    assert IsKnown("Cookie", Cookie) && IsKnown("Host", Host) && IsKnown("Referer", Referer);
    assert IsKnown("User-Agent", UserAgent);
  }

  /** The names themselves, with their colons. */
  lemma NamesAreKnown(name: string, f: Field)
    requires IsKnown(name, f)
    ensures FieldOf(name + ":") == f
  {
    var key := name + ":";
    forall n, g | IsKnown(n, g) && n <= key
      ensures |n| <= |name|
    {
      if |n| > |name| {
        ColonInside(n, name);
      }
    }
    LongestNameCounts(key, name, f);
  }

  lemma ColonInside(n: string, name: string)
    requires n <= name + ":" && |n| > |name|
    ensures ':' in n
  {
    assert n[|name|] == ':';
  }

  // ---------------------------------------------------------------- headers as they may be laid out

  /** A header line: indentation, name, colon and value. */
  datatype HeaderRow = HeaderRow(indent: nat, name: string, value: string)

  function LineOfRow(h: HeaderRow): string {
    h.name + (":" + h.value)
  }

  ghost predicate RowOk(h: HeaderRow) {
    h.name != "" && h.name[0] != ' ' && ':' !in h.name && NoLineEnd(LineOfRow(h))
  }

  function RowsText(rows: seq<HeaderRow>): string {
    if rows == [] then ""
    else Spaces(rows[0].indent) + (LineOfRow(rows[0]) + CRLF + RowsText(rows[1..]))
  }

  /** How the headers end: with a line that has no key, whatever follows it, or with a header line that has
      no line end. */
  datatype Ending = NoKey(indent: nat, line: string, more: Option<string>) | LastRow(row: HeaderRow)

  ghost predicate EndingOk(e: Ending) {
    match e
    case NoKey(_, line, _) =>
      NoLineEnd(line) && (line == "" || (line[0] != ' ' && (line[0] == ':' || ':' !in line)))
    case LastRow(h) => RowOk(h)
  }

  function EndingText(e: Ending): string {
    match e
    case NoKey(indent, line, None) => Spaces(indent) + line
    case NoKey(indent, line, Some(more)) => Spaces(indent) + (line + CRLF + more)
    case LastRow(h) => Spaces(h.indent) + LineOfRow(h)
  }

  lemma IndentIsSkipped(n: nat, h: string, answer: HeaderLine)
    requires (h != "" ==> h[0] != ' ') && ReadsHeader(h, answer)
    ensures ReadsHeader(Spaces(n) + h, answer)
  {
    assert LookInside(0);
    SpacesAreSkipped(n, h);
    SpacesAreSkipped(0, h);
    assert Spaces(0) + h == h;
  }

  lemma RowSplits(h: HeaderRow)
    requires RowOk(h)
    ensures
      var line := LineOfRow(h);
      && line != "" && line[0] != ' ' && Find(line, ":") == |h.name| > 0
      && line[..|h.name| + 1] == h.name + ":" && line[|h.name| + 1..] == h.value
  {
    var line := LineOfRow(h);
    assert line == h.name + ([':'] + h.value);
    CharIsFound(h.name, ':', h.value);
  }

  lemma RowIsRead(h: HeaderRow, rest: string)
    requires RowOk(h)
    ensures ReadsHeader(Spaces(h.indent) + (LineOfRow(h) + CRLF + rest),
                Header(Piece(h.name + ":"), Piece(Trim(h.value)), Some(Piece(rest))))
  {
    var line, answer := LineOfRow(h), Header(Piece(h.name + ":"), Piece(Trim(h.value)), Some(Piece(rest)));
    RowSplits(h);
    LineEndIsFound(line, rest);
    assert (line + CRLF + rest)[0] == line[0];
    ReadFromParts(line + CRLF + rest, line, rest, |h.name|, answer);
    IndentIsSkipped(h.indent, line + CRLF + rest, answer);
  }

  lemma LastRowIsRead(h: HeaderRow)
    requires RowOk(h)
    ensures ReadsHeader(EndingText(LastRow(h)), Header(Piece(h.name + ":"), Piece(Trim(h.value)), None))
  {
    var line, answer := LineOfRow(h), Header(Piece(h.name + ":"), Piece(Trim(h.value)), None);
    RowSplits(h);
    FindIsNot(line, CRLF);
    assert ReadHeader(line) == answer;
    IndentIsSkipped(h.indent, line, answer);
  }

  lemma NoKeyIsRead(indent: nat, line: string, more: Option<string>)
    requires EndingOk(NoKey(indent, line, more))
    ensures ReadsHeader(EndingText(NoKey(indent, line, more)), NoHeader)
  {
    if line != "" && line[0] == ':' {
      assert line == "" + ([':'] + line[1..]);
      CharIsFound("", ':', line[1..]);
    } else {
      CharIsNotFound(line, ':');
    }
    match more
    case None =>
      FindIsNot(line, CRLF);
      assert ReadHeader(line) == NoHeader;
      IndentIsSkipped(indent, line, NoHeader);
    case Some(rest) =>
      var h := line + CRLF + rest;
      LineEndIsFound(line, rest);
      assert h[0] == if line == "" then '\r' else line[0];
      assert SkipChar(h, ' ') == h;
      assert ReadHeader(h) == NoHeader;
      IndentIsSkipped(indent, h, NoHeader);
  }

  /** What the headers add to what the structure says. */
  function Told(rows: seq<HeaderRow>, r: Request): Request
    decreases |rows|
  {
    if rows == [] then r else Told(rows[1..], Store(r, FieldOf(rows[0].name + ":"), Trim(rows[0].value)))
  }

  function Rows(rows: seq<HeaderRow>, e: Ending): seq<HeaderRow> {
    rows + if e.LastRow? then [e.row] else []
  }

  lemma ToldOne(h: HeaderRow, r: Request)
    ensures Told([h], r) == Store(r, FieldOf(h.name + ":"), Trim(h.value))
  {
    assert [h][1..] == [];
  }

  lemma EndingIsTaken(e: Ending, r: Request)
    requires EndingOk(e)
    ensures TakesHeaders(EndingText(e), r, Told(Rows([], e), r))
  {
    match e
    case NoKey(indent, line, more) =>
      assert Rows([], e) == [];
      NoKeyIsRead(indent, line, more);
      HeadersEnd(EndingText(e), r);
    case LastRow(h) =>
      assert Rows([], e) == [h];
      ToldOne(h, r);
      LastRowIsRead(h);
      HeadersLast(EndingText(e), r, Piece(h.name + ":"), Piece(Trim(h.value)));
  }

  lemma RowsSplit(h: HeaderRow, rows: seq<HeaderRow>, e: Ending, rest: string)
    requires rows != [] && h == rows[0] && rest == RowsText(rows[1..]) + EndingText(e)
    ensures RowsText(rows) + EndingText(e) == Spaces(h.indent) + (LineOfRow(h) + CRLF + rest)
    ensures Rows(rows, e) != [] && Rows(rows, e)[0] == h && Rows(rows, e)[1..] == Rows(rows[1..], e)
  {
  }

  /** Header lines are taken one after the other, up to the ending. */
  lemma {:induction false} RowsAreTaken(rows: seq<HeaderRow>, e: Ending, r: Request)
    requires EndingOk(e) && forall i | 0 <= i < |rows| :: RowOk(rows[i])
    ensures TakesHeaders(RowsText(rows) + EndingText(e), r, Told(Rows(rows, e), r))
    decreases |rows|
  {
    if rows == [] {
      assert RowsText(rows) + EndingText(e) == EndingText(e);
      EndingIsTaken(e, r);
    } else {
      var h, rest := rows[0], RowsText(rows[1..]) + EndingText(e);
      assert RowOk(h);
      RowIsRead(h, rest);
      RowsSplit(h, rows, e, rest);
      RowsAreTaken(rows[1..], e, Store(r, FieldOf(h.name + ":"), Trim(h.value)));
      HeadersNext(Spaces(h.indent) + (LineOfRow(h) + CRLF + rest), r, Piece(h.name + ":"), Piece(Trim(h.value)), rest,
          Told(Rows(rows, e), r));
    }
  }

  /** What the parser looks at, for a request laid out in this way. */
  function RequestText(g: Get, rows: seq<HeaderRow>, e: Ending): string {
    LineOf(g) + CRLF + (RowsText(rows) + EndingText(e))
  }

  /** What is known of the line of a request. */
  function WithLine(g: Get, r: Request): Request {
    r.(uri := Piece(g.uri), version := if g.http11 then 0x11 else 0x10)
  }

  /** Any GET line and any header lines are accepted and taken. */
  lemma RequestIsTaken(g: Get, rows: seq<HeaderRow>, e: Ending, r: Request)
    requires GetOk(g) && EndingOk(e) && forall i | 0 <= i < |rows| :: RowOk(rows[i])
    ensures TakesRequest(RequestText(g, rows, e), r, Outcome(Ok, Told(Rows(rows, e), WithLine(g, r))))
  {
    var line, rest := LineOf(g), RowsText(rows) + EndingText(e);
    LineEndIsFound(line, rest);
    RequestLineIsRead(g);
    RowsAreTaken(rows, e, WithLine(g, r));
    AcceptedFromParts(line + CRLF + rest, |line|, Piece(g.uri), if g.http11 then 0x11 else 0x10, rest, r,
        Told(Rows(rows, e), WithLine(g, r)));
  }

  lemma AcceptedFromParts(d: string, k: nat, uri: Piece, version: int, rest: string, r: Request, last: Request)
    requires Find(d, CRLF) == k > 0 && ReadsLine(d[..k], GetLine(uri, version))
    requires d[k + 2..] == rest && TakesHeaders(rest, r.(uri := uri, version := version), last)
    ensures TakesRequest(d, r, Outcome(Ok, last))
  {
    assert LookInside(0);
  }

  // ---------------------------------------------------------------- which header goes where

  /** A request with this one header line makes of `r` what `q` is. */
  ghost predicate Gives(g: Get, indent: nat, name: string, value: string, r: Request, q: Request) {
    TakesRequest(RequestText(g, [HeaderRow(indent, name, value)], NoKey(0, "\r", None)), r, Outcome(Ok, q))
  }

  lemma OneHeader(g: Get, h: HeaderRow, r: Request, q: Request)
    requires GetOk(g) && RowOk(h) && q == Store(WithLine(g, r), FieldOf(h.name + ":"), Trim(h.value))
    ensures Gives(g, h.indent, h.name, h.value, r, q)
  {
    var e := NoKey(0, "\r", None);
    ToldOne(h, WithLine(g, r));
    assert Rows([h], e) == [h];
    RequestIsTaken(g, [h], e, r);
  }

  lemma PlainRow(indent: nat, name: string, value: string)
    requires name != "" && name[0] != ' ' && ':' !in name && '\r' !in name && NoLineEnd(value)
    ensures RowOk(HeaderRow(indent, name, value))
  {
    assert name + (":" + value) == name + ":" + value;
    NoLineEndAfter(name + ":", value);
  }

  /** Every header that the parser knows goes, without the spaces around its value, to the field of its own
      name, and to no other. */
  lemma HeaderGoesToItsField(g: Get, i: nat, v: string, r: Request)
    requires GetOk(g) && NoLineEnd(v)
    ensures var q := WithLine(g, r);
            && Gives(g, i, "Accept-Language", v, r, q.(acceptLang := Piece(Trim(v))))
            && Gives(g, i, "Accept-Encoding", v, r, q.(acceptEncode := Piece(Trim(v))))
            && Gives(g, i, "Accept-Charset", v, r, q.(acceptCharset := Piece(Trim(v))))
            && Gives(g, i, "Accept", v, r, q.(accept := Piece(Trim(v))))
            && Gives(g, i, "Cookie", v, r, q.(cookie := Piece(Trim(v))))
            && Gives(g, i, "Host", v, r, q.(host := Piece(Trim(v))))
            && Gives(g, i, "User-Agent", v, r, q.(ua := Piece(Trim(v))))
  {
    var q := WithLine(g, r);
    GoesTo(g, i, "Accept-Language", AcceptLang, v, r, q.(acceptLang := Piece(Trim(v))));
    GoesTo(g, i, "Accept-Encoding", AcceptEncode, v, r, q.(acceptEncode := Piece(Trim(v))));
    GoesTo(g, i, "Accept-Charset", AcceptCharset, v, r, q.(acceptCharset := Piece(Trim(v))));
    GoesTo(g, i, "Accept", Accept, v, r, q.(accept := Piece(Trim(v))));
    GoesTo(g, i, "Cookie", Cookie, v, r, q.(cookie := Piece(Trim(v))));
    GoesTo(g, i, "Host", Host, v, r, q.(host := Piece(Trim(v))));
    GoesTo(g, i, "User-Agent", UserAgent, v, r, q.(ua := Piece(Trim(v))));
  }

  lemma GoesTo(g: Get, i: nat, name: string, f: Field, v: string, r: Request, q: Request)
    requires GetOk(g) && NoLineEnd(v) && IsKnown(name, f) && q == Store(WithLine(g, r), f, Trim(v))
    ensures Gives(g, i, name, v, r, q)
  {
    NamesAreKnown(name, f);
    PlainRow(i, name, v);
    OneHeader(g, HeaderRow(i, name, v), r, q);
  }

  /** A Referer is cut in front of its first slash, if that is not its last character; otherwise it changes
      nothing. */
  lemma RefererIsCut(g: Get, i: nat, v: string, host: string, path: string, r: Request)
    requires GetOk(g) && NoLineEnd(v) && '/' !in host && NoLineEnd(host)
    ensures Trim(v) == host + "/" + path && path != "" ==>
              Gives(g, i, "Referer", v, r, WithLine(g, r).(referHost := Piece(host), referUri := Piece("/" + path)))
    ensures Trim(v) == host || Trim(v) == host + "/" ==> Gives(g, i, "Referer", v, r, WithLine(g, r))
  {
    if Trim(v) == host + "/" + path && path != "" {
      SlashIsFound(host, path);
      GoesTo(g, i, "Referer", Referer, v, r,
          WithLine(g, r).(referHost := Piece(host), referUri := Piece("/" + path)));
    }
    if Trim(v) == host || Trim(v) == host + "/" {
      NoSlashIsFound(host);
      GoesTo(g, i, "Referer", Referer, v, r, WithLine(g, r));
    }
  }

  lemma SlashIsFound(host: string, path: string)
    requires '/' !in host && path != ""
    ensures var v := host + "/" + path;
            Slash(v) == |host| && v[..|host|] == host && v[|host|..] == "/" + path
  {
    var v := host + "/" + path;
    assert v[..|v| - 1] == host + (['/'] + path[..|path| - 1]);
    CharIsFound(host, '/', path[..|path| - 1]);
  }

  lemma NoSlashIsFound(host: string)
    requires '/' !in host
    ensures Slash(host) == -1 && Slash(host + "/") == -1
  {
    assert (host + "/")[..|host + "/"| - 1] == host;
    CharIsNotFound(host, '/');
    if host != "" {
      CharIsNotFound(host[..|host| - 1], '/');
    }
  }

  /** A header that begins with none of the known names changes nothing. */
  lemma OtherHeadersAreIgnored(g: Get, h: HeaderRow, r: Request)
    requires GetOk(g) && RowOk(h) && forall n, f :: IsKnown(n, f) ==> !(n <= h.name)
    ensures Gives(g, h.indent, h.name, h.value, r, WithLine(g, r))
  {
    var key := h.name + ":";
    forall n, f | IsKnown(n, f)
      ensures !(n <= key)
    {
      if n <= key {
        BeginsName(n, h.name);
      }
    }
    OtherNames(key);
    OneHeader(g, h, r, WithLine(g, r));
  }

  lemma BeginsName(n: string, name: string)
    requires n <= name + ":" && ':' !in n
    ensures n <= name
  {
    if |n| > |name| {
      ColonInside(n, name);
    } else {
      assert n == (name + ":")[..|n|] == name[..|n|];
    }
  }

  // ---------------------------------------------------------------- which texts are requests

  lemma FirstPlace(s: string, c: char, u: nat)
    requires Find(s, [c]) == u
    ensures u < |s| && s[u] == c && c !in s[..u]
  {
    FindIsFirst(s, [c]);
    assert s[u..u + 1] == [c];
    forall k: nat | k < u
      ensures s[k] != c
    {
      assert !At(s, k, [c]);
      assert s[k..k + 1] == [s[k]];
    }
  }

  lemma UriEnds(rest: string, u: nat)
    requires rest != "" && Find(rest[..|rest| - 1], " ") == u
    ensures u < |rest| && rest[u] == ' ' && ' ' !in rest[..u]
  {
    var searched := rest[..|rest| - 1];
    FirstPlace(searched, ' ', u);
    assert searched[..u] == rest[..u];
  }

  lemma VersionSplits(version: string)
    requires VersionOf(version) != -1
    ensures |version| >= 8 && version == (if HTTP_11 <= version then HTTP_11 else HTTP_10) + version[8..]
  {
  }

  lemma LineFromPieces(line: string, before: nat, rest: string, u: nat, after: nat, version: string)
    requires GET <= line && line[3..] == Spaces(before) + rest && u <= |rest|
    requires rest[u..] == Spaces(after) + version && VersionOf(version) != -1
    ensures line == LineOf(Get(before, rest[..u], after, HTTP_11 <= version, version[8..]))
  {
    VersionSplits(version);
    assert line == GET + line[3..] && rest == rest[..u] + rest[u..];
  }

  /** A line that the parser accepts is that of a GET. */
  lemma AcceptedLine(line: string) returns (g: Get)
    requires ReadRequestLine(line).GetLine? && NoLineEnd(line)
    ensures GetOk(g) && LineOf(g) == line
  {
    var rest := SkipChar(line[3..], ' ');
    var u := Find(rest[..|rest| - 1], " ");
    UriEnds(rest, u);
    var version := SkipChar(rest[u..], ' ');
    var before := SkippedAreSpaces(line[3..]);
    var after := SkippedAreSpaces(rest[u..]);
    assert rest[u..][0] == ' ';
    LineFromPieces(line, before, rest, u, after, version);
    g := Get(before, rest[..u], after, HTTP_11 <= version, version[8..]);
  }

  /** The text up to its first line end. */
  lemma LineIsCut(t: string, k: nat)
    requires Find(t, CRLF) == k
    ensures k + 2 <= |t| && NoLineEnd(t[..k]) && t == t[..k] + CRLF + t[k + 2..]
  {
    FindIsFirst(t, CRLF);
    forall j: nat
      ensures !At(t[..k], j, CRLF)
    {
      if j + 2 <= k {
        assert !At(t, j, CRLF);
        assert t[..k][j..j + 2] == t[j..j + 2];
      }
    }
  }

  lemma KeyIsCut(line: string, indent: nat)
    requires NoLineEnd(line) && Find(line, ":") > 0 && line[0] != ' '
    ensures var h := HeaderRow(indent, line[..Find(line, ":")], line[Find(line, ":") + 1..]);
            RowOk(h) && LineOfRow(h) == line
  {
    var colon := Find(line, ":");
    FirstPlace(line, ':', colon);
    assert line == line[..colon] + (":" + line[colon + 1..]);
  }

  lemma NoKeyInLine(line: string)
    requires line != "" && Find(line, ":") <= 0
    ensures line[0] == ':' || ':' !in line
  {
    FindIsFirst(line, ":");
    if Find(line, ":") == 0 {
      assert line[0..1] == ":";
    } else {
      forall k: nat | k < |line|
        ensures line[k] != ':'
      {
        assert !At(line, k, ":");
        assert line[k..k + 1] == [line[k]];
      }
    }
  }

  /** Indentation, the first line, and what follows its line end. */
  lemma FirstLineIsCut(h: string) returns (n: nat, line: string, more: Option<string>)
    ensures NoLineEnd(line) && (line != "" ==> line[0] != ' ')
    ensures more == None ==> h == Spaces(n) + line
    ensures more.Some? ==> |more.value| < |h| && h == Spaces(n) + (line + CRLF + more.value)
  {
    n := SkippedAreSpaces(h);
    var t := SkipChar(h, ' ');
    var j := Find(t, CRLF);
    if j == -1 {
      FindIsFirst(t, CRLF);
      line, more := t, None;
    } else {
      LineIsCut(t, j);
      line, more := t[..j], Some(t[j + 2..]);
    }
  }

  /** A line is a header, or it has no key. */
  lemma LineIsRow(line: string, n: nat) returns (row: Option<HeaderRow>)
    requires NoLineEnd(line) && (line != "" ==> line[0] != ' ')
    ensures row.Some? ==> RowOk(row.value) && LineOfRow(row.value) == line && row.value.indent == n
    ensures row == None ==> forall more :: EndingOk(NoKey(n, line, more))
  {
    row := None;
    if line != "" && Find(line, ":") > 0 {
      KeyIsCut(line, n);
      row := Some(HeaderRow(n, line[..Find(line, ":")], line[Find(line, ":") + 1..]));
    } else if line != "" {
      NoKeyInLine(line);
    }
  }

  /** Every text is laid out as header lines and an ending. */
  lemma {:induction false} EveryTextIsLaidOut(h: string) returns (rows: seq<HeaderRow>, e: Ending)
    ensures EndingOk(e) && forall i | 0 <= i < |rows| :: RowOk(rows[i])
    ensures h == RowsText(rows) + EndingText(e)
    decreases |h|
  {
    var n, line, more := FirstLineIsCut(h);
    var row := LineIsRow(line, n);
    rows := [];
    if row == None {
      e := NoKey(n, line, more);
    } else if more == None {
      e := LastRow(row.value);
    } else {
      var others;
      others, e := EveryTextIsLaidOut(more.value);
      RowsJoin(row.value, others, e, more.value);
      rows := [row.value] + others;
    }
  }

  lemma RowsJoin(row: HeaderRow, rows: seq<HeaderRow>, e: Ending, rest: string)
    requires rest == RowsText(rows) + EndingText(e)
    ensures RowsText([row] + rows) + EndingText(e) == Spaces(row.indent) + (LineOfRow(row) + CRLF + rest)
  {
    assert ([row] + rows)[1..] == rows;
  }

  /** So every accepted text is a GET line with header lines and an ending, and says what they say. */
  lemma AcceptedIsLaidOut(d: string, r: Request) returns (g: Get, rows: seq<HeaderRow>, e: Ending)
    requires TakeRequest(d, r).status == Ok
    ensures GetOk(g) && EndingOk(e) && forall i | 0 <= i < |rows| :: RowOk(rows[i])
    ensures d == RequestText(g, rows, e)
    ensures TakeRequest(d, r).says == Told(Rows(rows, e), WithLine(g, r))
  {
    AcceptedExactly(d, r);
    var line, rest :| GetOk(line) && d == LineOf(line) + CRLF + rest;
    g := line;
    rows, e := EveryTextIsLaidOut(rest);
    RequestIsTaken(g, rows, e, r);
    assert LookInside(0);
  }

  /** Exactly those texts are accepted that begin with a GET line; what a refusal changes is the URI at
      most. */
  lemma AcceptedExactly(d: string, r: Request)
    ensures TakeRequest(d, r).status == Ok <==> exists g, rest :: GetOk(g) && d == LineOf(g) + CRLF + rest
    ensures TakeRequest(d, r).status == Err ==> TakeRequest(d, r).says == r.(uri := TakeRequest(d, r).says.uri)
  {
    if TakeRequest(d, r).status == Ok {
      var k := Find(d, CRLF);
      LineIsCut(d, k);
      var line, rest := d[..k], d[k + 2..];
      var g := AcceptedLine(line);
      assert GetOk(g) && d == LineOf(g) + CRLF + rest;
    }
    if g, rest :| GetOk(g) && d == LineOf(g) + CRLF + rest {
      LineEndIsFound(LineOf(g), rest);
      RequestLineIsRead(g);
      assert LookInside(0);
    }
  }

  /** The parser does not look at the last byte of its data. */
  lemma LastByteIsIgnored(d: string, c: char)
    ensures Seen(d + [c]) == d
  {
  }

  lemma RestHasByte(data: string, front: string, rest: string)
    requires Seen(data) == front + rest && front != ""
    ensures data == front + (rest + data[|data| - 1..]) && data[|data| - 1..] != ""
  {
  }

  lemma RestLosesByte(data: string, front: string, rest: string)
    requires data == front + rest && rest != ""
    ensures Seen(data) == front + rest[..|rest| - 1]
  {
  }

  /** So a request is taken exactly if something follows the end of its line. */
  lemma OneByteMore(data: string, r: Request)
    ensures TakeRequest(Seen(data), r).status == Ok <==>
            exists g, rest :: GetOk(g) && rest != "" && data == LineOf(g) + CRLF + rest
  {
    var d := Seen(data);
    AcceptedExactly(d, r);
    if TakeRequest(d, r).status == Ok {
      var g, rest :| GetOk(g) && d == LineOf(g) + CRLF + rest;
      RestHasByte(data, LineOf(g) + CRLF, rest);
    }
    if g, rest :| GetOk(g) && rest != "" && data == LineOf(g) + CRLF + rest {
      RestLosesByte(data, LineOf(g) + CRLF, rest);
    }
  }

  /** Concretely: a GET line alone, with its line end, is refused. */
  lemma LineAloneIsRefused(r: Request)
    ensures TakeRequest(Seen("GET / HTTP/1.1\r\n"), r) == Outcome(Err, r)
  {
    var d := "GET / HTTP/1.1\r";
    assert Seen("GET / HTTP/1.1\r\n") == d;
    forall k: nat
      ensures !At(d, k, CRLF)
    {
      if k + 2 <= |d| {
        assert d[k..k + 2][1] == d[k + 1];
      }
    }
    FindIsNot(d, CRLF);
  }
}
