/** The parser of f1g_http_parser.c undoes the builder of f1g_http.c: the request line and headers
    of sections 4.2 and 5.1 of RFC 2616, closed by an empty line. */
module HttpRoundTrip {
  import opened Common
  import opened BasicFuncs
  import opened HttpBuilder
  import opened HttpParser

  ghost predicate NoLineEnd(s: string) {
    forall k: nat :: !At(s, k, CRLF)
  }

  // ---------------------------------------------------------------- scanning built text

  /** A line end is not found early, even if the text before it ends with a carriage return. */
  lemma LineEndIsFound(x: string, rest: string)
    requires NoLineEnd(x)
    ensures Find(x + CRLF + rest, CRLF) == |x|
    ensures (x + CRLF + rest)[..|x|] == x && (x + CRLF + rest)[|x| + 2..] == rest
  {
    var s := x + CRLF + rest;
    assert s[|x|..|x| + 2] == CRLF;
    forall k: nat | k < |x|
      ensures !At(s, k, CRLF)
    {
      if k + 2 <= |x| {
        assert !At(x, k, CRLF);
        assert x[k..k + 2] == s[k..k + 2];
      } else {
        assert s[k..k + 2][1] == s[k + 1];
      }
    }
    FindIs(s, CRLF, |x|);
  }

  // ---------------------------------------------------------------- one header

  predicate IsHeader(id: nat) {
    id == HDR_HOST || id == HDR_UA || id == HDR_COOKIE || id == HDR_REFER
  }

  function NameOf(id: nat): string
    requires IsHeader(id)
  {
    if id == HDR_HOST then "Host"
    else if id == HDR_UA then "User-Agent"
    else if id == HDR_COOKIE then "Cookie"
    else "Referer"
  }

  function FieldFor(id: nat): Field {
    if id == HDR_HOST then Host
    else if id == HDR_UA then UserAgent
    else if id == HDR_COOKIE then Cookie
    else if id == HDR_REFER then Referer
    else Unknown
  }

  /** The space between colon and value: the table has none for a Referer. */
  function Gap(id: nat): string {
    if id == HDR_REFER then "" else " "
  }

  lemma PrefixStarts(p: string, s: string)
    requires p != ""
    ensures p <= s ==> s != "" && p[0] == s[0]
  {
    if p <= s {
      assert s[..|p|][0] == p[0];
    }
  }

  lemma KeyIsKnown(id: nat)
    requires IsHeader(id)
    ensures FieldOf(NameOf(id) + ":") == FieldFor(id)
  {
    var key := NameOf(id) + ":";
    PrefixStarts("Accept-Language", key);
    PrefixStarts("Accept-Encoding", key);
    PrefixStarts("Accept-Charset", key);
    PrefixStarts("Accept", key);
    if id == HDR_HOST {
      PrefixStarts("Cookie", key);
    } else if id == HDR_REFER {
      PrefixStarts("Cookie", key);
      PrefixStarts("Host", key);
    } else if id == HDR_UA {
      PrefixStarts("Cookie", key);
      PrefixStarts("Host", key);
      PrefixStarts("Referer", key);
    }
    assert NameOf(id) <= key;
  }

  lemma PrefixParts(id: nat)
    requires IsHeader(id)
    ensures Prefix(id) == NameOf(id) + ":" + Gap(id)
    ensures NameOf(id) != "" && NameOf(id)[0] != ' ' && ':' !in NameOf(id) && '\r' !in Prefix(id)
    ensures FieldOf(NameOf(id) + ":") == FieldFor(id)
  {
    KeyIsKnown(id);
    if id == HDR_HOST {
    } else if id == HDR_UA {
    } else if id == HDR_COOKIE {
    } else {
    }
  }

  lemma TrimGap(gap: string, value: string)
    requires gap == "" || gap == " "
    ensures Trim(gap + value) == Trim(value)
  {
    TrimAfterSpace(value);
    assert "" + value == value;
  }

  lemma NoLineEndAfter(prefix: string, value: string)
    requires '\r' !in prefix && NoLineEnd(value)
    ensures NoLineEnd(prefix + value)
  {
    var s := prefix + value;
    forall k: nat
      ensures !At(s, k, CRLF)
    {
      if k + 2 <= |s| {
        if k >= |prefix| {
          assert !At(value, k - |prefix|, CRLF);
          assert s[k..k + 2] == value[k - |prefix|..k - |prefix| + 2];
        } else {
          assert s[k..k + 2][0] == s[k] == prefix[k];
        }
      }
    }
  }

  lemma LineParts(name: string, gap: string, prefix: string, value: string, line: string)
    requires prefix == name + ":" + gap && (gap == "" || gap == " ") && line == prefix + value
    requires name != "" && name[0] != ' ' && ':' !in name && '\r' !in prefix && NoLineEnd(value)
    ensures NoLineEnd(line) && line != "" && line[0] != ' '
    ensures Find(line, ":") == |name| > 0
    ensures line[..|name| + 1] == name + ":" && Trim(line[|name| + 1..]) == Trim(value)
  {
    NoLineEndAfter(prefix, value);
    assert line == name + ([':'] + (gap + value));
    CharIsFound(name, ':', gap + value);
    assert line[..|name| + 1] == name + ":" && line[|name| + 1..] == gap + value;
    TrimGap(gap, value);
  }

  /** A built header line is read back as its name, its value without edge spaces, and the rest. */
  lemma HeaderIsRead(id: nat, value: string, rest: string)
    requires IsHeader(id) && NoLineEnd(value)
    ensures ReadsHeader(Line(id, value) + rest, Header(Piece(NameOf(id) + ":"), Piece(Trim(value)), Some(Piece(rest))))
  {
    var h, line := Line(id, value) + rest, Prefix(id) + value;
    assert h == line + CRLF + rest;
    PrefixParts(id);
    LineParts(NameOf(id), Gap(id), Prefix(id), value, line);
    LineEndIsFound(line, rest);
    ReadFromParts(h, line, rest, |NameOf(id)|, Header(Piece(NameOf(id) + ":"), Piece(Trim(value)), Some(Piece(rest))));
  }

  lemma ReadFromParts(h: string, line: string, rest: string, colon: nat, answer: HeaderLine)
    requires h != "" && h[0] != ' ' && line != "" && Find(h, CRLF) == |line| && h[..|line|] == line &&
        h[|line| + 2..] == rest
    requires Find(line, ":") == colon > 0
    requires answer == Header(Piece(line[..colon + 1]), Piece(Trim(line[colon + 1..])), Some(Piece(rest)))
    ensures ReadsHeader(h, answer)
  {
    assert SkipChar(h, ' ') == h;
  }

  /** The carriage return of the closing line ends the headers: the last byte is never looked at. */
  lemma ClosingLineEnds()
    ensures ReadsHeader("\r", NoHeader)
  {
    assert SkipChar("\r", ' ') == "\r";
    forall k: nat
      ensures !At("\r", k, CRLF)
    {
    }
    FindIsNot("\r", CRLF);
    CharIsNotFound("\r", ':');
  }

  // ---------------------------------------------------------------- all headers

  ghost predicate HeaderOk(it: Item) {
    IsHeader(it.id) && NoLineEnd(it.value)
  }

  /** What the headers say, in the parser's fields. */
  function Expected(hdrs: seq<Item>, r: Request): Request
    decreases |hdrs|
  {
    if hdrs == [] then r else Expected(hdrs[1..], Store(r, FieldFor(hdrs[0].id), Trim(hdrs[0].value)))
  }

  lemma {:induction false} HeadersAreRead(hdrs: seq<Item>, r: Request)
    requires forall i | 0 <= i < |hdrs| :: HeaderOk(hdrs[i])
    ensures TakesHeaders(Build(hdrs) + "\r", r, Expected(hdrs, r))
    decreases |hdrs|
  {
    if hdrs == [] {
      ClosingLineEnds();
      assert Build(hdrs) + "\r" == "\r";
      HeadersEnd("\r", r);
    } else {
      var it, rest := hdrs[0], Build(hdrs[1..]) + "\r";
      assert HeaderOk(it);
      assert Build(hdrs) + "\r" == Line(it.id, it.value) + rest;
      HeaderIsRead(it.id, it.value, rest);
      PrefixParts(it.id);
      var next := Store(r, FieldFor(it.id), Trim(it.value));
      HeadersAreRead(hdrs[1..], next);
      HeadersNext(Build(hdrs) + "\r", r, Piece(NameOf(it.id) + ":"), Piece(Trim(it.value)), rest, Expected(hdrs, r));
    }
  }

  /** What the parser's structure should say about one header: its value without edge spaces; for a
      Referer the two parts together, provided there is a `/` before the last byte. */
  predicate Recovered(q: Request, id: nat, value: string) {
    && (id == HDR_HOST ==> q.host.text == value)
    && (id == HDR_UA ==> q.ua.text == value)
    && (id == HDR_COOKIE ==> q.cookie.text == value)
    && (id == HDR_REFER && Slash(value) != -1 ==> q.referHost.text + q.referUri.text == value && "/" <= q.referUri.text)
    && (id == HDR_REFER && Slash(value) == -1 ==> q.referHost.text == "" && q.referUri.text == "")
  }

  lemma StoreRecovers(r: Request, id: nat, value: string)
    requires IsHeader(id) && (id == HDR_REFER ==> r.referHost == NO_PIECE && r.referUri == NO_PIECE)
    ensures Recovered(Store(r, FieldFor(id), value), id, value)
  {
    if id == HDR_REFER && Slash(value) != -1 {
      FindIsFirst(value[..|value| - 1], "/");
      assert value[..|value| - 1][Slash(value)..Slash(value) + 1] == "/";
      assert value[Slash(value)..][..1] == value[..|value| - 1][Slash(value)..Slash(value) + 1];
      assert value[..Slash(value)] + value[Slash(value)..] == value;
    }
  }

  lemma {:induction false} LaterHeadersKeep(hdrs: seq<Item>, r: Request, id: nat, value: string)
    requires forall i | 0 <= i < |hdrs| :: IsHeader(hdrs[i].id) && hdrs[i].id != id
    ensures Recovered(Expected(hdrs, r), id, value) <==> Recovered(r, id, value)
    ensures id == HDR_REFER ==> Expected(hdrs, r).referHost == r.referHost && Expected(hdrs, r).referUri == r.referUri
    ensures Expected(hdrs, r).uri == r.uri && Expected(hdrs, r).version == r.version
    decreases |hdrs|
  {
    if hdrs != [] {
      LaterHeadersKeep(hdrs[1..], Store(r, FieldFor(hdrs[0].id), Trim(hdrs[0].value)), id, value);
    }
  }

  lemma MiddleRecovers(hdrs: seq<Item>, before: seq<Item>, it: Item, after: seq<Item>, r: Request, value: string)
    requires hdrs == before + ([it] + after) && value == Trim(it.value)
    requires forall j | 0 <= j < |before| :: IsHeader(before[j].id) && before[j].id != it.id
    requires forall j | 0 <= j < |after| :: IsHeader(after[j].id) && after[j].id != it.id
    requires IsHeader(it.id) && r.referHost == NO_PIECE && r.referUri == NO_PIECE
    ensures Recovered(Expected(hdrs, r), it.id, value)
  {
    var mid := Expected(before, r);
    ExpectedSplits(before, [it] + after, r);
    LaterHeadersKeep(before, r, it.id, "");
    StoreRecovers(mid, it.id, value);
    assert ([it] + after)[1..] == after;
    LaterHeadersKeep(after, Store(mid, FieldFor(it.id), value), it.id, value);
  }

  /** With distinct ids every header is recovered, whatever the order. */
  lemma ExpectedRecovers(hdrs: seq<Item>, r: Request, i: nat)
    requires Distinct(hdrs) && i < |hdrs| && forall j | 0 <= j < |hdrs| :: IsHeader(hdrs[j].id)
    requires r.referHost == NO_PIECE && r.referUri == NO_PIECE
    ensures Recovered(Expected(hdrs, r), hdrs[i].id, Trim(hdrs[i].value))
  {
    var before, it, after := hdrs[..i], hdrs[i], hdrs[i + 1..];
    assert hdrs == before + ([it] + after);
    assert forall j | 0 <= j < |after| :: after[j] == hdrs[i + 1 + j];
    MiddleRecovers(hdrs, before, it, after, r, Trim(it.value));
  }

  lemma {:induction false} ExpectedSplits(a: seq<Item>, b: seq<Item>, r: Request)
    ensures Expected(a + b, r) == Expected(b, Expected(a, r))
    decreases |a|
  {
    if a == [] {
      assert a + b == b;
    } else {
      assert (a + b)[1..] == a[1..] + b;
      ExpectedSplits(a[1..], b, Store(r, FieldFor(a[0].id), Trim(a[0].value)));
    }
  }

  // ---------------------------------------------------------------- the request line

  /** A GET request line: any number of spaces, the URI, at least one space, a version, and
      whatever else the client appends. */
  datatype Get = Get(before: nat, uri: string, after: nat, http11: bool, tail: string)

  function LineOf(g: Get): string {
    GET + (Spaces(g.before) + (g.uri + (Spaces(g.after) + ((if g.http11 then HTTP_11 else HTTP_10) + g.tail))))
  }

  ghost predicate GetOk(g: Get) {
    g.uri != "" && ' ' !in g.uri && g.after > 0 && NoLineEnd(LineOf(g))
  }

  lemma RequestLineIsRead(g: Get)
    requires GetOk(g)
    ensures ReadsLine(LineOf(g), GetLine(Piece(g.uri), if g.http11 then 0x11 else 0x10))
  {
    var version := (if g.http11 then HTTP_11 else HTTP_10) + g.tail;
    var afterUri := Spaces(g.after) + version;
    var rest, line := g.uri + afterUri, LineOf(g);
    assert line[..3] == GET && line[3..] == Spaces(g.before) + rest;
    SpacesAreSkipped(g.before, rest);
    SpacesAreSkipped(g.after, version);
    var searched := rest[..|rest| - 1];
    assert searched == g.uri + ([' '] + searched[|g.uri| + 1..]);
    CharIsFound(g.uri, ' ', searched[|g.uri| + 1..]);
    assert rest[..|g.uri|] == g.uri && rest[|g.uri|..] == afterUri;
    VersionIsRead(g.http11, g.tail);
    var answer := GetLine(Piece(g.uri), if g.http11 then 0x11 else 0x10);
    RequestLineFromParts(line, rest, |g.uri|, Piece(g.uri), version, answer);
  }

  lemma VersionIsRead(http11: bool, tail: string)
    ensures VersionOf((if http11 then HTTP_11 else HTTP_10) + tail) == if http11 then 0x11 else 0x10
  {
    var s := (if http11 then HTTP_11 else HTTP_10) + tail;
    if !http11 {
      assert s[7] == '0';
    }
  }

  lemma RequestLineFromParts(line: string, rest: string, u: nat, uri: Piece, version: string, answer: RequestLine)
    requires GET <= line && SkipChar(line[3..], ' ') == rest && rest != "" && u > 0
    requires Find(rest[..|rest| - 1], " ") == u && SkipChar(rest[u..], ' ') == version
    requires uri == Piece(rest[..u]) && answer == UriLine(uri, VersionOf(version))
    ensures ReadsLine(line, answer)
  {
    assert ReadRequestLine(line) == answer;
  }

  // ---------------------------------------------------------------- whole requests

  function Items(g: Get, hdrs: seq<Item>): seq<Item> {
    [Item(HDR_REQ_LINE, LineOf(g))] + hdrs + [Item(HDR_END, "")]
  }

  lemma {:induction false} BuildConcat(a: seq<Item>, b: seq<Item>)
    ensures Build(a + b) == Build(a) + Build(b)
  {
    if a == [] {
      assert a + b == b;
    } else {
      assert (a + b)[1..] == a[1..] + b;
      BuildConcat(a[1..], b);
    }
  }

  lemma SeenOf(x: string, y: string)
    ensures Seen(x + y + CRLF) == x + (y + "\r")
  {
  }

  lemma BuildPlain(id: nat, value: string)
    requires Prefix(id) == ""
    ensures Build([Item(id, value)]) == value + CRLF
  {
    var item := [Item(id, value)];
    assert item[1..] == [];
    assert "" + value == value;
    assert Build(item) == value + CRLF + "";
  }

  lemma BuildThree(first: seq<Item>, hdrs: seq<Item>, last: seq<Item>)
    ensures Build(first + hdrs + last) == Build(first) + Build(hdrs) + Build(last)
  {
    BuildConcat(first + hdrs, last);
    BuildConcat(first, hdrs);
  }

  lemma BuiltRequest(g: Get, hdrs: seq<Item>)
    ensures Build(Items(g, hdrs)) == LineOf(g) + CRLF + Build(hdrs) + CRLF
    ensures Seen(Build(Items(g, hdrs))) == LineOf(g) + CRLF + (Build(hdrs) + "\r")
  {
    var line := LineOf(g);
    BuildPlain(HDR_REQ_LINE, line);
    BuildPlain(HDR_END, "");
    assert "" + CRLF == CRLF;
    BuildThree([Item(HDR_REQ_LINE, line)], hdrs, [Item(HDR_END, "")]);
    SeenOf(line + CRLF, Build(hdrs));
  }

  /** The header lines as they are sent, by the numbers of the headers. */
  lemma HeaderLinesSpelled(v: string)
    ensures Line(3, v) == "Host: " + v + "\r\n" && Line(4, v) == "User-Agent: " + v + "\r\n"
    ensures Line(5, v) == "Referer:" + v + "\r\n" && Line(6, v) == "Cookie: " + v + "\r\n"
  {
  }

  /** The request line and the closing line. */
  lemma OtherLinesSpelled(g: Get)
    ensures Line(8, LineOf(g)) == LineOf(g) + "\r\n" && Line(7, "") == "\r\n"
    ensures g.http11 ==> LineOf(g) == "GET" + (Spaces(g.before) + (g.uri + (Spaces(g.after) + ("HTTP/1.1" + g.tail))))
    ensures !g.http11 ==> LineOf(g) == "GET" + (Spaces(g.before) + (g.uri + (Spaces(g.after) + ("HTTP/1.0" + g.tail))))
  {
    assert "" + LineOf(g) == LineOf(g);
  }

  /** What the structure says after parsing a built request. */
  function Parsed(g: Get, hdrs: seq<Item>): Request {
    Expected(hdrs, NOTHING.(uri := Piece(g.uri), version := if g.http11 then 0x11 else 0x10))
  }

  lemma BuiltRequestIsParsed(g: Get, hdrs: seq<Item>)
    requires GetOk(g) && forall i | 0 <= i < |hdrs| :: HeaderOk(hdrs[i])
    ensures TakesRequest(Seen(Build(Items(g, hdrs))), NOTHING, Outcome(Ok, Parsed(g, hdrs)))
  {
    var line, rest := LineOf(g), Build(hdrs) + "\r";
    var d, v := line + CRLF + rest, if g.http11 then 0x11 else 0x10;
    BuiltRequest(g, hdrs);
    LineEndIsFound(line, rest);
    RequestLineIsRead(g);
    HeadersAreRead(hdrs, NOTHING.(uri := Piece(g.uri), version := v));
    RequestFromParts(d, |line|, Piece(g.uri), v, rest, Parsed(g, hdrs));
  }

  lemma RequestFromParts(d: string, k: nat, uri: Piece, version: int, rest: string, last: Request)
    requires Find(d, CRLF) == k > 0 && ReadsLine(d[..k], GetLine(uri, version))
    requires d[k + 2..] == rest && TakesHeaders(rest, NOTHING.(uri := uri, version := version), last)
    ensures TakesRequest(d, NOTHING, Outcome(Ok, last))
  {
    assert LookInside(0);
  }

  /** The main result.  A GET line and any of the four headers, each at most once and in any order,
      closed by HTTP_HDR_END, are all accepted by the builder; the parser accepts what was built
      and recovers URI, version and every header; headers that were not given stay empty. */
  lemma ParsingUndoesBuilding(g: Get, hdrs: seq<Item>, size: nat)
    requires GetOk(g) && Distinct(hdrs) && forall i | 0 <= i < |hdrs| :: HeaderOk(hdrs[i])
    requires |Build(Items(g, hdrs))| < size
    ensures AddAll(EMPTY, size, Items(g, hdrs)).text == Build(Items(g, hdrs)) &&
        AllAccepted(EMPTY, size, Items(g, hdrs))
    ensures TakesRequest(Seen(AddAll(EMPTY, size, Items(g, hdrs)).text), NOTHING, Outcome(Ok, Parsed(g, hdrs)))
    ensures Parsed(g, hdrs).uri.text == g.uri && Parsed(g, hdrs).version == if g.http11 then 0x11 else 0x10
    ensures forall i | 0 <= i < |hdrs| :: Recovered(Parsed(g, hdrs), hdrs[i].id, Trim(hdrs[i].value))
    ensures forall id | IsHeader(id) && (forall i | 0 <= i < |hdrs| :: hdrs[i].id != id) ::
        Recovered(Parsed(g, hdrs), id, "")
  {
    var items := Items(g, hdrs);
    assert Distinct(items);
    DistinctAreBuilt(size, items);
    BuiltRequestIsParsed(g, hdrs);
    var start := NOTHING.(uri := Piece(g.uri), version := if g.http11 then 0x11 else 0x10);
    UriIsKept(hdrs, start);
    forall i | 0 <= i < |hdrs|
      ensures Recovered(Parsed(g, hdrs), hdrs[i].id, Trim(hdrs[i].value))
    {
      ExpectedRecovers(hdrs, start, i);
    }
    forall id | IsHeader(id) && (forall i | 0 <= i < |hdrs| :: hdrs[i].id != id)
      ensures Recovered(Parsed(g, hdrs), id, "")
    {
      LaterHeadersKeep(hdrs, start, id, "");
    }
  }

  lemma {:induction false} UriIsKept(hdrs: seq<Item>, r: Request)
    ensures Expected(hdrs, r).uri == r.uri && Expected(hdrs, r).version == r.version
    decreases |hdrs|
  {
    if hdrs != [] {
      UriIsKept(hdrs[1..], Store(r, FieldFor(hdrs[0].id), Trim(hdrs[0].value)));
    }
  }

  /** A value without edge spaces comes back as it was; a Referer does so exactly if it is empty or
      has a `/` before its last byte. */
  lemma ValueComesBack(g: Get, hdrs: seq<Item>, i: nat)
    requires GetOk(g) && Distinct(hdrs) && forall j | 0 <= j < |hdrs| :: HeaderOk(hdrs[j])
    requires i < |hdrs| && NoEdgeSpaces(hdrs[i].value)
    ensures
      var q, id, value := Parsed(g, hdrs), hdrs[i].id, hdrs[i].value;
      && (id == HDR_HOST ==> q.host.text == value)
      && (id == HDR_UA ==> q.ua.text == value)
      && (id == HDR_COOKIE ==> q.cookie.text == value)
      && (id == HDR_REFER ==> (q.referHost.text + q.referUri.text == value <==> value == "" || Slash(value) != -1))
  {
    ParsingUndoesBuilding(g, hdrs, |Build(Items(g, hdrs))| + 1);
    TrimOfTrimmed(hdrs[i].value);
  }

  /** Concretely: of the Referer "x" nothing comes back. */
  lemma RefererIsLost()
    ensures
      var q := Parsed(Get(1, "/", 1, true, ""), [Item(HDR_REFER, "x")]);
      q.referHost.text == "" && q.referUri.text == ""
  {
    var it := Item(HDR_REFER, "x");
    assert [it][1..] == [];
    TrimOfTrimmed("x");
    assert "x"[..0] == "";
    assert forall k: nat :: !At("", k, "/");
    FindIsNot("", "/");
    assert Slash("x") == -1 && Trim("x") == "x";
    var r := NOTHING.(uri := Piece("/"), version := 0x11);
    assert Store(r, FieldFor(it.id), Trim(it.value)) == r;
    assert Expected([it], r) == Expected([], r) == r;
  }

  /** What the spans of the structure cut out of the buffer: the URI, the version, and every header of
      the request. */
  ghost predicate RequestComesBack(req: ReqHeader, data: string, g: Get, hdrs: seq<Item>)
    requires Distinct(hdrs) && forall i | 0 <= i < |hdrs| :: HeaderOk(hdrs[i])
    reads req
  {
    && Over(req.Spans(), data)
    && req.version == (if g.http11 then 0x11 else 0x10)
    && Text(req.uri, data).text == g.uri
    && (forall i | 0 <= i < |hdrs| :: Recovered(Resolve(req.Spans(), data), hdrs[i].id, Trim(hdrs[i].value)))
    && (forall id | IsHeader(id) && (forall i | 0 <= i < |hdrs| :: hdrs[i].id != id) ::
          Recovered(Resolve(req.Spans(), data), id, ""))
  }

  lemma SpansTellAll(req: ReqHeader, data: string, g: Get, hdrs: seq<Item>)
    requires GetOk(g) && Distinct(hdrs) && forall i | 0 <= i < |hdrs| :: HeaderOk(hdrs[i])
    requires Says(req.Spans(), data, Parsed(g, hdrs))
    ensures RequestComesBack(req, data, g, hdrs)
  {
    ParsingUndoesBuilding(g, hdrs, |Build(Items(g, hdrs))| + 1);
    assert LookInside(0);
  }

  /** Only one outcome of parsing is possible. */
  lemma OutcomeIs(d: string, r: Request, a: Outcome, b: Outcome)
    requires TakesRequest(d, r, a) && TakesRequest(d, r, b)
    ensures a == b
  {
    assert LookInside(0);
  }

  /** http_object_create and http_object_add_header for every line of the request. */
  method BuildRequest(g: Get, hdrs: seq<Item>, bufSz: nat) returns (obj: HttpObject?)
    requires GetOk(g) && Distinct(hdrs) && forall i | 0 <= i < |hdrs| :: HeaderOk(hdrs[i])
    requires |LineOf(g)| < 0x1_0000 && forall i | 0 <= i < |hdrs| :: |hdrs[i].value| < 0x1_0000
    requires |Build(Items(g, hdrs))| < if bufSz < HO_MIN_BUF_SZ then HO_DFT_BUF_SZ else bufSz
    ensures obj == null <==> bufSz == HO_MIN_BUF_SZ
    ensures obj != null ==> fresh(obj) && obj.Valid() && obj.State().text == Build(Items(g, hdrs))
  {
    var items := Items(g, hdrs);
    obj := HttpObject.Create(null, bufSz);
    if obj == null {
      return;
    }
    ghost var size, rest := obj.objBuf.Length, items;
    ParsingUndoesBuilding(g, hdrs, size);
    for i := 0 to |items|
      invariant obj.Valid() && obj.objBuf.Length == size && rest == items[i..]
      invariant fresh(obj) && fresh(obj.objBuf) && fresh(obj.status) && fresh(obj.hdrSet) && fresh(obj.hdrLenSet)
      invariant AllAccepted(obj.State(), size, rest)
      invariant AddAll(obj.State(), size, rest).text == Build(items)
    {
      var result := obj.AddHeader(items[i].id, items[i].value);
      assert result == Ok;
      rest := rest[1..];
    }
  }

  /** The whole story as calls, as in test_http.c: build a request, parse the buffer.  The spans of the
      structure then cut the URI, the version and every header out of the buffer. */
  method BuildAndParse(g: Get, hdrs: seq<Item>, bufSz: nat) returns (status: Status, data: string, req: ReqHeader)
    requires GetOk(g) && Distinct(hdrs) && forall i | 0 <= i < |hdrs| :: HeaderOk(hdrs[i])
    requires |LineOf(g)| < 0x1_0000 && forall i | 0 <= i < |hdrs| :: |hdrs[i].value| < 0x1_0000
    requires bufSz != HO_MIN_BUF_SZ
    requires |Build(Items(g, hdrs))| < if bufSz < HO_MIN_BUF_SZ then HO_DFT_BUF_SZ else bufSz
    ensures status == Ok && fresh(req) && data == Build(Items(g, hdrs))
    ensures RequestComesBack(req, data, g, hdrs)
  {
    var obj := BuildRequest(g, hdrs, bufSz);
    data := obj.objBuf[..obj.dataLen];
    req := new ReqHeader();
    NoFieldsSayNothing(data);
    ghost var last;
    status, last := req.Parse(data, NOTHING);
    BuiltRequestIsParsed(g, hdrs);
    OutcomeIs(Seen(data), NOTHING, Outcome(status, last), Outcome(Ok, Parsed(g, hdrs)));
    SpansTellAll(req, data, g, hdrs);
  }
}
