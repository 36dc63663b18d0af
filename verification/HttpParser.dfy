/** Parsing a GET request (f1g_http_parser.c): nested scans that record where the pieces are.  The
    functions say what is parsed in terms of strings; class `ReqHeader` holds spans of the data. */
module HttpParser {
  import opened Common
  import opened BasicFuncs

  const GET := "GET"
  const HTTP_11 := "HTTP/1.1"
  const HTTP_10 := "HTTP/1.0"

  /** A piece of the request, as a value. */
  datatype Piece = Piece(text: string)

  /** What a request says; an empty piece where the structure has nothing. */
  datatype Request = Request(version: int, uri: Piece, host: Piece, ua: Piece, cookie: Piece,
                             referHost: Piece, referUri: Piece,
                             accept: Piece, acceptCharset: Piece, acceptEncode: Piece, acceptLang: Piece)

  const NO_PIECE := Piece("")
  const NOTHING := Request(0, NO_PIECE, NO_PIECE, NO_PIECE, NO_PIECE, NO_PIECE, NO_PIECE, NO_PIECE, NO_PIECE, NO_PIECE,
      NO_PIECE)

  datatype Field = AcceptLang | AcceptEncode | AcceptCharset | Accept | Cookie | Host | Referer | UserAgent | Unknown

  // ---------------------------------------------------------------- requests as strings

  /** The tests of add_header: only the beginning of the key is compared. */
  function FieldOf(key: string): Field {
    if "Accept-Language" <= key then AcceptLang
    else if "Accept-Encoding" <= key then AcceptEncode
    else if "Accept-Charset" <= key then AcceptCharset
    else if "Accept" <= key then Accept
    else if "Cookie" <= key then Cookie
    else if "Host" <= key then Host
    else if "Referer" <= key then Referer
    else if "User-Agent" <= key then UserAgent
    else Unknown
  }

  /** Where a Referer is cut: at its first `/`, the last byte not being searched. */
  function Slash(value: string): (i: int)
    ensures -1 <= i < |value| || (i == -1 && value == "")
  {
    if value == "" then -1 else Find(value[..|value| - 1], "/")
  }

  /** add_header once the field is known; a Referer without a `/` is not recorded. */
  function Store(r: Request, f: Field, value: string): Request {
    match f
    case AcceptLang => r.(acceptLang := Piece(value))
    case AcceptEncode => r.(acceptEncode := Piece(value))
    case AcceptCharset => r.(acceptCharset := Piece(value))
    case Accept => r.(accept := Piece(value))
    case Cookie => r.(cookie := Piece(value))
    case Host => r.(host := Piece(value))
    case Referer =>
      if Slash(value) == -1 then r
      else r.(referHost := Piece(value[..Slash(value)]), referUri := Piece(value[Slash(value)..]))
    case UserAgent => r.(ua := Piece(value))
    case Unknown => r
  }

  /** The next header line of `h`: its key with the colon, its value without edge spaces, and what
      follows its line end if it has one. */
  datatype HeaderLine = NoHeader | Header(key: Piece, value: Piece, rest: Option<Piece>)

  function ReadHeader(h: string): (r: HeaderLine)
    ensures r.Header? && r.rest.Some? ==> |r.rest.value.text| < |h|
  {
    var t := SkipChar(h, ' ');
    var j := Find(t, CRLF);
    var line := if j == -1 then t else t[..j];
    var colon := Find(line, ":");
    if line == "" || colon <= 0 then NoHeader
    else Header(Piece(line[..colon + 1]), Piece(Trim(line[colon + 1..])),
        if j == -1 then None else Some(Piece(t[j + 2..])))
  }

  /** The header lines of `h`, up to the end or to a line without a key. */
  function TakeHeaders(h: string, r: Request): Request
    decreases |h|
  {
    match ReadHeader(h)
    case NoHeader => r
    case Header(key, value, rest) =>
      var next := Store(r, FieldOf(key.text), value.text);
      if rest == None then next else TakeHeaders(rest.value.text, next)
  }

  /** GET, the URI up to a space that is not the last byte, and one of two versions.  A line with
      another version is bad too, but its URI is known by then. */
  datatype RequestLine = BadLine | BadVersion(uri: Piece) | GetLine(uri: Piece, version: int)

  function VersionOf(s: string): int {
    if HTTP_11 <= s then 0x11 else if HTTP_10 <= s then 0x10 else -1
  }

  function UriLine(uri: Piece, version: int): RequestLine {
    if version == -1 then BadVersion(uri) else GetLine(uri, version)
  }

  function ReadRequestLine(line: string): RequestLine {
    if !(GET <= line) then BadLine
    else
      var rest := SkipChar(line[3..], ' ');
      var u := if rest == "" then -1 else Find(rest[..|rest| - 1], " ");
      if u <= 0 then BadLine else UriLine(Piece(rest[..u]), VersionOf(SkipChar(rest[u..], ' ')))
  }

  /** Whether parsing succeeds, and what the structure says then in either case. */
  datatype Outcome = Outcome(status: Status, says: Request)

  /** http_req_header_parser on what it looks at: all of the data but the last byte. */
  function TakeRequest(d: string, r: Request): Outcome {
    var k := Find(d, CRLF);
    if k <= 0 then Outcome(Err, r)
    else
      match ReadRequestLine(d[..k])
      case BadLine => Outcome(Err, r)
      case BadVersion(uri) => Outcome(Err, r.(uri := uri))
      case GetLine(uri, version) => Outcome(Ok, TakeHeaders(d[k + 2..], r.(uri := uri, version := version)))
  }

  // The same, seen through only where LookInside is mentioned.

  ghost predicate ReadsLine(line: string, answer: RequestLine) {
    forall x: int :: LookInside(x) ==> ReadRequestLine(line) == answer
  }

  ghost predicate ReadsHeader(h: string, answer: HeaderLine) {
    forall x: int :: LookInside(x) ==> ReadHeader(h) == answer
  }

  ghost predicate TakesHeaders(h: string, r: Request, last: Request) {
    forall x: int :: LookInside(x) ==> TakeHeaders(h, r) == last
  }

  ghost predicate TakesRequest(d: string, r: Request, answer: Outcome) {
    forall x: int :: LookInside(x) ==> TakeRequest(d, r) == answer
  }

  lemma HeadersEnd(h: string, r: Request)
    requires ReadsHeader(h, NoHeader)
    ensures TakesHeaders(h, r, r)
  {
    assert LookInside(0);
  }

  lemma HeadersLast(h: string, r: Request, key: Piece, value: Piece)
    requires ReadsHeader(h, Header(key, value, None))
    ensures TakesHeaders(h, r, Store(r, FieldOf(key.text), value.text))
  {
    assert LookInside(0);
  }

  lemma HeadersNext(h: string, r: Request, key: Piece, value: Piece, rest: string, last: Request)
    requires ReadsHeader(h, Header(key, value, Some(Piece(rest))))
    requires TakesHeaders(rest, Store(r, FieldOf(key.text), value.text), last)
    ensures TakesHeaders(h, r, last)
  {
    assert LookInside(0);
  }

  function Seen(data: string): string {
    if data == "" then "" else data[..|data| - 1]
  }

  // ---------------------------------------------------------------- the request structure

  /** c_string_t: a stretch of the data; no stretch is ("", 0). */
  datatype Span = Span(off: nat, len: nat)

  predicate Inside(s: Span, data: string) {
    s.off + s.len <= |data|
  }

  function Text(s: Span, data: string): Piece
    requires Inside(s, data)
  {
    Piece(data[s.off..s.off + s.len])
  }

  /** The spans of http_req_header_t, and the version. */
  datatype Fields = Fields(version: int, uri: Span, host: Span, ua: Span, cookie: Span, referHost: Span, referUri: Span,
                           accept: Span, acceptCharset: Span, acceptEncode: Span, acceptLang: Span)

  const NO_SPAN := Span(0, 0)
  const NO_FIELDS := Fields(0, NO_SPAN, NO_SPAN, NO_SPAN, NO_SPAN, NO_SPAN, NO_SPAN, NO_SPAN, NO_SPAN, NO_SPAN, NO_SPAN)

  predicate Over(f: Fields, data: string) {
    && Inside(f.uri, data) && Inside(f.host, data) && Inside(f.ua, data) && Inside(f.cookie, data)
    && Inside(f.referHost, data) && Inside(f.referUri, data)
    && Inside(f.accept, data) && Inside(f.acceptCharset, data) && Inside(f.acceptEncode, data) &&
        Inside(f.acceptLang, data)
  }

  function Resolve(f: Fields, data: string): Request
    requires Over(f, data)
  {
    Request(f.version, Text(f.uri, data), Text(f.host, data), Text(f.ua, data), Text(f.cookie, data),
            Text(f.referHost, data), Text(f.referUri, data),
            Text(f.accept, data), Text(f.acceptCharset, data), Text(f.acceptEncode, data), Text(f.acceptLang, data))
  }

  /** The spans say what `r` says; seen through only where LookInside is mentioned. */
  ghost predicate Says(f: Fields, data: string, r: Request) {
    forall x: int :: LookInside(x) ==> Over(f, data) && Resolve(f, data) == r
  }

  lemma NoFieldsSayNothing(data: string)
    ensures Says(NO_FIELDS, data, NOTHING)
  {
    assert data[0..0] == "";
  }

  /** add_header on spans, for the value in [v, ve) that a Referer has its slash at v + slash. */
  function StoreSpans(r: Fields, f: Field, v: nat, ve: nat, slash: int): Fields
    requires v <= ve && slash <= ve - v
  {
    match f
    case AcceptLang => r.(acceptLang := Span(v, ve - v))
    case AcceptEncode => r.(acceptEncode := Span(v, ve - v))
    case AcceptCharset => r.(acceptCharset := Span(v, ve - v))
    case Accept => r.(accept := Span(v, ve - v))
    case Cookie => r.(cookie := Span(v, ve - v))
    case Host => r.(host := Span(v, ve - v))
    case Referer =>
      if slash < 0 then r
      else r.(referHost := Span(v, slash), referUri := Span(v + slash, ve - v - slash))
    case UserAgent => r.(ua := Span(v, ve - v))
    case Unknown => r
  }

  lemma StoreSays(r: Fields, data: string, q: Request, f: Field, v: nat, ve: nat)
    requires Says(r, data, q) && v <= ve <= |data|
    ensures Says(StoreSpans(r, f, v, ve, Slash(data[v..ve])), data, Store(q, f, data[v..ve]))
  {
    assert LookInside(0);
    if f.Referer? {
      RefererSays(r, data, q, v, ve);
    }
  }

  lemma RefererSays(r: Fields, data: string, q: Request, v: nat, ve: nat)
    requires Over(r, data) && Resolve(r, data) == q && v <= ve <= |data|
    ensures var s := StoreSpans(r, Referer, v, ve, Slash(data[v..ve]));
            Over(s, data) && Resolve(s, data) == Store(q, Referer, data[v..ve])
  {
    var i := Slash(data[v..ve]);
    if i != -1 {
      Cut(data, v, ve, v + i);
    }
  }

  lemma UriSays(r: Fields, data: string, q: Request, k: nat, ke: nat)
    requires Says(r, data, q) && k <= ke <= |data|
    ensures Says(r.(uri := Span(k, ke - k)), data, q.(uri := Piece(data[k..ke])))
  {
    assert LookInside(0);
  }

  lemma VersionSays(r: Fields, data: string, q: Request, version: int)
    requires Says(r, data, q)
    ensures Says(r.(version := version), data, q.(version := version))
  {
    assert LookInside(0);
  }

  class ReqHeader {
    var version: int
    var uri: Span
    var host: Span
    var ua: Span
    var cookie: Span
    var referHost: Span
    var referUri: Span
    var accept: Span
    var acceptCharset: Span
    var acceptEncode: Span
    var acceptLang: Span

    ghost function Spans(): Fields
      reads this
    {
      Fields(version, uri, host, ua, cookie, referHost, referUri, accept, acceptCharset, acceptEncode, acceptLang)
    }

    /** http_req_header_clear */
    constructor ()
      ensures Spans() == NO_FIELDS
    {
      version := 0;
      uri, host, ua, cookie, referHost, referUri := NO_SPAN, NO_SPAN, NO_SPAN, NO_SPAN, NO_SPAN, NO_SPAN;
      accept, acceptCharset, acceptEncode, acceptLang := NO_SPAN, NO_SPAN, NO_SPAN, NO_SPAN;
    }

    /** The comparisons of add_header on the key in [k, ke), colon included. */
    static method Classify(data: string, k: nat, ke: nat) returns (f: Field)
      requires k < ke <= |data|
      ensures f == FieldOf(data[k..ke])
    {
      ghost var key := data[k..ke];
      assert key[0] == data[k];
      f := Unknown;
      var same;
      match data[k]
      case 'A' =>
        same := CmpStr2(data, k, ke, "Accept-Language");
        if same { return AcceptLang; }
        same := CmpStr2(data, k, ke, "Accept-Encoding");
        if same { return AcceptEncode; }
        same := CmpStr2(data, k, ke, "Accept-Charset");
        if same { return AcceptCharset; }
        same := CmpStr2(data, k, ke, "Accept");
        if same { return Accept; }
      case 'C' =>
        same := CmpStr2(data, k, ke, "Cookie");
        if same { return Cookie; }
      case 'H' =>
        same := CmpStr2(data, k, ke, "Host");
        if same { return Host; }
      case 'R' =>
        same := CmpStr2(data, k, ke, "Referer");
        if same { return Referer; }
      case 'U' =>
        same := CmpStr2(data, k, ke, "User-Agent");
        if same { return UserAgent; }
      case _ =>
    }

    /** add_header for the key in [k, ke) and the value in [v, ve). */
    method AddHeader(data: string, k: nat, ke: nat, v: nat, ve: nat)
      requires k < ke <= |data| && v <= ve <= |data|
      modifies this
      ensures Spans() == StoreSpans(old(Spans()), FieldOf(data[k..ke]), v, ve, Slash(data[v..ve]))
    {
      var value := Span(v, ve - v);
      var f := Classify(data, k, ke);
      match f
      case AcceptLang => acceptLang := value;
      case AcceptEncode => acceptEncode := value;
      case AcceptCharset => acceptCharset := value;
      case Accept => accept := value;
      case Cookie => cookie := value;
      case Host => host := value;
      case Referer =>
        var slash := ScanReferer(data, v, ve);
        if slash != -1 {
          referHost := Span(v, slash);
          referUri := Span(v + slash, ve - v - slash);
        }
      case UserAgent => ua := value;
      case Unknown =>
    }

    static method ScanReferer(data: string, v: nat, ve: nat) returns (i: int)
      requires v <= ve <= |data|
      ensures i == Slash(data[v..ve])
    {
      i := FindStr(data, v, ve - 1, "/");
      SlashInData(data, v, ve, i);
      i := if i == -1 then -1 else i - v;
    }

    static method ScanVersion(data: string, b: nat, e: nat) returns (v: int)
      requires b <= e <= |data|
      ensures v == VersionOf(data[b..e])
    {
      var same := CmpStr2(data, b, e, HTTP_11);
      if same {
        return 0x11;
      }
      same := CmpStr2(data, b, e, HTTP_10);
      return if same then 0x10 else -1;
    }

    /** The scans of the request line, in [0, le): where the URI is, if there is one, and the version,
        or -1. */
    static method ScanRequestLine(data: string, le: nat) returns (found: bool, k: nat, ke: nat, v: int)
      requires le <= |data|
      ensures found ==> k <= ke <= le
      ensures ReadsLine(data[..le], if found then UriLine(Piece(data[k..ke]), v) else BadLine)
    {
      k, ke, v := 0, 0, 0;
      var same := CmpStr2(data, 0, le, GET);
      NoGet(data, le);
      if !same {
        return false, k, ke, v;
      }
      k := SkipCharAt(data, 3, le, ' ');
      var uriEnd := FindStr(data, k, le - 1, " ");
      if uriEnd == -1 || uriEnd == k {
        NoUri(data, le, k, uriEnd);
        return false, k, ke, v;
      }
      ke := uriEnd;
      var at := SkipCharAt(data, ke, le, ' ');
      v := ScanVersion(data, at, le);
      UriFound(data, le, k, ke, at);
      found := true;
    }

    /** The scans of one header line, at or after `pos` in [pos, e): where its key (with the colon)
        and its value are, and where the next line begins, or -1. */
    static method ScanHeader(data: string, pos: nat, e: nat)
      returns (found: bool, k: nat, ke: nat, v: nat, ve: nat, next: int, ghost answer: HeaderLine)
      requires pos <= e <= |data|
      ensures found ==> k < ke <= e && v <= ve <= e && (next == -1 || pos < next <= e)
      ensures ReadsHeader(data[pos..e], answer)
      ensures !found ==> answer == NoHeader
      ensures found ==>
                answer == Header(Piece(data[k..ke]), Piece(data[v..ve]),
                    if next == -1 then None else Some(Piece(data[next..e])))
    {
      found, ke, v, ve, answer := false, 0, 0, 0, NoHeader;
      var lineE;
      k, lineE, next := ScanLine(data, pos, e);
      if lineE <= k {
        NoKey(data, pos, k, lineE, e, next, -1);
        return;
      }
      var colon := FindStr(data, k, lineE, ":");
      if colon == -1 || colon == k {
        NoKey(data, pos, k, lineE, e, next, colon);
        return;
      }
      found, ke := true, colon + 1;
      v, ve := ScanValue(data, ke, lineE);
      answer := Header(Piece(data[k..ke]), Piece(data[v..ve]), if next == -1 then None else Some(Piece(data[next..e])));
      KeyFound(data, pos, k, lineE, e, next, colon, v, ve, answer);
    }

    /** The value in [b, e), without the spaces at both ends. */
    static method ScanValue(data: string, b: nat, e: nat) returns (v: nat, ve: nat)
      requires b <= e <= |data|
      ensures b <= v <= ve <= e && Piece(data[v..ve]) == Piece(Trim(data[b..e]))
    {
      v := SkipCharAt(data, b, e, ' ');
      var last := StripCharAt(data, v, e, ' ');
      ve := last + 1;
    }

    /** The line at or after `pos`: where it begins and ends, and where the next begins, or -1. */
    static method ScanLine(data: string, pos: nat, e: nat) returns (k: nat, lineE: nat, next: int)
      requires pos <= e <= |data|
      ensures pos <= k <= lineE <= e && IsLine(data, pos, k, lineE, e, next) && -1 <= next
    {
      k := SkipCharAt(data, pos, e, ' ');
      var crlf := FindStr(data, k, e, CRLF);
      lineE, next := e, -1;
      if crlf != -1 {
        lineE, next := crlf, crlf + 2;
      }
      LineFound(data, pos, k, crlf, lineE, e);
    }

    /** http_req_header_parser.  `before` is what the structure says, `last` what it says then, also
        after a failure. */
    method Parse(data: string, ghost before: Request) returns (status: Status, ghost last: Request)
      requires Says(Spans(), data, before)
      modifies this
      ensures Says(Spans(), data, last)
      ensures TakesRequest(Seen(data), before, Outcome(status, last))
    {
      last := before;
      var end := |data| - 1;
      var lineE := FindStr(data, 0, end, CRLF);
      if lineE == -1 || lineE == 0 {
        NoLine(data, before);
        return Err, last;
      }
      var found, k, ke, v := ScanRequestLine(data, lineE);
      if !found {
        NoRequest(data, lineE, before);
        return Err, last;
      }
      ghost var got := Piece(data[k..ke]);
      UriSays(Spans(), data, before, k, ke);
      uri := Span(k, ke - k);
      last := before.(uri := got);
      if v == -1 {
        NoVersion(data, lineE, before, got, last);
        return Err, last;
      }
      VersionSays(Spans(), data, last, v);
      version := v;
      last := ParseHeaders(data, lineE + 2, end, before.(uri := got, version := v));
      RequestFound(data, lineE, before, got, v, last);
      status := Ok;
    }

    /** The loop over the header lines in [pos, e). */
    method ParseHeaders(data: string, pos: nat, e: nat, ghost before: Request) returns (ghost last: Request)
      requires Says(Spans(), data, before) && pos <= e <= |data|
      modifies this
      ensures Says(Spans(), data, last) && TakesHeaders(data[pos..e], before, last)
    {
      var at := pos;
      last := before;
      while true
        invariant pos <= at <= e && Says(Spans(), data, last)
        invariant forall r :: TakesHeaders(data[at..e], last, r) ==> TakesHeaders(data[pos..e], before, r)
        decreases e - at
      {
        ghost var answer;
        var found, k, ke, v, ve, next;
        found, k, ke, v, ve, next, answer := ScanHeader(data, at, e);
        if !found {
          HeadersEnd(data[at..e], last);
          break;
        }
        ghost var key, value := Piece(data[k..ke]), Piece(data[v..ve]);
        StoreSays(Spans(), data, last, FieldOf(data[k..ke]), v, ve);
        AddHeader(data, k, ke, v, ve);
        ghost var was := last;
        last := Store(was, FieldOf(key.text), value.text);
        if next == -1 {
          HeadersLast(data[at..e], was, key, value);
          break;
        }
        forall r | TakesHeaders(data[next..e], last, r)
          ensures TakesHeaders(data[at..e], was, r)
        {
          HeadersNext(data[at..e], was, key, value, data[next..e], r);
        }
        at := next;
      }
    }
  }

  /** The Referer test in terms of positions. */
  lemma SlashInData(data: string, v: nat, ve: nat, slash: int)
    requires v <= ve <= |data|
    requires slash == if ve - 1 < v || Find(data[v..ve - 1], "/") == -1 then -1 else v + Find(data[v..ve - 1], "/")
    ensures Slash(data[v..ve]) == if slash == -1 then -1 else slash - v
  {
    if v < ve {
      Cut(data, v, ve, ve - 1);
    }
  }

  /** The URI in terms of positions. */
  lemma UriInData(data: string, le: nat, k: nat, ke: int)
    requires le <= |data| && GET <= data[..le]
    requires 3 <= k <= le && data[k..le] == SkipChar(data[3..le], ' ')
    requires ke == if le - 1 < k || Find(data[k..le - 1], " ") == -1 then -1 else k + Find(data[k..le - 1], " ")
    ensures var rest := SkipChar(data[..le][3..], ' ');
            var u := if rest == "" then -1 else Find(rest[..|rest| - 1], " ");
            && (ke == -1 <==> u == -1)
            && (ke != -1 ==> k <= ke < le && u == ke - k && rest[..u] == data[k..ke] && rest[u..] == data[ke..le])
  {
    Cut(data, 0, le, 3);
    assert data[0..le] == data[..le];
    if k < le {
      Cut(data, k, le, le - 1);
      if ke != -1 {
        Cut(data, k, le, ke);
      }
    }
  }

  lemma NoGet(data: string, le: nat)
    requires le <= |data|
    ensures data[0..le] == data[..le]
    ensures !(GET <= data[..le]) ==> ReadsLine(data[..le], BadLine)
  {
    assert data[0..le] == data[..le];
  }

  lemma NoUri(data: string, le: nat, k: nat, ke: int)
    requires le <= |data| && GET <= data[..le]
    requires 3 <= k <= le && data[k..le] == SkipChar(data[3..le], ' ')
    requires ke == if le - 1 < k || Find(data[k..le - 1], " ") == -1 then -1 else k + Find(data[k..le - 1], " ")
    requires ke == -1 || ke == k
    ensures ReadsLine(data[..le], BadLine)
  {
    UriInData(data, le, k, ke);
  }

  lemma UriFound(data: string, le: nat, k: nat, ke: nat, at: nat)
    requires le <= |data| && GET <= data[..le]
    requires 3 <= k <= le && data[k..le] == SkipChar(data[3..le], ' ')
    requires k <= le - 1 && Find(data[k..le - 1], " ") != -1 && ke == k + Find(data[k..le - 1], " ") && ke != k
    requires ke <= at <= le && data[at..le] == SkipChar(data[ke..le], ' ')
    ensures ReadsLine(data[..le], UriLine(Piece(data[k..ke]), VersionOf(data[at..le])))
  {
    UriInData(data, le, k, ke);
  }

  /** The stretch of a header line, within what is left of the data. */
  ghost predicate IsLine(data: string, pos: nat, k: nat, lineE: nat, e: nat, next: int)
    requires pos <= k <= lineE <= e <= |data|
  {
    && (next == -1 || lineE < next <= e)
    && forall x: int :: LookInside(x) ==> LineWithin(data, pos, k, lineE, e, next)
  }

  ghost predicate LineWithin(data: string, pos: nat, k: nat, lineE: nat, e: nat, next: int)
    requires pos <= k <= lineE <= e <= |data|
  {
    var t := SkipChar(data[pos..e], ' ');
    var j := Find(t, CRLF);
    && data[k..lineE] == (if j == -1 then t else t[..j])
    && (next == -1 <==> j == -1)
    && (j != -1 ==> lineE < next <= e && t[j + 2..] == data[next..e])
  }

  lemma LineFound(data: string, pos: nat, k: nat, crlf: int, lineE: nat, e: nat)
    requires pos <= k <= e <= |data| && data[k..e] == SkipChar(data[pos..e], ' ')
    requires crlf == if Find(data[k..e], CRLF) == -1 then -1 else k + Find(data[k..e], CRLF)
    requires lineE == if crlf == -1 then e else crlf
    ensures k <= lineE <= e && IsLine(data, pos, k, lineE, e, if crlf == -1 then -1 else crlf + 2)
  {
    if crlf != -1 {
      Cut(data, k, e, crlf);
      Cut(data, k, e, crlf + 2);
    }
  }

  lemma NoKey(data: string, pos: nat, k: nat, lineE: nat, e: nat, next: int, colon: int)
    requires pos <= k <= lineE <= e <= |data| && IsLine(data, pos, k, lineE, e, next)
    requires lineE == k || (colon == (if Find(data[k..lineE], ":") == -1 then -1 else k + Find(data[k..lineE], ":")) &&
        (colon == -1 || colon == k))
    ensures ReadsHeader(data[pos..e], NoHeader)
  {
    assert LookInside(0);
  }

  lemma KeyFound(data: string, pos: nat, k: nat, lineE: nat, e: nat, next: int, colon: nat, v: nat, ve: nat,
      answer: HeaderLine)
    requires pos <= k < lineE <= e <= |data| && IsLine(data, pos, k, lineE, e, next)
    requires Find(data[k..lineE], ":") > 0 && colon == k + Find(data[k..lineE], ":")
    requires colon + 1 <= v <= ve <= lineE && Piece(data[v..ve]) == Piece(Trim(data[colon + 1..lineE]))
    requires answer == Header(Piece(data[k..colon + 1]), Piece(data[v..ve]),
        if next == -1 then None else Some(Piece(data[next..e])))
    ensures ReadsHeader(data[pos..e], answer)
  {
    assert LookInside(0);
    Cut(data, k, lineE, colon + 1);
  }

  lemma NoLine(data: string, r: Request)
    requires data == "" || Find(data[0..|data| - 1], CRLF) <= 0
    ensures TakesRequest(Seen(data), r, Outcome(Err, r))
  {
    if data != "" {
      assert data[0..|data| - 1] == Seen(data);
    }
  }

  lemma NoRequest(data: string, lineE: nat, r: Request)
    requires data != "" && lineE > 0 && Find(data[0..|data| - 1], CRLF) == lineE && ReadsLine(data[..lineE], BadLine)
    ensures TakesRequest(Seen(data), r, Outcome(Err, r))
  {
    assert data[0..|data| - 1] == Seen(data);
    assert Seen(data)[..lineE] == data[..lineE];
    assert LookInside(0);
  }

  lemma NoVersion(data: string, lineE: nat, r: Request, uri: Piece, last: Request)
    requires data != "" && lineE > 0 && Find(data[0..|data| - 1], CRLF) == lineE &&
        ReadsLine(data[..lineE], UriLine(uri, -1))
    requires last == r.(uri := uri)
    ensures TakesRequest(Seen(data), r, Outcome(Err, last))
  {
    assert data[0..|data| - 1] == Seen(data);
    assert Seen(data)[..lineE] == data[..lineE];
    assert LookInside(0);
  }

  lemma RequestFound(data: string, lineE: nat, r: Request, uri: Piece, version: int, last: Request)
    requires data != "" && lineE > 0 && Find(data[0..|data| - 1], CRLF) == lineE &&
        ReadsLine(data[..lineE], GetLine(uri, version))
    requires TakesHeaders(data[lineE + 2..|data| - 1], r.(uri := uri, version := version), last)
    ensures TakesRequest(Seen(data), r, Outcome(Ok, last))
  {
    assert data[0..|data| - 1] == Seen(data);
    assert Seen(data)[..lineE] == data[..lineE];
    assert Seen(data)[lineE + 2..] == data[lineE + 2..|data| - 1];
    assert LookInside(0);
  }
}
