/** The template engine (f1g_template.c).  Parsing compacts `$$` in place, in the very buffer that
    the nodes added so far point into; execution renders the nodes into a bounded buffer.  Both
    are proved against a meaning of the text that knows neither nodes nor buffers: `Tokens` reads
    the text once, from left to right. */
module Templates {
  import opened Common
  import opened DataSets

  const VAR_FLAG := '$'
  const SPLIT_BEG := '{'
  const SPLIT_END := '}'
  const MAX_VAR_LEN := 64

  // ---------------------------------------------------------------- the meaning of a text

  datatype Tok = Ch(c: char) | Ref(name: string)

  /** _check_syntax_chars(c) == 0 */
  predicate NameChar(c: char) {
    '0' <= c <= '9' || 'A' <= c <= 'Z' || 'a' <= c <= 'z' || c in "_[]-.*@"
  }

  /** The length of the longest prefix made of name characters. */
  function NameLength(t: string): (k: nat)
    ensures k <= |t| && forall i | 0 <= i < k :: NameChar(t[i])
    ensures k < |t| ==> !NameChar(t[k])
  {
    if t == "" || !NameChar(t[0]) then 0 else 1 + NameLength(t[1..])
  }

  function Chars(s: string): (r: seq<Tok>)
    ensures |r| == |s| && forall i | 0 <= i < |s| :: r[i] == Ch(s[i])
  {
    seq(|s|, i requires 0 <= i < |s| => Ch(s[i]))
  }

  function Prepend(head: seq<Tok>, rest: Option<seq<Tok>>): Option<seq<Tok>> {
    match rest
    case None => None
    case Some(toks) => Some(head + toks)
  }

  /** `$$` is `$`, `${name}` is a reference, an unclosed `${name` and anything else is itself; an
      empty or overlong name and a foreign character in a name are errors. */
  function Tokens(t: string): Option<seq<Tok>>
    decreases |t|
  {
    if t == "" then Some([])
    else if t[0] == VAR_FLAG && |t| > 1 && t[1] == VAR_FLAG then Prepend([Ch(VAR_FLAG)], Tokens(t[2..]))
    else if t[0] == VAR_FLAG && |t| > 1 && t[1] == SPLIT_BEG then Reference(t)
    else Prepend([Ch(t[0])], Tokens(t[1..]))
  }

  function Reference(t: string): Option<seq<Tok>>
    requires |t| > 1
    decreases |t|, 0
  {
    var k := NameLength(t[2..]);
    if 2 + k == |t| then Some(Chars(t))
    else if t[2 + k] == SPLIT_END && 1 <= k <= MAX_VAR_LEN then Prepend([Ref(t[2..2 + k])], Tokens(t[3 + k..]))
    else None
  }

  /** The last byte of a trailing literal is dropped. */
  function Trim(toks: seq<Tok>): seq<Tok> {
    if toks != [] && toks[|toks| - 1].Ch? then toks[..|toks| - 1] else toks
  }

  /** What a token list renders to with the given variables; an unknown variable is nothing. */
  function Emit(toks: seq<Tok>, entries: seq<Entry>): string {
    if toks == [] then ""
    else Emit(toks[..|toks| - 1], entries) + EmitOne(toks[|toks| - 1], entries)
  }

  function EmitOne(tok: Tok, entries: seq<Entry>): string {
    match tok
    case Ch(c) => [c]
    case Ref(name) =>
      var v := Lookup(entries, name);
      if v.Some? then v.value else ""
  }

  lemma EmitSnoc(a: seq<Tok>, tok: Tok, longer: seq<Tok>, entries: seq<Entry>)
    requires longer == a + [tok]
    ensures Emit(longer, entries) == Emit(a, entries) + EmitOne(tok, entries)
  {
    assert longer[..|longer| - 1] == a;
  }

  lemma Regroups<T>(a: seq<T>, b: seq<T>, x: T)
    ensures a + (b + [x]) == a + b + [x]
  {
  }

  lemma Associates(a: string, b: string, c: string)
    ensures a + b + c == a + (b + c)
  {
  }

  /** One more token at the end of `front`, and at the end of `both`, which begins with something that
      renders to `x`. */
  lemma EmitLonger(both: seq<Tok>, front: seq<Tok>, tok: Tok, both1: seq<Tok>, front1: seq<Tok>, x: string,
      entries: seq<Entry>)
    requires both1 == both + [tok] && front1 == front + [tok]
    requires Emit(both, entries) == x + Emit(front, entries)
    ensures Emit(both1, entries) == x + Emit(front1, entries)
  {
    EmitSnoc(both, tok, both1, entries);
    EmitSnoc(front, tok, front1, entries);
    Associates(x, Emit(front, entries), EmitOne(tok, entries));
  }

  lemma {:induction false} EmitConcat(a: seq<Tok>, b: seq<Tok>, entries: seq<Entry>)
    ensures Emit(a + b, entries) == Emit(a, entries) + Emit(b, entries)
  {
    if b == [] {
      assert a + b == a;
    } else {
      var front, last := b[..|b| - 1], b[|b| - 1];
      assert b == front + [last];
      EmitConcat(a, front, entries);
      Regroups(a, front, last);
      EmitLonger(a + front, front, last, a + b, b, Emit(a, entries), entries);
    }
  }

  lemma {:induction false} EmitChars(s: string, entries: seq<Entry>)
    ensures Emit(Chars(s), entries) == s
  {
    if s != "" {
      EmitChars(s[..|s| - 1], entries);
      assert Chars(s)[..|s| - 1] == Chars(s[..|s| - 1]);
    }
  }

  // ---------------------------------------------------------------- the meaning is onto

  /** A text for a token list: `$` is doubled, references are written out. */
  function Unparse(toks: seq<Tok>): string {
    if toks == [] then "" else UnparseOne(toks[0]) + Unparse(toks[1..])
  }

  function UnparseOne(tok: Tok): string {
    match tok
    case Ch(c) => if c == VAR_FLAG then [VAR_FLAG, VAR_FLAG] else [c]
    case Ref(name) => [VAR_FLAG, SPLIT_BEG] + name + [SPLIT_END]
  }

  predicate Writable(tok: Tok) {
    tok.Ref? ==> 1 <= |tok.name| <= MAX_VAR_LEN && forall i | 0 <= i < |tok.name| :: NameChar(tok.name[i])
  }

  lemma TokensOfReference(name: string, rest: string)
    requires Writable(Ref(name))
    ensures Tokens(UnparseOne(Ref(name)) + rest) == Prepend([Ref(name)], Tokens(rest))
  {
    var after := name + ([SPLIT_END] + rest);
    var t := [VAR_FLAG, SPLIT_BEG] + after;
    assert UnparseOne(Ref(name)) + rest == t;
    assert t[2..] == after && after[..|name|] == name && after[|name|] == SPLIT_END;
    assert forall i | 0 <= i < |name| :: after[i] == name[i];
    NameLengthIs(after, |name|);
    assert t[2..2 + |name|] == after[..|name|];
    assert t[3 + |name|..] == rest;
  }

  lemma TokensOfChar(c: char, rest: string)
    requires c != VAR_FLAG
    ensures Tokens([c] + rest) == Prepend([Ch(c)], Tokens(rest))
  {
    assert ([c] + rest)[1..] == rest;
  }

  lemma TokensOfEscape(rest: string)
    ensures Tokens([VAR_FLAG, VAR_FLAG] + rest) == Prepend([Ch(VAR_FLAG)], Tokens(rest))
  {
    assert ([VAR_FLAG, VAR_FLAG] + rest)[2..] == rest;
  }

  lemma TokensOfOne(tok: Tok, rest: string)
    requires Writable(tok)
    ensures Tokens(UnparseOne(tok) + rest) == Prepend([tok], Tokens(rest))
  {
    match tok
    case Ch(c) =>
      if c == VAR_FLAG {
        TokensOfEscape(rest);
      } else {
        TokensOfChar(c, rest);
      }
    case Ref(name) => TokensOfReference(name, rest);
  }

  lemma TokensOfMore(text: string, toks: seq<Tok>, tok: Tok, rest: string, more: seq<Tok>)
    requires Writable(tok) && text == UnparseOne(tok) + rest && toks == [tok] + more && Tokens(rest) == Some(more)
    ensures Tokens(text) == Some(toks)
  {
    TokensOfOne(tok, rest);
  }

  /** Every list of characters and well-named references is the meaning of some text. */
  lemma {:induction false} TokensOfUnparse(toks: seq<Tok>)
    requires forall i | 0 <= i < |toks| :: Writable(toks[i])
    ensures Tokens(Unparse(toks)) == Some(toks)
  {
    if toks != [] {
      var more := toks[1..];
      TokensOfUnparse(more);
      assert toks == [toks[0]] + more;
      TokensOfMore(Unparse(toks), toks, toks[0], Unparse(more), more);
    }
  }

  /** Conversely a token list that a text means is always well named. */
  lemma {:induction false} TokensAreWritable(t: string)
    requires Tokens(t).Some?
    ensures forall i | 0 <= i < |Tokens(t).value| :: Writable(Tokens(t).value[i])
    decreases |t|
  {
    if t == "" {
    } else if t[0] == VAR_FLAG && |t| > 1 && t[1] == VAR_FLAG {
      TokensAreWritable(t[2..]);
    } else if t[0] == VAR_FLAG && |t| > 1 && t[1] == SPLIT_BEG {
      var k := NameLength(t[2..]);
      if 2 + k < |t| {
        assert forall i | 0 <= i < k :: t[2..2 + k][i] == t[2..][i];
        TokensAreWritable(t[3 + k..]);
      }
    } else {
      TokensAreWritable(t[1..]);
    }
  }

  lemma {:induction false} NameLengthIs(t: string, k: nat)
    requires k <= |t| && (forall i | 0 <= i < k :: NameChar(t[i])) && (k < |t| ==> !NameChar(t[k]))
    ensures NameLength(t) == k
  {
    if k > 0 {
      NameLengthIs(t[1..], k - 1);
    }
  }

  // ---------------------------------------------------------------- steps of the scan

  lemma PrependTwice(a: seq<Tok>, b: seq<Tok>, rest: Option<seq<Tok>>)
    ensures Prepend(a, Prepend(b, rest)) == Prepend(a + b, rest)
  {
    if rest.Some? {
      assert a + (b + rest.value) == a + b + rest.value;
    }
  }

  /** An escape pair at the head of the rest. */
  lemma ScanEscape(lit: string, rest: string)
    requires |rest| > 1 && rest[0] == VAR_FLAG && rest[1] == VAR_FLAG
    ensures Prepend(Chars(lit), Tokens(rest)) == Prepend(Chars(lit + [VAR_FLAG]), Tokens(rest[2..]))
  {
    PrependTwice(Chars(lit), [Ch(VAR_FLAG)], Tokens(rest[2..]));
    assert Chars(lit + [VAR_FLAG]) == Chars(lit) + [Ch(VAR_FLAG)];
  }

  /** A character at the head of the rest that starts neither an escape nor a reference. */
  lemma ScanPlain(lit: string, rest: string)
    requires rest != ""
    requires rest[0] == VAR_FLAG ==> |rest| == 1 || (rest[1] != VAR_FLAG && rest[1] != SPLIT_BEG)
    ensures Prepend(Chars(lit), Tokens(rest)) == Prepend(Chars(lit + [rest[0]]), Tokens(rest[1..]))
  {
    PrependTwice(Chars(lit), [Ch(rest[0])], Tokens(rest[1..]));
    assert Chars(lit + [rest[0]]) == Chars(lit) + [Ch(rest[0])];
  }

  /** The meaning of `text` when its first `n` bytes are settled, except that a last `$` among
      them may still be `pending` a partner. */
  ghost function Scanned(text: string, n: nat, pending: bool): Option<seq<Tok>>
    requires n <= |text| && (pending ==> n > 0)
  {
    var k := if pending then n - 1 else n;
    Prepend(Chars(text[..k]), Tokens(text[k..]))
  }

  lemma ScanBegins(text: string)
    ensures Scanned(text, 0, false) == Tokens(text)
  {
    assert text[..0] == "" && text[0..] == text;
    if Tokens(text).Some? {
      assert Chars("") + Tokens(text).value == Tokens(text).value;
    }
  }

  /** The cursor moves over a byte that completes neither an escape nor an opening. */
  lemma ScanMoves(text: string, n: nat, pending: bool)
    requires n < |text| && (pending ==> n > 0 && text[n - 1] == VAR_FLAG)
    requires pending ==> text[n] != VAR_FLAG && text[n] != SPLIT_BEG
    ensures Scanned(text, n, pending) == Scanned(text, n + 1, text[n] == VAR_FLAG)
  {
    if pending {
      assert text[n - 1..][1..] == text[n..];
      ScanPlain(text[..n - 1], text[n - 1..]);
      assert text[..n - 1] + [text[n - 1]] == text[..n];
    }
    if text[n] != VAR_FLAG {
      assert text[n..][1..] == text[n + 1..];
      ScanPlain(text[..n], text[n..]);
      assert text[..n] + [text[n]] == text[..n + 1];
    }
  }

  /** The text shrinks over an escape pair. */
  lemma ScanShrinks(text: string, n: nat)
    requires 0 < n < |text| && text[n - 1] == VAR_FLAG && text[n] == VAR_FLAG
    ensures Scanned(text, n, true) == Scanned(text[..n] + text[n + 1..], n, false)
  {
    ScanEscape(text[..n - 1], text[n - 1..]);
    assert text[n - 1..][2..] == text[n + 1..];
    var shrunk := text[..n] + text[n + 1..];
    assert text[..n - 1] + [VAR_FLAG] == text[..n] == shrunk[..n];
    assert shrunk[n..] == text[n + 1..];
  }

  lemma ScanEnds(text: string, pending: bool)
    requires pending ==> text != "" && text[|text| - 1] == VAR_FLAG
    ensures Scanned(text, |text|, pending) == Some(Chars(text))
  {
    var n := |text|;
    if pending {
      assert text[n - 1..] == [VAR_FLAG];
      ScanPlain(text[..n - 1], text[n - 1..]);
      assert text[..n - 1] + [VAR_FLAG] == text;
      assert Tokens(text[n - 1..][1..]) == Some([]);
    }
    assert text[..n] == text;
    assert Tokens(text[n..]) == Some([]);
    assert Chars(text) + [] == Chars(text);
  }

  /** An opening: the pending `$` at position v - 1 and the brace at v start a reference whose
      name runs at least up to position n. */
  ghost predicate Open(text: string, v: nat, n: nat) {
    0 < v < n <= |text| && text[v - 1] == VAR_FLAG && text[v] == SPLIT_BEG && forall i | v < i < n :: NameChar(text[i])
  }

  lemma OpenBreaks(text: string, v: nat, n: nat)
    requires Open(text, v, n) && n < |text| && !NameChar(text[n])
    requires text[n] != SPLIT_END || n == v + 1
    ensures Scanned(text, v, true) == None
  {
    var t := text[v - 1..];
    NameLengthIs(t[2..], n - v - 1);
    assert t[n - v + 1] == text[n];
    assert Tokens(t) == Reference(t) == None;
  }

  lemma OpenCloses(text: string, v: nat, n: nat)
    requires Open(text, v, n) && n < |text| && text[n] == SPLIT_END && v + 1 < n
    ensures Scanned(text, v, true) ==
            Prepend(Chars(text[..v - 1]),
                    if n - v - 1 <= MAX_VAR_LEN then Prepend([Ref(text[v + 1..n])], Tokens(text[n + 1..])) else None)
  {
    var t := text[v - 1..];
    NameLengthIs(t[2..], n - v - 1);
    assert t[2..2 + (n - v - 1)] == text[v + 1..n];
    assert t[3 + (n - v - 1)..] == text[n + 1..];
    assert t[n - v + 1] == text[n];
    assert Tokens(t) == Reference(t);
  }

  lemma OpenUnclosed(text: string, v: nat)
    requires Open(text, v, |text|)
    ensures Scanned(text, v, true) == Some(Chars(text))
  {
    var t := text[v - 1..];
    NameLengthIs(t[2..], |text| - v - 1);
    assert Tokens(t) == Reference(t) == Some(Chars(t));
    assert Chars(text[..v - 1]) + Chars(t) == Chars(text);
  }

  /** The state of the scan, with positions relative to where it began: the cursor, the last flag
      (-1 if none), and the opening brace once there is one. */
  datatype Scan = Scan(n: int, flag: int, prefix: bool, v: int)

  /** `cur` is what compaction has made of `text` so far, and means the same.  The definition is
      seen only where LookInside is mentioned. */
  ghost predicate ScanOk(text: string, cur: string, s: Scan) {
    forall x: int :: LookInside(x) ==> ScanMeans(text, cur, s)
  }

  ghost predicate ScanMeans(text: string, cur: string, s: Scan) {
    && 0 <= s.n <= |cur|
    && -1 <= s.flag < s.n
    && (s.flag >= 0 ==> cur[s.flag] == VAR_FLAG)
    && if s.prefix
       then s.flag >= 0 && s.v == s.flag + 1 && Open(cur, s.v, s.n) && Tokens(text) == Scanned(cur, s.v, true)
       else Tokens(text) == Scanned(cur, s.n, s.flag >= 0 && s.flag == s.n - 1)
  }

  predicate Pending(s: Scan) {
    s.flag >= 0 && s.flag == s.n - 1
  }

  lemma Starts(text: string)
    ensures ScanOk(text, text, Scan(0, -1, false, 0))
  {
    ScanBegins(text);
  }

  lemma Closes(text: string, cur: string, s: Scan)
    requires ScanOk(text, cur, s) && s.prefix && 0 < s.v && s.v + 1 < s.n < |cur| && cur[s.n] == SPLIT_END
    ensures Tokens(text) ==
            Prepend(Chars(cur[..s.v - 1]),
                    if s.n - s.v - 1 <= MAX_VAR_LEN then Prepend([Ref(cur[s.v + 1..s.n])], Tokens(cur[s.n + 1..]))
                        else None)
  {
    assert LookInside(0);
    OpenCloses(cur, s.v, s.n);
  }

  /** Closes with its pieces named. */
  lemma ClosesWith(text: string, cur: string, s: Scan, lit: string, name: string, rest: string)
    requires ScanOk(text, cur, s) && s.prefix && 0 < s.v && s.v + 1 < s.n < |cur| && cur[s.n] == SPLIT_END
    requires lit == cur[..s.v - 1] && name == cur[s.v + 1..s.n] && rest == cur[s.n + 1..]
    ensures Tokens(text) ==
            Prepend(Chars(lit), if |name| <= MAX_VAR_LEN then Prepend([Ref(name)], Tokens(rest)) else None)
  {
    Closes(text, cur, s);
  }

  /** Outside a name the cursor passes a byte; a flag byte is remembered, another one may make the
      scan forget an older flag. */
  lemma Passes(text: string, cur: string, s: Scan, flag: int, next: Scan)
    requires ScanOk(text, cur, s) && 0 <= s.n < |cur| && !s.prefix
    requires Pending(s) ==> cur[s.n] != VAR_FLAG && cur[s.n] != SPLIT_BEG
    requires flag == if cur[s.n] == VAR_FLAG then s.n else if cur[s.n] == SPLIT_BEG then -1 else s.flag
    requires next == s.(n := s.n + 1, flag := flag)
    ensures ScanOk(text, cur, next)
  {
    assert LookInside(0);
    ScanMoves(cur, s.n, Pending(s));
  }

  lemma Opens(text: string, cur: string, s: Scan, next: Scan)
    requires ScanOk(text, cur, s) && 0 <= s.n < |cur| && Pending(s) && cur[s.n] == SPLIT_BEG
    requires next == s.(n := s.n + 1, prefix := true, v := s.n)
    ensures ScanOk(text, cur, next)
  {
    assert LookInside(0);
  }

  lemma Shrinks(text: string, cur: string, s: Scan, shorter: string, next: Scan)
    requires ScanOk(text, cur, s) && 0 <= s.n < |cur| && Pending(s) && cur[s.n] == VAR_FLAG
    requires shorter == cur[..s.n] + cur[s.n + 1..] && next == s.(flag := -1)
    ensures ScanOk(text, shorter, next)
    ensures !s.prefix
  {
    assert LookInside(0);
    ScanShrinks(cur, s.n);
  }

  lemma StaysInName(text: string, cur: string, s: Scan, next: Scan)
    requires ScanOk(text, cur, s) && 0 <= s.n < |cur| && s.prefix && NameChar(cur[s.n])
    requires next == s.(n := s.n + 1)
    ensures ScanOk(text, cur, next)
  {
    assert LookInside(0);
  }

  lemma Breaks(text: string, cur: string, s: Scan)
    requires ScanOk(text, cur, s) && 0 <= s.n < |cur| && s.prefix && !NameChar(cur[s.n])
    requires cur[s.n] != SPLIT_END || s.n == s.v + 1
    ensures Tokens(text) == None
  {
    assert LookInside(0);
    OpenBreaks(cur, s.v, s.n);
  }

  lemma Ends(text: string, cur: string, s: Scan)
    requires ScanOk(text, cur, s) && s.n == |cur|
    ensures Tokens(text) == Some(Chars(cur))
  {
    assert LookInside(0);
    if s.prefix {
      OpenUnclosed(cur, s.v);
    } else {
      ScanEnds(cur, Pending(s));
    }
  }

  // ---------------------------------------------------------------- in-place scanning

  /** The compaction step: memcpy(p_var_flag, pb, pe - pb), one byte to the left within the same
      buffer, closes the gap at `at`. */
  method CloseGap(buf: array<char>, at: nat, end: nat)
    requires at < end <= buf.Length
    modifies buf
    ensures forall j | 0 <= j < at :: buf[j] == old(buf[j])
    ensures forall j | at <= j < end - 1 :: buf[j] == old(buf[j + 1])
    ensures forall j | end - 1 <= j < buf.Length :: buf[j] == old(buf[j])
  {
    for i := at to end - 1
      invariant forall j | 0 <= j < at :: buf[j] == old(buf[j])
      invariant forall j | at <= j < i :: buf[j] == old(buf[j + 1])
      invariant forall j | i <= j < buf.Length :: buf[j] == old(buf[j])
    {
      buf[i] := buf[i + 1];
    }
  }

  lemma SameSlice(cur: string, buf: array<char>, pb: nat, end: nat, i: nat, j: nat)
    requires Mirrors(cur, buf, pb, end) && pb <= i <= j <= end
    ensures cur[i - pb..j - pb] == buf[i..j]
    ensures i == pb ==> cur[..j - pb] == buf[i..j]
    ensures j == end ==> cur[i - pb..] == buf[i..j]
    ensures i == pb && j == end ==> cur == buf[i..j]
  {
    assert LookIntoText(0);
    assert forall k | 0 <= k < j - i :: cur[i - pb..j - pb][k] == buf[i..j][k];
  }

  /** `cur` is the stretch [pb, end) of the buffer.  The bytes are compared only where LookIntoText is
      mentioned. */
  ghost predicate Mirrors(cur: string, buf: array<char>, pb: nat, end: nat)
    reads buf
  {
    && pb <= end <= buf.Length && |cur| == end - pb
    && forall x: int :: LookIntoText(x) ==> forall k | 0 <= k < |cur| :: cur[k] == buf[pb + k]
  }

  lemma MirrorsAt(cur: string, buf: array<char>, pb: nat, end: nat, i: nat)
    requires Mirrors(cur, buf, pb, end) && i < |cur|
    ensures cur[i] == buf[pb + i]
  {
    assert LookIntoText(0);
  }

  /** Closing the gap as the scanned stretch sees it. */
  method Compact(buf: array<char>, pb: nat, at: nat, end: nat, ghost cur: string, ghost shorter: string)
    requires Mirrors(cur, buf, pb, end) && pb <= at < end && shorter == cur[..at - pb] + cur[at - pb + 1..]
    modifies buf
    ensures Mirrors(shorter, buf, pb, end - 1)
    ensures forall j | 0 <= j < pb || end <= j < buf.Length :: buf[j] == old(buf[j])
  {
    assert LookIntoText(0);
    CloseGap(buf, at, end);
  }

  /** The loop of find_variable.  Its measure drops by one in every iteration: either the cursor
      moves or the text shrinks.  `cur` and `s` say where the scan stopped. */
  method Scanning(buf: array<char>, pb: nat, pe: nat)
    returns (status: Status, found: bool, end: nat, vb: nat, ve: nat, ghost cur: string, ghost s: Scan)
    requires pb <= pe <= buf.Length
    modifies buf
    ensures forall j | 0 <= j < pb || pe <= j < buf.Length :: buf[j] == old(buf[j])
    ensures pb <= end <= pe && Mirrors(cur, buf, pb, end)
    ensures status == Err ==> Tokens(old(buf[pb..pe])) == None
    ensures status == Ok ==> ScanOk(old(buf[pb..pe]), cur, s) && 0 <= s.n <= |cur|
    ensures status == Ok && !found ==> s.n == |cur|
    ensures status == Ok && found ==>
              s.prefix && 0 < s.v == vb - pb && vb + 1 < ve < end && s.n == ve - pb && cur[s.n] == SPLIT_END
  {
    ghost var text := buf[pb..pe];
    cur, s := text, Scan(0, -1, false, 0);
    var varFlagFound, prefixFound := false, false;
    var pVarFlag := -1;
    var p := pb;
    status, found, end, vb, ve := Ok, false, pe, 0, 0;
    Starts(text);
    while p != end && !found
      invariant pb <= p <= end <= pe && status == Ok
      invariant forall j | 0 <= j < pb || pe <= j < buf.Length :: buf[j] == old(buf[j])
      invariant Mirrors(cur, buf, pb, end)
      invariant s.prefix == prefixFound && (prefixFound ==> 0 < s.v == vb - pb < s.n)
      invariant s.flag == if varFlagFound then pVarFlag - pb else -1
      invariant varFlagFound ==> pb <= pVarFlag
      invariant s.n == (if found then ve else p) - pb
      invariant found ==> prefixFound && vb + 1 < ve < end
      invariant ScanOk(text, cur, s)
      invariant found ==> cur[s.n] == SPLIT_END
      decreases end - p, !found
    {
      var c := buf[p];
      MirrorsAt(cur, buf, pb, end, s.n);
      ghost var next: Scan;
      if c == VAR_FLAG {
        if varFlagFound && p == pVarFlag + 1 {
          // the second flag of a pair
          ghost var shorter := cur[..s.n] + cur[s.n + 1..];
          next := s.(flag := -1);
          Shrinks(text, cur, s, shorter, next);
          Compact(buf, pb, p, end, cur, shorter);
          end := end - 1;
          varFlagFound, pVarFlag := false, -1;
          cur := shorter;
        } else {
          if prefixFound {
            Breaks(text, cur, s);
            return Err, found, end, vb, ve, cur, s;
          }
          next := s.(n := s.n + 1, flag := s.n);
          Passes(text, cur, s, s.n, next);
          varFlagFound, pVarFlag := true, p;
          p := p + 1;
        }
      } else if c == SPLIT_BEG {
        if varFlagFound && p - pVarFlag == 1 {
          next := s.(n := s.n + 1, prefix := true, v := s.n);
          Opens(text, cur, s, next);
          vb := p;
          prefixFound := true;
        } else {
          if prefixFound {
            Breaks(text, cur, s);
            return Err, found, end, vb, ve, cur, s;
          }
          next := s.(n := s.n + 1, flag := -1);
          Passes(text, cur, s, -1, next);
          varFlagFound, pVarFlag := false, -1;
        }
        p := p + 1;
      } else if c == SPLIT_END {
        next := s;
        if prefixFound {
          if p - vb == 1 {
            Breaks(text, cur, s);
            return Err, found, end, vb, ve, cur, s;
          }
          ve := p;
          found := true;
        } else {
          next := s.(n := s.n + 1, flag := s.flag);
          Passes(text, cur, s, s.flag, next);
        }
        p := p + 1;
      } else {
        next := s.(n := s.n + 1, flag := s.flag);
        if prefixFound {
          if !NameChar(c) {
            Breaks(text, cur, s);
            return Err, found, end, vb, ve, cur, s;
          }
          StaysInName(text, cur, s, next);
        } else {
          Passes(text, cur, s, s.flag, next);
        }
        p := p + 1;
      }
      s := next;
    }
  }

  /** find_variable on buf[pb..pe].  It returns the end of the compacted text, and the positions of
      the brace pair when a variable was found. */
  method FindVariable(buf: array<char>, pb: nat, pe: nat)
    returns (status: Status, found: bool, end: nat, vb: nat, ve: nat)
    requires pb <= pe <= buf.Length
    modifies buf
    ensures forall j | 0 <= j < pb || pe <= j < buf.Length :: buf[j] == old(buf[j])
    ensures pb <= end <= pe
    ensures status == Err ==> Tokens(old(buf[pb..pe])) == None
    ensures status == Ok && !found ==> Tokens(old(buf[pb..pe])) == Some(Chars(buf[pb..end]))
    ensures status == Ok && found ==> pb < vb && vb + 1 < ve < end
    ensures status == Ok && found ==>
              Tokens(old(buf[pb..pe])) ==
              Prepend(Chars(buf[pb..vb - 1]),
                      if ve - vb - 1 <= MAX_VAR_LEN then Prepend([Ref(buf[vb + 1..ve])], Tokens(buf[ve + 1..end]))
                          else None)
  {
    ghost var text := buf[pb..pe];
    ghost var cur, s;
    status, found, end, vb, ve, cur, s := Scanning(buf, pb, pe);
    if status == Err {
      return;
    }
    if found {
      SameSlice(cur, buf, pb, end, pb, vb - 1);
      SameSlice(cur, buf, pb, end, vb + 1, ve);
      SameSlice(cur, buf, pb, end, ve + 1, end);
      ClosesWith(text, cur, s, buf[pb..vb - 1], buf[vb + 1..ve], buf[ve + 1..end]);
    } else {
      Ends(text, cur, s);
      SameSlice(cur, buf, pb, end, pb, end);
    }
  }

  // ---------------------------------------------------------------- nodes

  /** node_info_t: a variable's name, or a stretch of the template's own buffer. */
  datatype Node = VarNode(name: string) | BlkNode(off: nat, len: nat)

  predicate Within(n: Node, size: nat) {
    n.BlkNode? ==> n.off + n.len <= size
  }

  function NodeToks(n: Node, buf: string): seq<Tok>
    requires Within(n, |buf|)
  {
    match n
    case VarNode(name) => [Ref(name)]
    case BlkNode(off, len) => Chars(buf[off..off + len])
  }

  ghost predicate AllWithin(nodes: seq<Node>, size: nat) {
    forall i | 0 <= i < |nodes| :: Within(nodes[i], size)
  }

  /** What the nodes stand for, in order. */
  function AllToks(nodes: seq<Node>, buf: string): seq<Tok>
    requires AllWithin(nodes, |buf|)
  {
    if nodes == [] then []
    else AllToks(nodes[..|nodes| - 1], buf) + NodeToks(nodes[|nodes| - 1], buf)
  }

  lemma AllToksPush(nodes: seq<Node>, n: Node, buf: string)
    requires AllWithin(nodes, |buf|) && Within(n, |buf|)
    ensures AllToks(nodes + [n], buf) == AllToks(nodes, buf) + NodeToks(n, buf)
  {
    assert (nodes + [n])[..|nodes|] == nodes;
  }

  lemma NodeToksFrame(n: Node, a: string, b: string)
    requires Within(n, |a|) && Within(n, |b|)
    requires n.BlkNode? ==> forall j | n.off <= j < n.off + n.len :: a[j] == b[j]
    ensures NodeToks(n, a) == NodeToks(n, b)
  {
    if n.BlkNode? {
      assert a[n.off..n.off + n.len] == b[n.off..n.off + n.len];
    }
  }

  /** Nodes before `size` do not notice changes behind it. */
  lemma {:induction false} AllToksFrame(nodes: seq<Node>, a: string, b: string, size: nat)
    requires size <= |a| && size <= |b| && AllWithin(nodes, size)
    requires forall j | 0 <= j < size :: a[j] == b[j]
    ensures AllToks(nodes, a) == AllToks(nodes, b)
  {
    if nodes != [] {
      AllToksFrame(nodes[..|nodes| - 1], a, b, size);
      NodeToksFrame(nodes[|nodes| - 1], a, b);
    }
  }

  function Trimmed(toks: Option<seq<Tok>>): Option<seq<Tok>> {
    match toks
    case None => None
    case Some(ts) => Some(Trim(ts))
  }

  lemma PrependNothing(toks: Option<seq<Tok>>)
    ensures Prepend([], toks) == toks
  {
    if toks.Some? {
      assert [] + toks.value == toks.value;
    }
  }

  /** Text up to and including a reference is settled: trimming concerns what follows. */
  lemma TrimAfterReference(head: seq<Tok>, name: string, rest: Option<seq<Tok>>)
    ensures Trimmed(Prepend(head, Prepend([Ref(name)], rest))) == Prepend(head + [Ref(name)], Trimmed(rest))
  {
    PrependTwice(head, [Ref(name)], rest);
    if rest.Some? && Trim(rest.value) != rest.value {
      var a, ts := head + [Ref(name)], rest.value;
      assert (a + ts)[..|a + ts| - 1] == a + ts[..|ts| - 1];
    }
  }

  lemma TrimAfterLiteral(head: seq<Tok>, lit: string, name: string, rest: Option<seq<Tok>>)
    ensures Prepend(head, Trimmed(Prepend(Chars(lit), Prepend([Ref(name)], rest)))) ==
            Prepend(head + Chars(lit) + [Ref(name)], Trimmed(rest))
  {
    TrimAfterReference(Chars(lit), name, rest);
    PrependTwice(head, Chars(lit) + [Ref(name)], Trimmed(rest));
    assert head + (Chars(lit) + [Ref(name)]) == head + Chars(lit) + [Ref(name)];
  }

  /** Unlike a reference, a trailing literal loses its last byte. */
  lemma TrimTrailing(head: seq<Tok>, lit: string)
    ensures Prepend(head, Trimmed(Some(Chars(lit)))) == Some(head + Chars(if lit == "" then "" else lit[..|lit| - 1]))
  {
    if lit != "" {
      assert Chars(lit)[..|lit| - 1] == Chars(lit[..|lit| - 1]);
    }
  }

  class Template {
    var nodeNum: nat
    var nodes: array<Node>
    var buf: array<char>

    ghost predicate Valid()
      reads this, nodes
    {
      && 0 < nodes.Length
      && nodeNum <= nodes.Length
      && AllWithin(nodes[..nodeNum], buf.Length)
    }

    /** What the template renders, as tokens. */
    ghost function Toks(): seq<Tok>
      requires Valid()
      reads this, nodes, buf
    {
      AllToks(nodes[..nodeNum], buf[..])
    }

    /** f1g_template_init */
    constructor (nodeSize: nat)
      requires nodeSize > 0
      ensures Valid() && nodeNum == 0 && fresh(nodes) && fresh(buf)
    {
      nodeNum := 0;
      nodes := new Node[nodeSize](_ => VarNode(""));
      buf := new char[0];
    }

    /** f1g_template_extent_cap */
    method ExtendCap(size: nat)
      requires Valid() && nodes.Length <= size
      modifies this`nodes
      ensures Valid() && fresh(nodes) && nodes.Length == size
      ensures nodes[..nodeNum] == old(nodes[..nodeNum])
    {
      var bigger := new Node[size](_ => VarNode(""));
      forall i | 0 <= i < nodeNum {
        bigger[i] := nodes[i];
      }
      nodes := bigger;
      assert nodes[..nodeNum] == old(nodes[..nodeNum]);
    }

    /** f1g_template_add_node: the array doubles when it is full. */
    method AddNode(n: Node)
      requires Valid() && Within(n, buf.Length)
      modifies this`nodeNum, this`nodes, nodes
      ensures Valid() && (nodes == old(nodes) || fresh(nodes))
      ensures nodes[..nodeNum] == old(nodes[..nodeNum]) + [n]
      ensures Toks() == old(Toks()) + NodeToks(n, buf[..])
    {
      AllToksPush(nodes[..nodeNum], n, buf[..]);
      if nodeNum >= nodes.Length {
        ExtendCap(nodes.Length * 2);
      }
      nodes[nodeNum] := n;
      nodeNum := nodeNum + 1;
      assert nodes[..nodeNum] == old(nodes[..nodeNum]) + [n];
    }

    /** Lines 229 to 234: a literal stretch becomes a node unless it is empty. */
    method AddLiteral(pb: nat, len: int, ghost size: nat)
      requires Valid() && AllWithin(nodes[..nodeNum], size)
      requires -1 <= len && pb + len <= size <= buf.Length
      modifies this`nodeNum, this`nodes, nodes
      ensures Valid() && (nodes == old(nodes) || fresh(nodes))
      ensures len >= 0 ==> Toks() == old(Toks()) + Chars(buf[pb..pb + len])
      ensures len < 0 ==> Toks() == old(Toks())
      ensures AllWithin(nodes[..nodeNum], size)
    {
      if len > 0 {
        AddNode(BlkNode(pb, len));
      } else if len == 0 {
        assert Toks() + Chars(buf[pb..pb]) == Toks();
      }
    }

    /** A round that found a variable: its literal part, then lines 236 to 245. */
    method AddReference(pb: nat, vb: nat, ve: nat, ghost lit: string, ghost name: string, ghost rest: Option<seq<Tok>>)
      returns (status: Status)
      requires Valid() && AllWithin(nodes[..nodeNum], pb)
      requires pb < vb < ve < buf.Length && lit == buf[pb..vb - 1] && name == buf[vb + 1..ve]
      modifies this`nodeNum, this`nodes, nodes
      ensures Valid() && (nodes == old(nodes) || fresh(nodes))
      ensures status == Err <==> |name| > MAX_VAR_LEN
      ensures status == Ok ==> AllWithin(nodes[..nodeNum], ve + 1)
      ensures status == Ok ==>
                Prepend(Toks(), Trimmed(rest)) ==
                Prepend(old(Toks()), Trimmed(Prepend(Chars(lit), Prepend([Ref(name)], rest))))
    {
      ghost var head := Toks();
      TrimAfterLiteral(head, lit, name, rest);
      AddLiteral(pb, vb - pb - 1, ve + 1);
      ghost var middle := Toks();
      assert middle == head + Chars(lit);
      if ve - vb - 1 > MAX_VAR_LEN {
        return Err;
      }
      AddNode(VarNode(buf[vb + 1..ve]));
      assert Toks() == middle + [Ref(name)];
      return Ok;
    }

    /** A round that found none: all that is left is one literal. */
    method AddTrailing(pb: nat, end: nat)
      requires Valid() && AllWithin(nodes[..nodeNum], pb)
      requires pb <= end <= buf.Length
      modifies this`nodeNum, this`nodes, nodes
      ensures Valid() && (nodes == old(nodes) || fresh(nodes))
      ensures AllWithin(nodes[..nodeNum], end)
      ensures Some(Toks()) == Prepend(old(Toks()), Trimmed(Some(Chars(buf[pb..end]))))
    {
      TrimTrailing(Toks(), buf[pb..end]);
      if pb < end {
        assert buf[pb..end][..end - pb - 1] == buf[pb..end - 1];
      } else {
        assert Toks() + Chars("") == Toks();
      }
      AddLiteral(pb, end - pb - 1, end);
    }

    /** One round of the loop of f1g_template_parse, on buf[pb..pe]: it returns where the next
        round begins and where the compacted text ends.  No byte before `pb` changes, and the
        nodes added lie before the next round's text. */
    method ParseRound(pb: nat, pe: nat) returns (status: Status, next: nat, end: nat)
      requires Valid() && pb < pe <= buf.Length && AllWithin(nodes[..nodeNum], pb)
      modifies this`nodeNum, this`nodes, nodes, buf
      ensures Valid() && (nodes == old(nodes) || fresh(nodes))
      ensures forall j | 0 <= j < pb :: buf[j] == old(buf[j])
      ensures status == Err ==> Tokens(old(buf[pb..pe])) == None
      ensures status == Ok ==> pb < next <= end + 1 && end <= pe
      ensures status == Ok ==> AllWithin(nodes[..nodeNum], if next <= end then next else end)
      ensures status == Ok ==>
                Prepend(old(Toks()), Trimmed(Tokens(old(buf[pb..pe])))) ==
                if next <= end then Prepend(Toks(), Trimmed(Tokens(buf[next..end]))) else Some(Toks())
    {
      var found, vb, ve;
      ghost var before, text := buf[..], buf[pb..pe];
      status, found, end, vb, ve := FindVariable(buf, pb, pe);
      AllToksFrame(nodes[..nodeNum], before, buf[..], pb);
      if status == Err {
        return Err, pb, pe;
      }
      if found {
        ghost var lit, name, tail := buf[pb..vb - 1], buf[vb + 1..ve], buf[ve + 1..end];
        assert Tokens(text) == Prepend(Chars(lit), if |name| <= MAX_VAR_LEN then Prepend([Ref(name)], Tokens(tail))
            else None);
        status := AddReference(pb, vb, ve, lit, name, Tokens(tail));
        if status == Err {
          return Err, pb, pe;
        }
        next := ve + 1;
        assert buf[next..end] == tail;
      } else {
        AddTrailing(pb, end);
        next := end + 1;
      }
    }

    /** f1g_template_parse on the contents of the file. */
    method Parse(text: string) returns (status: Status)
      requires Valid() && nodeNum == 0
      modifies this, nodes
      ensures Valid()
      ensures status == Ok <==> text != "" && Tokens(text).Some?
      ensures status == Ok ==> fresh(buf) && Toks() == Trim(Tokens(text).value)
    {
      if text == "" {
        return Err;
      }
      buf := new char[|text|](i requires 0 <= i < |text| => text[i]);
      assert buf[..] == text;
      var pb: nat, pe: nat := 0, |text|;
      assert buf[pb..pe] == text && Toks() == [];
      PrependNothing(Trimmed(Tokens(text)));
      while pb < pe
        invariant Valid() && fresh(buf) && (nodes == old(nodes) || fresh(nodes))
        invariant pb <= pe + 1 && pe <= buf.Length
        invariant AllWithin(nodes[..nodeNum], if pb <= pe then pb else pe)
        invariant Trimmed(Tokens(text)) == if pb <= pe then Prepend(Toks(), Trimmed(Tokens(buf[pb..pe])))
            else Some(Toks())
        decreases pe + 1 - pb
      {
        status, pb, pe := ParseRound(pb, pe);
        if status == Err {
          return Err;
        }
      }
      return Ok;
    }

    /** f1g_template_exec.  It succeeds exactly when the rendering fits into the buffer; when it
        fails, the buffer holds a proper prefix of the rendering. */
    method Exec(out: array<char>, ds: DataSet) returns (status: Status, valLen: nat)
      requires Valid() && ds.Valid() && out != buf
      modifies out
      ensures ds.Valid() && ds.Entries() == old(ds.Entries())
      ensures valLen <= out.Length
      ensures status == Ok <==> |Emit(Toks(), ds.Entries())| <= out.Length
      ensures status == Ok ==> valLen == |Emit(Toks(), ds.Entries())| && out[..valLen] == Emit(Toks(), ds.Entries())
      ensures status == Err ==> valLen < |Emit(Toks(), ds.Entries())|
      ensures status == Err ==> out[..valLen] == Emit(Toks(), ds.Entries())[..valLen]
      ensures forall j | valLen <= j < out.Length :: out[j] == old(out[j])
    {
      ghost var whole, part := Emit(Toks(), ds.Entries()), "";
      status, valLen, part := ExecNodes(out, ds, whole);
      assert whole[..valLen] == part;
    }

    /** The execution loop; `whole` is the rendering of all nodes, of which `part` is written. */
    method ExecNodes(out: array<char>, ds: DataSet, ghost whole: string)
      returns (status: Status, valLen: nat, ghost part: string)
      requires Valid() && ds.Valid() && out != buf && whole == Emit(Toks(), ds.Entries())
      modifies out
      ensures ds.Valid() && ds.Entries() == old(ds.Entries())
      ensures Holds(out, part) && valLen == |part| && part <= whole
      ensures if status == Ok then part == whole else out.Length < |whole|
      ensures forall j | valLen <= j < out.Length :: out[j] == old(out[j])
    {
      var used := 0;
      ghost var entries, ns, text := ds.Entries(), nodes[..nodeNum], buf[..];
      ghost var soFar := "";
      RenderingStarts(ns, text, entries);
      assert Renders(ns, text, entries, whole);
      for i := 0 to nodeNum
        invariant buf[..] == text && nodes[..nodeNum] == ns && ds.Valid() && ds.Entries() == entries
        invariant Rendering(ns, i, text, entries, soFar)
        invariant Holds(out, soFar) && used == |soFar|
        invariant forall j | used <= j < out.Length :: out[j] == old(out[j])
      {
        assert nodes[i] == ns[i];
        status, used, soFar := ExecNode(nodes[i], out, used, ds, ns, i, text, entries, soFar, whole);
        if status == Err {
          return Err, used, soFar;
        }
      }
      RenderingEnds(ns, text, entries, soFar, whole);
      return Ok, used, soFar;
    }

    /** The body of the execution loop: one node is rendered if what remains can hold it. */
    method ExecNode(n: Node, out: array<char>, used: nat, ds: DataSet, ghost ns: seq<Node>, ghost i: nat,
        ghost text: string, ghost entries: seq<Entry>, ghost soFar: string, ghost whole: string)
      returns (status: Status, nowUsed: nat, ghost part: string)
      requires i < |ns| && n == ns[i] && Within(n, buf.Length) && text == buf[..] && out != buf
      requires ds.Valid() && ds.Entries() == entries
      requires Rendering(ns, i, text, entries, soFar) && Renders(ns, text, entries, whole)
      requires Holds(out, soFar) && used == |soFar|
      modifies out
      ensures Holds(out, part) && used <= nowUsed == |part|
      ensures status == Ok ==> Rendering(ns, i + 1, text, entries, part)
      ensures status == Err ==> part == soFar && part <= whole && out.Length < |whole|
      ensures forall j | nowUsed <= j < out.Length :: out[j] == old(out[j])
    {
      var piece := RenderNode(n, ds, text);
      ghost var longer := soFar + piece;
      var remain := out.Length - used;
      if remain < |piece| {
        DoesNotFit(ns, i, text, entries, soFar, piece, longer, whole);
        return Err, used, soFar;
      }
      RenderingGrows(ns, i, text, entries, soFar, piece, longer);
      CopyInto(out, used, piece, soFar);
      return Ok, used + |piece|, longer;
    }

    /** What one node contributes; a variable that is not in the data set contributes nothing. */
    method RenderNode(n: Node, ds: DataSet, ghost text: string) returns (piece: string)
      requires Within(n, buf.Length) && ds.Valid() && text == buf[..]
      ensures piece == Emit(NodeToks(n, text), ds.Entries())
    {
      match n
      case VarNode(name) =>
        var k := ds.GetVal(name);
        piece := if k == -1 then "" else ds.keys[k].val[..ds.keys[k].valLen];
        assert NodeToks(n, text)[..0] == [];
      case BlkNode(off, len) =>
        piece := buf[off..off + len];
        EmitChars(piece, ds.Entries());
    }
  }

  /** memcpy(out + at, piece, |piece|) */
  method CopyInto(out: array<char>, at: nat, piece: string, ghost soFar: string)
    requires at + |piece| <= out.Length && Holds(out, soFar) && at == |soFar|
    modifies out
    ensures Holds(out, soFar + piece)
    ensures forall j | at + |piece| <= j < out.Length :: out[j] == old(out[j])
  {
    forall i | 0 <= i < |piece| {
      out[at + i] := piece[i];
    }
  }

  /** `soFar` is what the first `i` nodes render to.  The definition is seen only where LookInside
      is mentioned. */
  ghost predicate Rendering(nodes: seq<Node>, i: nat, text: string, entries: seq<Entry>, soFar: string) {
    forall x: int :: LookInside(x) ==>
      i <= |nodes| && AllWithin(nodes, |text|) && soFar == Emit(AllToks(nodes[..i], text), entries)
  }

  /** `whole` is what all nodes render to; seen through only where LookInside is mentioned. */
  ghost predicate Renders(nodes: seq<Node>, text: string, entries: seq<Entry>, whole: string) {
    forall x: int :: LookInside(x) ==> AllWithin(nodes, |text|) && whole == Emit(AllToks(nodes, text), entries)
  }

  lemma RenderingStarts(nodes: seq<Node>, text: string, entries: seq<Entry>)
    requires AllWithin(nodes, |text|)
    ensures Rendering(nodes, 0, text, entries, "")
  {
  }

  lemma EmitNext(nodes: seq<Node>, i: nat, text: string, entries: seq<Entry>, piece: string)
    requires i < |nodes| && AllWithin(nodes, |text|) && piece == Emit(NodeToks(nodes[i], text), entries)
    ensures Emit(AllToks(nodes[..i + 1], text), entries) == Emit(AllToks(nodes[..i], text), entries) + piece
  {
    assert nodes[..i + 1] == nodes[..i] + [nodes[i]];
    AllToksPush(nodes[..i], nodes[i], text);
    EmitConcat(AllToks(nodes[..i], text), NodeToks(nodes[i], text), entries);
  }

  lemma RenderingGrows(nodes: seq<Node>, i: nat, text: string, entries: seq<Entry>, soFar: string, piece: string,
      longer: string)
    requires Rendering(nodes, i, text, entries, soFar) && longer == soFar + piece
    requires i < |nodes| && Within(nodes[i], |text|) && piece == Emit(NodeToks(nodes[i], text), entries)
    ensures Rendering(nodes, i + 1, text, entries, longer)
  {
    assert LookInside(0);
    EmitNext(nodes, i, text, entries, piece);
  }

  lemma RenderingEnds(nodes: seq<Node>, text: string, entries: seq<Entry>, soFar: string, whole: string)
    requires Rendering(nodes, |nodes|, text, entries, soFar) && Renders(nodes, text, entries, whole)
    ensures soFar == whole
  {
    assert LookInside(0);
    assert nodes[..|nodes|] == nodes;
  }

  /** The rendering of the first nodes begins the rendering of all of them. */
  lemma {:induction false} RenderingBegins(nodes: seq<Node>, i: nat, text: string, entries: seq<Entry>, soFar: string,
      whole: string)
    requires Rendering(nodes, i, text, entries, soFar) && i <= |nodes| && Renders(nodes, text, entries, whole)
    ensures soFar <= whole
    decreases |nodes| - i
  {
    if i == |nodes| {
      RenderingEnds(nodes, text, entries, soFar, whole);
    } else {
      var piece, longer := NextPiece(nodes, i, text, entries, soFar, whole);
      RenderingBegins(nodes, i + 1, text, entries, longer, whole);
    }
  }

  lemma NextPiece(nodes: seq<Node>, i: nat, text: string, entries: seq<Entry>, soFar: string, whole: string)
    returns (piece: string, longer: string)
    requires Rendering(nodes, i, text, entries, soFar) && i < |nodes| && Renders(nodes, text, entries, whole)
    ensures longer == soFar + piece && Rendering(nodes, i + 1, text, entries, longer)
  {
    assert LookInside(0);
    piece := Emit(NodeToks(nodes[i], text), entries);
    longer := soFar + piece;
    RenderingGrows(nodes, i, text, entries, soFar, piece, longer);
  }

  lemma DoesNotFit(nodes: seq<Node>, i: nat, text: string, entries: seq<Entry>, soFar: string, piece: string,
      longer: string, whole: string)
    requires Rendering(nodes, i, text, entries, soFar) && i < |nodes| && Renders(nodes, text, entries, whole)
    requires Within(nodes[i], |text|) && piece == Emit(NodeToks(nodes[i], text), entries)
    requires longer == soFar + piece
    ensures soFar <= whole && longer <= whole
  {
    RenderingGrows(nodes, i, text, entries, soFar, piece, longer);
    RenderingBegins(nodes, i, text, entries, soFar, whole);
    RenderingBegins(nodes, i + 1, text, entries, longer, whole);
  }

  // ---------------------------------------------------------------- from text to output

  /** The one-pass meaning of a template: what it should render to with given variables. */
  function Meaning(text: string, entries: seq<Entry>): Option<string> {
    if text == "" then None
    else
      match Tokens(text)
      case None => None
      case Some(toks) => Some(Emit(Trim(toks), entries))
  }

  /** Parse and execute, as test_template.c does: the outcome is the one-pass meaning of the text,
      whatever buffers, nodes and compaction did in between. */
  method Render(text: string, ds: DataSet, nodeSize: nat, out: array<char>) returns (status: Status, valLen: nat)
    requires ds.Valid() && nodeSize > 0
    modifies out
    ensures ds.Valid() && ds.Entries() == old(ds.Entries())
    ensures var m := Meaning(text, ds.Entries());
            && (status == Ok <==> m.Some? && |m.value| <= out.Length)
            && (status == Ok ==> valLen == |m.value| && out[..valLen] == m.value)
  {
    var tpl := new Template(nodeSize);
    status := tpl.Parse(text);
    valLen := 0;
    if status == Ok {
      status, valLen := tpl.Exec(out, ds);
    }
  }

  /** A text without flags and a closing newline renders to itself, whatever the variables. */
  lemma PlainTextIsItself(s: string, entries: seq<Entry>)
    requires VAR_FLAG !in s
    ensures Meaning(s + "\n", entries) == Some(s)
  {
    var t := s + "\n";
    PlainTokens(t);
    assert Trim(Chars(t)) == Chars(s);
    EmitChars(s, entries);
  }

  lemma {:induction false} PlainTokens(s: string)
    requires VAR_FLAG !in s
    ensures Tokens(s) == Some(Chars(s))
  {
    if s != "" {
      PlainTokens(s[1..]);
      assert Chars(s) == [Ch(s[0])] + Chars(s[1..]);
    }
  }
}
