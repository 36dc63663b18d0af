/** ini_read and find_item themselves (f1g_smart_conf.c): scanning loops that cut the read buffer
    into C strings and fill section and item arrays that grow, proved against module Ini. */
module IniReader {
  import opened Common
  import opened BasicFuncs
  import opened Ini
  import opened IniBlocks

  const DFT_SEC_SIZE := 20
  const DFT_ITEM_SIZE := 20

  // ---------------------------------------------------------------- C strings in a buffer

  /** A C string stands at [i, z), its NUL at z. */
  ghost predicate CStringAt(buf: array<char>, i: nat, z: nat)
    reads buf
  {
    i <= z < buf.Length && buf[z] == '\0' && forall k | i <= k < z :: buf[k] != '\0'
  }

  lemma {:induction false} CStrIs(data: string, i: nat, z: nat, e: nat)
    requires i <= z <= e <= |data| && (z < e ==> data[z] == '\0')
    requires forall k | i <= k < z :: data[k] != '\0'
    ensures CStr(data[i..e]) == data[i..z]
    decreases z - i
  {
    if i < z {
      assert data[i..e][1..] == data[i + 1..e];
      CStrIs(data, i + 1, z, e);
      assert [data[i]] + data[i + 1..z] == data[i..z];
    }
  }

  lemma {:induction false} NameEndAt(data: string, i: nat, j: nat, z: nat)
    requires i <= j <= z <= |data| && (j < z ==> data[j] == ' ' || data[j] == '=')
    requires forall k | i <= k < j :: data[k] != ' ' && data[k] != '='
    ensures NameEnd(data[i..z]) == j - i
    decreases j - i
  {
    if i < j {
      assert data[i..z][1..] == data[i + 1..z];
      NameEndAt(data, i + 1, j, z);
    }
  }

  lemma CharAt(data: string, i: nat, j: nat, z: nat, c: char)
    requires i <= j <= z <= |data| && (j < z ==> data[j] == c)
    requires forall k | i <= k < j :: data[k] != c
    ensures Find(data[i..z], [c]) == if j < z then j - i else -1
  {
    var s := data[i..z];
    forall k: nat | k < j - i
      ensures !At(s, k, [c])
    {
      if k + 1 <= |s| {
        assert s[k..k + 1][0] == data[i + k];
      }
    }
    if j < z {
      assert s[j - i..j - i + 1] == [c];
      FindIs(s, [c], j - i);
    } else {
      FindIsNot(s, [c]);
    }
  }

  lemma CutName(buf: array<char>, i: nat, j: nat, z: nat)
    requires i <= j <= z <= buf.Length && NameEnd(buf[i..z]) == j - i
    ensures buf[i..z][..NameEnd(buf[i..z])] == buf[i..j] && buf[i..z][NameEnd(buf[i..z])..] == buf[j..z]
  {
    Cut(buf[..], i, z, j);
  }

  /** while (' ' == *p && '\0' != *p) p++; */
  method SkipSpaces(buf: array<char>, i: nat, ghost z: nat) returns (j: nat)
    requires CStringAt(buf, i, z)
    ensures i <= j <= z && buf[j] != ' ' && buf[j..z] == SkipChar(buf[i..z], ' ')
  {
    j := i;
    while ' ' == buf[j] && '\0' != buf[j]
      invariant i <= j <= z && forall k | i <= k < j :: buf[k] == ' '
      decreases z - j
    {
      j := j + 1;
    }
    SkipIs(buf[..], i, j, z, ' ');
  }

  /** Up to a character or the end of the string. */
  method ScanTo(buf: array<char>, i: nat, c: char, ghost z: nat) returns (j: nat)
    requires CStringAt(buf, i, z) && c != '\0'
    ensures i <= j <= z && (j < z ==> buf[j] == c) && Find(buf[i..z], [c]) == if j < z then j - i else -1
  {
    j := i;
    while c != buf[j] && '\0' != buf[j]
      invariant i <= j <= z && forall k | i <= k < j :: buf[k] != c
      decreases z - j
    {
      j := j + 1;
    }
    CharAt(buf[..], i, j, z, c);
  }

  /** Up to a space, a `=` or the end of the string. */
  method ScanName(buf: array<char>, i: nat, ghost z: nat) returns (j: nat)
    requires CStringAt(buf, i, z)
    ensures i <= j <= z && (j < z ==> buf[j] == ' ' || buf[j] == '=') && j - i == NameEnd(buf[i..z])
  {
    j := i;
    while ' ' != buf[j] && '=' != buf[j] && '\0' != buf[j]
      invariant i <= j <= z && forall k | i <= k < j :: buf[k] != ' ' && buf[k] != '='
      decreases z - j
    {
      j := j + 1;
    }
    NameEndAt(buf[..], i, j, z);
  }

  /** Lines 203 to 207: the end of the value at `i`, without trailing spaces.  The scan back stops at
      the value's first character; with an empty value it looks at the byte before. */
  method ScanValue(buf: array<char>, i: nat, ghost z: nat) returns (j: nat)
    requires CStringAt(buf, i, z) && buf[i] != ' ' && forall k | i <= k < z :: buf[k] != '\n'
    requires i == z ==> 0 < i && buf[i - 1] != ' '
    ensures i <= j <= z && buf[i..j] == if i == z then "" else StripChar(buf[i..z], ' ')
  {
    var p := i;
    while '\n' != buf[p] && '\0' != buf[p]
      invariant i <= p <= z
      decreases z - p
    {
      p := p + 1;
    }
    p := p - 1;
    while ' ' == buf[p] && i != p
      invariant (if i == z then p == i - 1 else i <= p < z) && forall k | p < k < z :: buf[k] == ' '
    {
      p := p - 1;
    }
    j := p + 1;
    if i < z {
      StripIs(buf[..], i, j, z, ' ');
    }
  }

  // ---------------------------------------------------------------- outcomes of an item line

  predicate LookIntoLine(x: int) {
    true
  }

  predicate LookIntoCut(x: int) {
    true
  }

  /** What an item line leads to; seen through only where LookInside is mentioned. */
  ghost predicate ItemLeadsTo(c: Conf, s: string, r: Result) {
    forall x: int :: LookInside(x) ==> Step(c, ClassifyItem(s)) == r
  }

  lemma BadNameFails(c: Conf, s: string)
    requires c.secs != [] && (NameEnd(s) >= NAME_SIZE || NameEnd(s) == |s|)
    ensures ItemLeadsTo(c, s, Failed)
  {
    assert ClassifyItem(s) == BadItem;
  }

  /** The test for a duplicate comes first: it hides what is wrong behind the name. */
  lemma DuplicateFails(c: Conf, s: string)
    requires c.secs != [] && NameEnd(s) < NAME_SIZE && NameEnd(s) < |s|
    requires HasItem(c.secs[|c.secs| - 1].items, s[..NameEnd(s)])
    ensures ItemLeadsTo(c, s, Failed)
  {
    ItemLineNames(s);
  }

  lemma ItemLineNames(s: string)
    requires NameEnd(s) < NAME_SIZE && NameEnd(s) < |s|
    ensures match ClassifyItem(s)
            case ItemLine(it) => it.name == s[..NameEnd(s)]
            case BlankValue(name) => name == s[..NameEnd(s)]
            case BadItem => true
            case _ => false
  {
  }

  lemma NoEqualsFails(c: Conf, s: string, r: string)
    requires c.secs != [] && NameEnd(s) < |s| && r == SkipChar(s[NameEnd(s)..], ' ') && (r == "" || r[0] != '=')
    ensures ItemLeadsTo(c, s, Failed)
  {
    assert ClassifyItem(s) == BadItem;
  }

  function ValueResult(c: Conf, line: Line): Result
    requires c.secs != []
  {
    if line.ItemLine? then Good(Append(c, line.item)) else Undefined
  }

  /** With a new name and a `=`, the value decides: a blank one is undefined behaviour. */
  lemma ValueDecides(c: Conf, s: string, r: string, name: string)
    requires c.secs != [] && NameEnd(s) < NAME_SIZE && NameEnd(s) < |s| && name == s[..NameEnd(s)]
    requires r == SkipChar(s[NameEnd(s)..], ' ') && r != "" && r[0] == '='
    requires !HasItem(c.secs[|c.secs| - 1].items, name)
    ensures ItemLeadsTo(c, s, ValueResult(c, ClassifyValue(name, r[1..])))
  {
    var line := ClassifyValue(name, r[1..]);
    assert ClassifyItem(s) == line;
    ValueSteps(c, line, name);
  }

  lemma ValueSteps(c: Conf, line: Line, name: string)
    requires c.secs != [] && !HasItem(c.secs[|c.secs| - 1].items, name)
    requires if line.ItemLine? then line.item.name == name else line == BlankValue(name)
    ensures Step(c, line) == ValueResult(c, line)
  {
  }

  // ---------------------------------------------------------------- outcomes of a line

  /** What a line leads to; seen through only where LookIntoLine is mentioned. */
  ghost predicate LineLeadsTo(c: Conf, l: string, r: Result) {
    forall x: int :: LookIntoLine(x) ==> Step(c, Classify(l)) == r
  }

  lemma LineSkips(c: Conf, l: string, s: string)
    requires s == SkipChar(l, ' ') && (s == "" || s[0] == '#')
    ensures LineLeadsTo(c, l, Good(c))
  {
  }

  lemma LineIsSection(c: Conf, l: string, s: string, line: Line)
    requires s == SkipChar(l, ' ') && s != "" && s[0] == '[' && line == ClassifySection(s[1..])
    ensures LineLeadsTo(c, l, Step(c, line))
  {
    assert Classify(l) == line;
  }

  lemma LineIsItem(c: Conf, l: string, s: string)
    requires s == SkipChar(l, ' ') && s != "" && s[0] != '#' && s[0] != '['
    ensures forall r :: ItemLeadsTo(c, s, r) ==> LineLeadsTo(c, l, r)
    ensures c.secs == [] ==> LineLeadsTo(c, l, Undefined)
  {
    assert Classify(l) == ClassifyItem(s);
    forall r | ItemLeadsTo(c, s, r)
      ensures LineLeadsTo(c, l, r)
    {
      assert LookInside(0) && LookIntoLine(0);
    }
    if c.secs == [] {
      ItemIsNoSection(s);
    }
  }

  lemma ItemIsNoSection(s: string)
    ensures ClassifyItem(s).ItemLine? || ClassifyItem(s).BadItem? || ClassifyItem(s).BlankValue?
  {
  }

  /** Where the C string at `i` ends, no later than `e`. */
  ghost function FirstNul(buf: array<char>, i: nat, e: nat): (z: nat)
    requires i <= e < buf.Length && buf[e] == '\0'
    reads buf
    ensures z <= e && CStringAt(buf, i, z)
    decreases e - i
  {
    if buf[i] == '\0' then i else FirstNul(buf, i + 1, e)
  }

  // ---------------------------------------------------------------- progress of the line loop

  /** What reading a text gives; seen through only where LookIntoText is mentioned. */
  ghost predicate Reads(text: string, c: Conf, r: Result) {
    forall x: int :: LookIntoText(x) ==> ReadText(text, c) == r
  }

  /** What the line loop has left at position `p`. */
  function Rest(text: string, p: nat): string {
    if p <= |text| then text[p..] else ""
  }

  /** The line at `p` ends at `e`, its C string at `z`. */
  lemma LineIsCut(text: string, p: nat, e: nat, z: nat)
    requires p < |text| && p <= z <= e <= |text| && (e < |text| ==> text[e] == '\n')
    requires forall k | p <= k < e :: text[k] != '\n'
    requires (z < e ==> text[z] == '\0') && forall k | p <= k < z :: text[k] != '\0'
    ensures Rest(text, p) != "" && CStr(FirstLine(Rest(text, p))) == text[p..z] &&
        AfterLine(Rest(text, p)) == Rest(text, e + 1)
  {
    var t := text[p..];
    assert t == text[p..|text|];
    CharAt(text, p, e, |text|, '\n');
    CStrIs(text, p, z, e);
    if e < |text| {
      assert t[..e - p] == text[p..e];
      assert t[e - p + 1..] == text[e + 1..];
    } else {
      assert t == text[p..e];
    }
  }

  /** LineIsCut's conclusion; seen through only where LookIntoCut is mentioned. */
  ghost predicate Cuts(text: string, p: nat, e: nat, l: string) {
    forall x: int :: LookIntoCut(x) ==>
      && Rest(text, p) != ""
      && CStr(FirstLine(Rest(text, p))) == l && AfterLine(Rest(text, p)) == Rest(text, e + 1)
  }

  lemma CutsAt(text: string, p: nat, e: nat, z: nat)
    requires p < |text| && p <= z <= e <= |text| && (e < |text| ==> text[e] == '\n')
    requires forall k | p <= k < e :: text[k] != '\n'
    requires (z < e ==> text[z] == '\0') && forall k | p <= k < z :: text[k] != '\0'
    ensures Cuts(text, p, e, text[p..z])
  {
    LineIsCut(text, p, e, z);
  }

  /** Reading the whole text comes down to reading what is left at `p`, with the sections `d`. */
  ghost predicate Continues(text: string, c: Conf, p: nat, d: Conf) {
    forall x: int, r :: LookAhead(x) && Reads(Rest(text, p), d, r) ==> Reads(text, c, r)
  }

  lemma ContinuesFromStart(text: string, c: Conf)
    ensures Continues(text, c, 0, c)
  {
    assert Rest(text, 0) == text;
  }

  lemma ContinuesBehindLine(text: string, c: Conf, p: nat, e: nat, d: Conf, l: string, r: Result, q: nat, next: Conf)
    requires Continues(text, c, p, d) && Cuts(text, p, e, l)
    requires LineLeadsTo(d, l, r) && r.Good? && next == r.conf && q == e + 1
    ensures Continues(text, c, q, next)
  {
    forall t | Reads(Rest(text, q), next, t)
      ensures Reads(text, c, t)
    {
      assert LookAhead(0) && LookIntoCut(0) && LookIntoText(0) && LookIntoLine(0);
      assert Reads(Rest(text, p), d, t);
    }
  }

  lemma LineDecides(text: string, c: Conf, p: nat, e: nat, d: Conf, l: string, r: Result)
    requires Continues(text, c, p, d) && Cuts(text, p, e, l)
    requires LineLeadsTo(d, l, r) && !r.Good?
    ensures Reads(text, c, r)
  {
    assert LookAhead(0) && LookIntoCut(0) && LookIntoText(0) && LookIntoLine(0);
    assert Reads(Rest(text, p), d, r);
  }

  lemma LineIsDefined(text: string, c: Conf, p: nat, e: nat, d: Conf, l: string)
    requires Continues(text, c, p, d) && Cuts(text, p, e, l) && !Reads(text, c, Undefined)
    ensures !LineLeadsTo(d, l, Undefined)
  {
    if LineLeadsTo(d, l, Undefined) {
      LineDecides(text, c, p, e, d, l, Undefined);
    }
  }

  lemma ContinuesToEnd(text: string, c: Conf, p: nat, d: Conf)
    requires Continues(text, c, p, d) && p >= |text|
    ensures Reads(text, c, Good(d))
  {
    assert LookAhead(0) && LookIntoText(0) && Rest(text, p) == "";
    assert Reads(Rest(text, p), d, Good(d));
  }

  // ---------------------------------------------------------------- progress of the block loop

  /** Reading the whole text comes down to reading `more`, with the sections `d`. */
  ghost predicate Yields(text: string, c: Conf, more: string, d: Conf) {
    forall x: int, r :: LookAhead(x) && Reads(more, d, r) ==> Reads(text, c, r)
  }

  /** What comes in front of `more` is whole lines, or all; seen through only where LookIntoCut is
      mentioned. */
  ghost predicate Splits(all: string, kept: string, more: string) {
    forall x: int :: LookIntoCut(x) ==>
      all == kept + more && (kept == "" || kept[|kept| - 1] == '\n' || more == "")
  }

  lemma ReadsFirst(all: string, kept: string, more: string, d: Conf, r: Result)
    requires Splits(all, kept, more) && Reads(kept, d, r)
    ensures if r.Good? then forall q :: Reads(more, r.conf, q) ==> Reads(all, d, q) else Reads(all, d, r)
  {
    assert LookIntoText(0) && LookIntoCut(0);
    if more == "" {
      assert all == kept;
    } else {
      ReadsInTurn(kept, more, d);
    }
  }

  lemma YieldsBehind(text: string, c: Conf, all: string, d: Conf, kept: string, more: string, next: Conf)
    requires Yields(text, c, all, d) && Splits(all, kept, more) && Reads(kept, d, Good(next))
    ensures Yields(text, c, more, next)
  {
    ReadsFirst(all, kept, more, d, Good(next));
    assert LookAhead(0);
  }

  lemma PartDecides(text: string, c: Conf, all: string, d: Conf, kept: string, more: string, r: Result)
    requires Yields(text, c, all, d) && Splits(all, kept, more) && Reads(kept, d, r) && !r.Good?
    ensures Reads(text, c, r)
  {
    ReadsFirst(all, kept, more, d, r);
    assert LookAhead(0);
  }

  lemma PartIsDefined(text: string, c: Conf, all: string, d: Conf, kept: string, more: string)
    requires Yields(text, c, all, d) && Splits(all, kept, more) && !Reads(text, c, Undefined)
    ensures !Reads(kept, d, Undefined)
  {
    if Reads(kept, d, Undefined) {
      PartDecides(text, c, all, d, kept, more, Undefined);
    }
  }

  lemma YieldsEnd(text: string, c: Conf, d: Conf)
    requires Yields(text, c, "", d)
    ensures Reads(text, c, Good(d))
  {
    assert LookAhead(0) && LookIntoText(0);
    assert Reads("", d, Good(d));
  }

  /** What is seen from position `pos` of the file on; seen through only where LookIntoCut is mentioned. */
  ghost predicate Ahead(file: string, pos: nat, carry: string, size: nat, all: string) {
    && |carry| <= 1
    && forall x: int :: LookIntoCut(x) ==> pos <= |file| && 1 < size && all == Seen(file[pos..], carry, size)
  }

  lemma AheadAtStart(file: string, size: nat)
    requires 1 < size
    ensures Ahead(file, 0, "", size, Seen(file, "", size))
  {
    assert file[0..] == file;
  }

  lemma NothingAhead(file: string, carry: string, size: nat, all: string)
    requires Ahead(file, |file|, carry, size, all)
    ensures all == ""
  {
    assert LookIntoCut(0);
  }

  /** How much a round reads. */
  function ReadLength(rest: string, carry: string, size: nat): nat
    requires |carry| < size
  {
    if |rest| <= size - |carry| then |rest| else size - |carry|
  }

  lemma RoundSplits(file: string, pos: nat, carry: string, size: nat, all: string, rest: string, part: string,
      carried: string, next: nat) returns (more: string)
    requires Ahead(file, pos, carry, size, all) && pos < |file| && 1 < size && rest == file[pos..]
    requires part == Part(rest, carry, size) && carried == Carried(rest, carry, size)
    requires next == pos + ReadLength(rest, carry, size)
    ensures Splits(all, part, more) && Ahead(file, next, carried, size, more)
  {
    assert LookIntoCut(0);
    var left := file[next..];
    assert Left(rest, carry, size) == left;
    more := Seen(left, carried, size);
    assert all == part + more;
    assert next == |file| ==> more == "";
  }

  /** `part` is what to read of the first `len` characters of `s`; seen through only where LookIntoLine is
      mentioned. */
  ghost predicate Offers(s: string, len: nat, last: bool, part: string) {
    forall x: int :: LookIntoLine(x) ==>
      && |part| <= len <= |s| && 0 < len && part <= s
      && (if last then |part| == len else part == "" || part[|part| - 1] == '\n')
      && (!last ==> forall j | |part| <= j < len :: s[j] != '\n')
  }

  /** `carried` is what is carried behind `part`; seen through only where LookIntoLine is mentioned. */
  ghost predicate Hands(s: string, len: nat, part: string, carry: string, carried: string) {
    && |carried| <= 1
    && forall x: int :: LookIntoLine(x) ==>
      len < |s| && carried == if |part| < len then "" else if carry == "" then "\0" else [s[len]]
  }

  /** The last block, and any other, as they stand in the buffer. */
  lemma LastPart(rest: string, carry: string, size: nat, s: string, part: string)
    requires |carry| <= 1 < size && |rest| + |carry| <= size && rest != "" && s == carry + rest
    requires part == Part(rest, carry, size)
    ensures Offers(s, |rest|, true, part)
  {
  }

  lemma OtherPart(rest: string, carry: string, size: nat, len: nat, s: string, part: string, carried: string)
    requires |carry| <= 1 < size && len == size - |carry| < |rest| && s == carry + rest
    requires part == Part(rest, carry, size) && carried == Carried(rest, carry, size)
    ensures Offers(s, len, false, part)
    ensures Hands(s, len, part, carry, carried)
  {
    var looked := s[..len];
    assert (carry + rest[..len])[..len] == looked;
    assert looked[len - 1] == s[len - 1];
    assert forall j | |Lines(looked)| <= j < len :: s[j] == looked[j];
  }

  lemma NextRound(file: string, pos: nat, carry: string, size: nat, all: string, len: nat, rest: string, s: string,
      next: nat)
      returns (part: string, carried: string, more: string)
    requires Ahead(file, pos, carry, size, all) && pos < |file| && 1 < size
    requires rest == file[pos..] && s == carry + rest && len == ReadLength(rest, carry, size) && next == pos + len
    ensures Splits(all, part, more) && Ahead(file, next, carried, size, more)
    ensures Offers(s, len, next == |file|, part)
    ensures next < |file| ==> Hands(s, len, part, carry, carried)
  {
    part, carried := Part(rest, carry, size), Carried(rest, carry, size);
    more := RoundSplits(file, pos, carry, size, all, rest, part, carried, next);
    if next == |file| {
      LastPart(rest, carry, size, s, part);
    } else {
      OtherPart(rest, carry, size, len, s, part, carried);
    }
  }

  /** The last place of the buffer holds what the next round begins with. */
  ghost predicate Carries(buf: array<char>, procLeft: nat, carry: string)
    requires 2 < buf.Length
    reads buf
  {
    procLeft == |carry| <= 1 && (procLeft == 1 ==> buf[buf.Length - 2] == carry[0])
  }

  /** `part` is what is to be read of the first `len` characters of the buffer, up to `p` it has been. */
  ghost predicate Ready(buf: array<char>, p: nat, len: nat, last: bool, part: string)
    reads buf
  {
    && |part| <= len < buf.Length && 0 < len && (!last ==> p <= |part|)
    && (forall j | p <= j < |part| :: buf[j] == part[j])
    && (if last then |part| == len else part == "" || part[|part| - 1] == '\n')
    && (!last ==> forall j | |part| <= j < len :: buf[j] != '\n')
  }

  /** The first `n` characters of the buffer are those of `s`. */
  ghost predicate Filled(buf: array<char>, s: string, n: nat)
    reads buf
  {
    n <= |s| && n <= buf.Length && forall j | 0 <= j < n :: buf[j] == s[j]
  }

  lemma OfferIsReady(buf: array<char>, s: string, n: nat, len: nat, last: bool, part: string)
    requires Filled(buf, s, n) && len <= n && len < buf.Length && Offers(s, len, last, part)
    ensures Ready(buf, 0, len, last, part)
  {
    assert LookIntoLine(0);
    assert forall j | 0 <= j < |part| :: part[j] == s[j];
  }

  /** What will be carried, once the lines of `part` are cut off. */
  ghost predicate WillCarry(buf: array<char>, len: nat, part: string, carried: string)
    requires 2 < buf.Length
    reads buf
  {
    && buf.Length - 2 <= len < buf.Length
    && carried == if |part| < len then "" else if len == buf.Length - 1 then "\0" else [buf[len]]
  }

  lemma HandsOver(buf: array<char>, s: string, n: nat, len: nat, part: string, carry: string, carried: string)
    requires Filled(buf, s, n) && n == |carry| + len && Hands(s, len, part, carry, carried)
    requires 2 < buf.Length == len + |carry| + 1 && |carry| <= 1
    ensures WillCarry(buf, len, part, carried)
  {
    assert LookIntoLine(0);
    assert |carry| == 1 ==> buf[len] == s[len];
  }

  // ---------------------------------------------------------------- the configuration object

  /** sec_t: `items` are the allocated slots, the first `itemNum` of them in use. */
  datatype Slot = Slot(name: string, itemNum: nat, items: seq<Item>)

  const NO_ITEM := Item("", "")

  function Zeroed(n: nat): seq<Item> {
    seq(n, _ => NO_ITEM)
  }

  predicate SlotOk(s: Slot) {
    s.itemNum <= |s.items|
  }

  function SectionOf(s: Slot): Section
    requires SlotOk(s)
  {
    Section(s.name, s.items[..s.itemNum])
  }

  function SectionsOf(slots: seq<Slot>): (r: seq<Section>)
    requires forall i | 0 <= i < |slots| :: SlotOk(slots[i])
    ensures |r| == |slots|
  {
    if slots == [] then [] else SectionsOf(slots[..|slots| - 1]) + [SectionOf(slots[|slots| - 1])]
  }

  lemma {:induction false} SectionAt(slots: seq<Slot>, i: nat)
    requires i < |slots| && forall k | 0 <= k < |slots| :: SlotOk(slots[k])
    ensures SectionsOf(slots)[i] == SectionOf(slots[i])
  {
    var n := |slots| - 1;
    if i < n {
      SectionAt(slots[..n], i);
    }
  }

  lemma SectionsPush(slots: seq<Slot>, s: Slot)
    requires (forall i | 0 <= i < |slots| :: SlotOk(slots[i])) && SlotOk(s)
    ensures SectionsOf(slots + [s]) == SectionsOf(slots) + [SectionOf(s)]
  {
    assert (slots + [s])[..|slots|] == slots;
  }

  /** extend_item_size for a slot: more room, the items in use copied. */
  function ExtendItems(s: Slot, ext: nat): (r: Slot)
    requires SlotOk(s)
    ensures SlotOk(r) && |s.items| < |r.items| && SectionOf(r) == SectionOf(s)
  {
    var size := if ext <= |s.items| then (|s.items| + 1) * 2 else ext;
    s.(items := s.items[..s.itemNum] + Zeroed(size - s.itemNum))
  }

  /** Lines 183 to 215: the next free item slot is filled. */
  function WithItem(s: Slot, it: Item): (r: Slot)
    requires s.itemNum < |s.items|
    ensures SlotOk(r) && SectionOf(r) == Section(s.name, SectionOf(s).items + [it])
  {
    var r := s.(items := s.items[s.itemNum := it], itemNum := s.itemNum + 1);
    assert r.items[..r.itemNum] == s.items[..s.itemNum] + [it];
    r
  }

  /** The last slot got one more item. */
  lemma Appended(slots: seq<Slot>, now: seq<Slot>, it: Item, size: nat)
    requires 0 < |slots| == |now| && now[..|now| - 1] == slots[..|now| - 1]
    requires (forall i | 0 <= i < |slots| :: SlotOk(slots[i])) && forall i | 0 <= i < |now| :: SlotOk(now[i])
    requires var s := SectionOf(slots[|slots| - 1]); SectionOf(now[|now| - 1]) == s.(items := s.items + [it])
    ensures Conf(SectionsOf(now), size) == Append(Conf(SectionsOf(slots), size), it)
  {
    var before := SectionsOf(slots[..|slots| - 1]);
    assert SectionsOf(slots) == before + [SectionOf(slots[|slots| - 1])];
    assert SectionsOf(now) == before + [SectionOf(now[|now| - 1])];
  }

  class SmartConf {
    var secNum: nat
    var secs: array<Slot>

    /** While `n` sections have been read: the slots behind them are untouched. */
    ghost predicate Reading(n: nat)
      reads this, secs
    {
      && n <= secs.Length && 0 < secs.Length
      && forall i | 0 <= i < secs.Length :: SlotOk(secs[i]) && (i >= n ==> secs[i].itemNum == 0)
    }

    ghost function View(n: nat): Conf
      requires Reading(n)
      reads this, secs
    {
      Conf(SectionsOf(secs[..n]), secs.Length)
    }

    /** smart_conf_init */
    constructor (secSize: int, itemSize: int)
      ensures Reading(0) && fresh(secs) && secNum == 0
      ensures View(0) == Conf([], if secSize <= 0 then 20 else secSize)
    {
      var m: nat := if secSize <= 0 then DFT_SEC_SIZE else secSize;
      var n: nat := if itemSize <= 0 then DFT_ITEM_SIZE else itemSize;
      secNum := 0;
      secs := new Slot[m](_ => Slot("", 0, Zeroed(n)));
    }

    /** extend_sec_size: the first `sec_num` slots are copied, the others zeroed. */
    method ExtendSecSize()
      requires 0 < secs.Length && secNum <= secs.Length
      modifies this`secs
      ensures fresh(secs) && secs.Length == old(secs.Length) * 2
      ensures forall i | 0 <= i < secs.Length :: secs[i] == if i < secNum then old(secs[i]) else Slot("", 0, [])
    {
      var bigger := new Slot[secs.Length * 2](_ => Slot("", 0, []));
      forall i | 0 <= i < secNum {
        bigger[i] := secs[i];
      }
      secs := bigger;
    }

    /** Lines 160 to 162: room for one more section.  While the file is read `sec_num` is 0, so
        growth copies nothing. */
    method MakeRoom(n: nat)
      requires Reading(n) && secNum == 0
      modifies this`secs
      ensures secs == old(secs) || fresh(secs)
      ensures Reading(n) && n < secs.Length
      ensures View(n) == if n >= old(secs.Length) then Grown(old(View(n))) else old(View(n))
    {
      if n >= secs.Length {
        ExtendSecSize();
        BlankSections(secs[..n]);
      }
    }

    /** Lines 164 to 170: the slot takes the name. */
    method StoreSection(name: string, n: nat)
      requires Reading(n) && n < secs.Length
      modifies secs
      ensures Reading(n + 1) && View(n + 1) == old(View(n)).(secs := old(View(n)).secs + [Section(name, [])])
    {
      secs[n] := secs[n].(name := name);
      assert secs[..n + 1] == secs[..n] + [secs[n]];
      SectionsPush(secs[..n], secs[n]);
      assert SectionOf(secs[n]) == Section(name, []);
    }

    /** Lines 171 to 174: is the name that of an earlier section? */
    method SectionExists(name: string, n: nat, ghost c: Conf) returns (found: bool)
      requires Reading(n + 1) && View(n + 1).secs[..n] == c.secs
      ensures found <==> HasSection(c.secs, name)
    {
      var i := 0;
      while i < n && !SameName(name, secs[i].name)
        invariant 0 <= i <= n && forall j | 0 <= j < i :: !SameName(name, secs[j].name)
      {
        i := i + 1;
      }
      forall j | 0 <= j < n
        ensures c.secs[j].name == secs[j].name
      {
        SectionAt(secs[..n + 1], j);
        assert c.secs[j] == View(n + 1).secs[j];
      }
      assert i < n ==> SameName(name, c.secs[i].name);
      found := i < n;
    }

    /** Lines 159 to 176: a section line. */
    method AddSectionAt(name: string, n: nat) returns (status: Status)
      requires Reading(n) && secNum == 0
      modifies this`secs, secs
      ensures secs == old(secs) || fresh(secs)
      ensures match AddSection(old(View(n)), name)
              case Good(d) => status == Ok && Reading(n + 1) && View(n + 1) == d
              case _ => status == Err
    {
      MakeRoom(n);
      ghost var c := View(n);
      StoreSection(name, n);
      assert View(n + 1).secs[..n] == c.secs;
      var found := SectionExists(name, n, c);
      status := if found then Err else Ok;
    }

    /** Lines 183 to 215 once name and value are known: the item goes into the last section. */
    method AppendItem(it: Item, n: nat)
      requires Reading(n) && n > 0
      modifies secs
      ensures Reading(n) && View(n) == Append(old(View(n)), it)
    {
      ghost var slots := secs[..n];
      var s := if secs[n - 1].itemNum >= |secs[n - 1].items| then ExtendItems(secs[n - 1], |secs[n - 1].items| * 2)
          else secs[n - 1];
      secs[n - 1] := WithItem(s, it);
      Appended(slots, secs[..n], it, secs.Length);
    }

    /** Lines 191 to 193: is the name taken in the section being read? */
    method ItemExists(name: string, n: nat) returns (found: bool)
      requires Reading(n) && n > 0
      ensures found <==> HasItem(View(n).secs[n - 1].items, name)
    {
      var s := secs[n - 1];
      ghost var items := View(n).secs[n - 1].items;
      SectionAt(secs[..n], n - 1);
      assert items == s.items[..s.itemNum];
      var i := 0;
      while i < s.itemNum && !SameName(name, s.items[i].name)
        invariant 0 <= i <= s.itemNum && forall j | 0 <= j < i :: !SameName(name, s.items[j].name)
      {
        i := i + 1;
      }
      assert i < s.itemNum ==> SameName(name, items[i].name);
      found := i < s.itemNum;
    }

    /** Lines 179 to 215: an item line at [i, z).  The last requirement excludes a value made of
        spaces only, which the code turns into a negative length. */
    method AddItemAt(buf: array<char>, i: nat, ghost z: nat, n: nat) returns (status: Status, ghost r: Result)
      requires Reading(n) && n > 0 && CStringAt(buf, i, z) && forall k | i <= k < z :: buf[k] != '\n'
      requires !ItemLeadsTo(View(n), buf[i..z], Undefined)
      modifies secs
      ensures ItemLeadsTo(old(View(n)), buf[i..z], r)
      ensures if status == Err then r == Failed else Reading(n) && r == Good(View(n))
    {
      ghost var c, s := View(n), buf[i..z];
      assert |c.secs| == n;
      var nameEnd := ScanName(buf, i, z);
      if nameEnd - i >= NAME_SIZE || (' ' != buf[nameEnd] && '=' != buf[nameEnd]) {
        BadNameFails(c, s);
        return Err, Failed;
      }
      var name := buf[i..nameEnd];
      CutName(buf, i, nameEnd, z);
      var found := ItemExists(name, n);
      if found {
        DuplicateFails(c, s);
        return Err, Failed;
      }
      status, r := AddValueAt(buf, i, nameEnd, z, n, name, c, s);
    }

    /** Lines 194 to 215: what follows the name. */
    method AddValueAt(buf: array<char>, ghost i: nat, nameEnd: nat, ghost z: nat, n: nat, name: string, ghost c: Conf,
        ghost s: string)
          returns (status: Status, ghost r: Result)
      requires Reading(n) && n > 0 && CStringAt(buf, nameEnd, z) && forall k | nameEnd <= k < z :: buf[k] != '\n'
      requires c == View(n) && NameEnd(s) < NAME_SIZE && NameEnd(s) < |s| && name == s[..NameEnd(s)]
      requires s[NameEnd(s)..] == buf[nameEnd..z] && !HasItem(c.secs[n - 1].items, name)
      requires !ItemLeadsTo(c, s, Undefined)
      modifies secs
      ensures ItemLeadsTo(c, s, r)
      ensures if status == Err then r == Failed else Reading(n) && r == Good(View(n))
    {
      var cur := SkipSpaces(buf, nameEnd, z);
      if '=' != buf[cur] {
        NoEqualsFails(c, s, buf[cur..z]);
        return Err, Failed;
      }
      ValueDecides(c, s, buf[cur..z], name);
      assert buf[cur..z][1..] == buf[cur + 1..z];
      var value := ParseValue(buf, name, cur + 1, z);
      AppendItem(Item(name, value), n);
      return Ok, Good(View(n));
    }

    /** Lines 153 to 216: the line at [i, z).  It returns how many sections there are now. */
    method ReadLine(buf: array<char>, i: nat, ghost z: nat, ghost l: string, n: nat)
      returns (status: Status, m: nat, ghost r: Result)
      requires Reading(n) && secNum == 0 && CStringAt(buf, i, z) && forall k | i <= k < z :: buf[k] != '\n'
      requires l == buf[i..z] && !LineLeadsTo(View(n), l, Undefined)
      modifies this`secs, secs
      ensures secs == old(secs) || fresh(secs)
      ensures LineLeadsTo(old(View(n)), l, r)
      ensures if status == Err then r == Failed else Reading(m) && r == Good(View(m))
    {
      ghost var c := View(n);
      m := n;
      var at := SkipSpaces(buf, i, z);
      ghost var s := buf[at..z];
      if '#' == buf[at] || '\0' == buf[at] {
        LineSkips(c, l, s);
        return Ok, n, Good(c);
      }
      if '[' == buf[at] {
        assert s[1..] == buf[at + 1..z];
        var line := ParseSection(buf, at + 1, z);
        LineIsSection(c, l, s, line);
        r := Step(c, line);
        if line.BadSection? {
          return Err, n, r;
        }
        status := AddSectionAt(line.name, n);
        m := n + 1;
      } else {
        LineIsItem(c, l, s);
        assert n > 0;
        status, r := AddItemAt(buf, at, z, n);
      }
    }

    /** Lines 150 to 217: the line from `p` to `e` is cut off and read. */
    method ReadNext(ghost text: string, ghost c: Conf, buf: array<char>, p: nat, e: nat, n: nat, ghost d: Conf)
      returns (status: Status, m: nat, ghost l: string, ghost r: Result)
      requires p < |text| < buf.Length && p <= e <= |text| && forall j | p <= j < |text| :: buf[j] == text[j]
      requires (e < |text| ==> text[e] == '\n') && forall j | p <= j < e :: text[j] != '\n'
      requires Reading(n) && secNum == 0 && d == View(n) && Continues(text, c, p, d) && !Reads(text, c, Undefined)
      modifies this`secs, secs, buf
      ensures secs == old(secs) || fresh(secs)
      ensures Cuts(text, p, e, l) && LineLeadsTo(d, l, r)
      ensures if status == Err then r == Failed else Reading(m) && r == Good(View(m))
      ensures buf[e] == '\0' && forall j | e < j < buf.Length :: buf[j] == old(buf[j])
    {
      ghost var z;
      z, l := CutLine(text, buf, p, e);
      LineIsDefined(text, c, p, e, d, l);
      status, m, r := ReadLine(buf, p, z, l, n);
    }

    /** Lines 143 to 217: the line at `p` is read, unless the block ends before it does. */
    method ReadHere(ghost text: string, ghost c: Conf, buf: array<char>, p: nat, len: nat, last: bool, n: nat,
        ghost d: Conf)
      returns (ended: bool, status: Status, e: nat, m: nat, ghost l: string, ghost r: Result)
      requires p < len && Ready(buf, p, len, last, text)
      requires Reading(n) && secNum == 0 && d == View(n) && Continues(text, c, p, d) && !Reads(text, c, Undefined)
      modifies this`secs, secs, buf
      ensures secs == old(secs) || fresh(secs)
      ensures p <= e <= len && (ended <==> e == len && !last)
      ensures ended ==> status == Ok && p == |text| && Reading(m) && d == View(m)
      ensures !ended ==> Cuts(text, p, e, l) && LineLeadsTo(d, l, r)
      ensures !ended ==> if status == Err then r == Failed else Reading(m) && r == Good(View(m))
      ensures !ended ==> buf[e] == '\0' && Ready(buf, e + 1, len, last, text)
      ensures !last ==> forall j | len <= j < buf.Length :: buf[j] == old(buf[j])
    {
      e := ScanLine(buf, p, len);
      ended, status, m := e == len && !last, Ok, n;
      l, r := "", Good(d);
      if !ended {
        status, m, l, r := ReadNext(text, c, buf, p, e, n, d);
      }
    }

    /** Lines 139 to 217: the lines among the first `len` characters of the buffer are read.  What has
        no line end is left alone unless the file ends there. */
    method ReadBlock(buf: array<char>, len: nat, last: bool, n: nat, ghost text: string)
      returns (status: Status, m: nat, procLeft: nat)
      requires Ready(buf, 0, len, last, text)
      requires Reading(n) && secNum == 0 && !Reads(text, View(n), Undefined)
      modifies this`secs, secs, buf
      ensures secs == old(secs) || fresh(secs)
      ensures status == Err ==> Reads(text, old(View(n)), Failed)
      ensures status == Ok ==> Reading(m) && Reads(text, old(View(n)), Good(View(m)))
      ensures status == Ok && !last ==> procLeft == (if |text| == len then 1 else 0)
      ensures status == Ok && !last && |text| == len ==> buf[len - 1] == '\0'
      ensures !last ==> forall j | len <= j < buf.Length :: buf[j] == old(buf[j])
    {
      ghost var c := View(n);
      ghost var d := c;
      var p := 0;
      m, procLeft := n, len;
      ContinuesFromStart(text, c);
      while p < len
        invariant p <= len + 1 && Ready(buf, p, len, last, text) && Reading(m) && secNum == 0
        invariant secs == old(secs) || fresh(secs)
        invariant !last ==> forall j | len <= j < buf.Length :: buf[j] == old(buf[j])
        invariant d == View(m) && Continues(text, c, p, d)
        invariant p == len && !last ==> procLeft == 1 && buf[len - 1] == '\0'
        decreases len - p
      {
        var ended, e;
        ghost var l, r;
        ended, status, e, m, l, r := ReadHere(text, c, buf, p, len, last, m, d);
        procLeft := len - e;
        if ended {
          break;
        }
        if status == Err {
          LineDecides(text, c, p, e, d, l, r);
          return Err, m, procLeft;
        }
        ghost var line, before := p, d;
        p, d := e + 1, r.conf;
        ContinuesBehindLine(text, c, line, e, before, l, r, p, d);
      }
      ContinuesToEnd(text, c, p, d);
      return Ok, m, procLeft;
    }

    /** The same, and what is carried to the next block. */
    method HandleBlock(buf: array<char>, len: nat, last: bool, n: nat, ghost text: string, ghost carried: string)
      returns (status: Status, m: nat, left: nat)
      requires Ready(buf, 0, len, last, text) && 2 < buf.Length && (last || WillCarry(buf, len, text, carried))
      requires Reading(n) && secNum == 0 && !Reads(text, View(n), Undefined)
      modifies this`secs, secs, buf
      ensures secs == old(secs) || fresh(secs)
      ensures status == Err ==> Reads(text, old(View(n)), Failed)
      ensures status == Ok ==> Reading(m) && Reads(text, old(View(n)), Good(View(m)))
      ensures status == Ok && !last ==> Carries(buf, left, carried)
    {
      status, m, left := ReadBlock(buf, len, last, n, text);
    }

    /** ini_read, with blocks of `blockSize` characters.  It fails, or is undefined, exactly when reading
        what it sees of the file is; otherwise the object holds the sections that were read. */
    method IniRead(file: string, blockSize: nat) returns (status: Status)
      requires Reading(0) && secNum == 0 && 1 < blockSize
      requires !Reads(Seen(file, "", blockSize), View(0), Undefined)
      modifies this, secs
      ensures status == Err ==> secNum == 0 && Reads(Seen(file, "", blockSize), old(View(0)), Failed)
      ensures status == Ok ==>
                Reading(secNum) && Reads(Seen(file, "", blockSize), old(View(0)), Good(View(secNum)))
    {
      var buf := new char[blockSize + 1];
      ghost var text, c := Seen(file, "", blockSize), View(0);
      ghost var all, carry := text, "";
      var pos, procLeft, n := 0, 0, 0;
      AheadAtStart(file, blockSize);
      while pos < |file|
        invariant pos <= |file| && Reading(n) && secNum == 0
        invariant secs == old(secs) || fresh(secs)
        invariant Ahead(file, pos, carry, blockSize, all) && Yields(text, c, all, View(n))
        invariant pos < |file| ==> Carries(buf, procLeft, carry)
        decreases |file| - pos
      {
        status, pos, procLeft, n, all, carry := ReadRound(file, pos, buf, procLeft, n, text, c, all, carry);
        if status == Err {
          return Err;
        }
      }
      NothingAhead(file, carry, blockSize, all);
      YieldsEnd(text, c, View(n));
      secNum := n;
      return Ok;
    }

    /** The body of the block loop. */
    method ReadRound(file: string, pos: nat, buf: array<char>, procLeft: nat, n: nat, ghost text: string,
        ghost c: Conf, ghost all: string, ghost carry: string)
      returns (status: Status, next: nat, left: nat, m: nat, ghost more: string, ghost carried: string)
      requires pos < |file| && 2 < buf.Length && Carries(buf, procLeft, carry)
      requires Reading(n) && secNum == 0 && Ahead(file, pos, carry, buf.Length - 1, all)
      requires Yields(text, c, all, View(n)) && !Reads(text, c, Undefined)
      modifies this`secs, secs, buf
      ensures secs == old(secs) || fresh(secs)
      ensures status == Err ==> Reads(text, c, Failed)
      ensures status == Ok ==> Reading(m) && Yields(text, c, more, View(m))
      ensures pos < next <= |file| && Ahead(file, next, carried, buf.Length - 1, more)
      ensures status == Ok && next < |file| ==> Carries(buf, left, carried)
    {
      ghost var d := View(n);
      var len;
      ghost var part;
      len, next, part, carried, more := TakeBlock(file, pos, buf, procLeft, carry, all);
      PartIsDefined(text, c, all, d, part, more);
      status, m, left := HandleBlock(buf, len, next == |file|, n, part, carried);
      if status == Err {
        PartDecides(text, c, all, d, part, more, Failed);
      } else {
        YieldsBehind(text, c, all, d, part, more, View(m));
      }
    }

    /** find_item: the search does not stop at the first section of that name. */
    method FindItemAt(sec: string, itemName: string) returns (r: Option<Item>)
      requires Reading(secNum)
      ensures r == FindItem(View(secNum).secs, sec, itemName)
    {
      r := None;
      ghost var slots := secs[..secNum];
      for i := 0 to secNum
        invariant r == FindItem(SectionsOf(slots[..i]), sec, itemName)
      {
        FindItemPush(slots, i, sec, itemName);
        var here := None;
        if SameName(secs[i].name, sec) {
          here := FindInSlot(secs[i], itemName);
        }
        if here.Some? {
          r := here;
        }
      }
      assert slots[..secNum] == slots;
    }
  }

  lemma FindItemPush(slots: seq<Slot>, i: nat, sec: string, name: string)
    requires i < |slots| && forall k | 0 <= k < |slots| :: SlotOk(slots[k])
    ensures
      var s := SectionOf(slots[i]);
      var here := if SameName(s.name, sec) then FindInItems(s.items, name) else None;
      FindItem(SectionsOf(slots[..i + 1]), sec, name) ==
        if here.Some? then here else FindItem(SectionsOf(slots[..i]), sec, name)
  {
    assert slots[..i + 1] == slots[..i] + [slots[i]];
    SectionsPush(slots[..i], slots[i]);
    assert SectionsOf(slots[..i + 1])[..i] == SectionsOf(slots[..i]);
  }

  /** The inner loop of find_item: the first item of that name. */
  method FindInSlot(s: Slot, name: string) returns (r: Option<Item>)
    requires SlotOk(s)
    ensures r == FindInItems(SectionOf(s).items, name)
  {
    ghost var items := s.items[..s.itemNum];
    for j := 0 to s.itemNum
      invariant FindInItems(items, name) == FindInItems(items[j..], name)
    {
      assert items[j..][1..] == items[j + 1..];
      if SameName(s.items[j].name, name) {
        return Some(s.items[j]);
      }
    }
    return None;
  }

  /** Lines 127 to 128: what was left comes to the front, and the file's next characters behind it. */
  method FillBuffer(file: string, pos: nat, buf: array<char>, procLeft: nat, ghost carry: string, ghost s: string)
    returns (len: nat)
    requires pos < |file| && 2 < buf.Length && Carries(buf, procLeft, carry) && s == carry + file[pos..]
    modifies buf
    ensures len == ReadLength(file[pos..], carry, buf.Length - 1) && Filled(buf, s, |carry| + len)
  {
    var size := buf.Length - 1;
    if procLeft > 0 {
      buf[0] := buf[size - procLeft];
    }
    len := if |file| - pos <= size - procLeft then |file| - pos else size - procLeft;
    forall j | 0 <= j < len {
      buf[procLeft + j] := file[pos + j];
    }
  }

  /** FillBuffer, and what the round has to do with it: `part` is to be read, `more` will be left, and
      `carried` is what will be at the end of the buffer then. */
  method TakeBlock(file: string, pos: nat, buf: array<char>, procLeft: nat, ghost carry: string, ghost all: string)
    returns (len: nat, next: nat, ghost part: string, ghost carried: string, ghost more: string)
    requires pos < |file| && 2 < buf.Length && Carries(buf, procLeft, carry)
    requires Ahead(file, pos, carry, buf.Length - 1, all)
    modifies buf
    ensures pos < next <= |file| && Splits(all, part, more) && Ahead(file, next, carried, buf.Length - 1, more)
    ensures Ready(buf, 0, len, next == |file|, part) && (next == |file| || WillCarry(buf, len, part, carried))
  {
    ghost var rest, size, n := file[pos..], buf.Length - 1, |carry|;
    ghost var s := carry + rest;
    len := FillBuffer(file, pos, buf, procLeft, carry, s);
    next := pos + len;
    part, carried, more := NextRound(file, pos, carry, size, all, len, rest, s, next);
    OfferIsReady(buf, s, n + len, len, next == |file|, part);
    if next < |file| {
      HandsOver(buf, s, n + len, len, part, carry, carried);
    }
  }

  /** Line 145: to the end of the line at `p`. */
  method ScanLine(buf: array<char>, p: nat, end: nat) returns (e: nat)
    requires p <= end < buf.Length
    ensures p <= e <= end && (e < end ==> buf[e] == '\n') && forall k | p <= k < e :: buf[k] != '\n'
  {
    e := p;
    while e < end && '\n' != buf[e]
      invariant p <= e <= end && forall k | p <= k < e :: buf[k] != '\n'
    {
      e := e + 1;
    }
  }

  /** Line 150: a NUL takes the place of the line end. */
  method CutLine(ghost text: string, buf: array<char>, p: nat, e: nat) returns (ghost z: nat, ghost l: string)
    requires p < |text| < buf.Length && p <= e <= |text| && forall k | p <= k < |text| :: buf[k] == text[k]
    requires (e < |text| ==> text[e] == '\n') && forall k | p <= k < e :: text[k] != '\n'
    modifies buf
    ensures buf[e] == '\0' && forall k | 0 <= k < buf.Length && k != e :: buf[k] == old(buf[k])
    ensures CStringAt(buf, p, z) && z <= e && forall k | p <= k < z :: buf[k] != '\n'
    ensures l == buf[p..z] && Cuts(text, p, e, l)
  {
    buf[e] := '\0';
    z := FirstNul(buf, p, e);
    assert forall k | p <= k < z :: text[k] == buf[k];
    CutsAt(text, p, e, z);
    l := buf[p..z];
    assert l == text[p..z];
  }

  /** Lines 164 to 170: the section name at [i, z), behind its `[`. */
  method ParseSection(buf: array<char>, i: nat, ghost z: nat) returns (line: Line)
    requires CStringAt(buf, i, z)
    ensures line == ClassifySection(buf[i..z])
  {
    var cur := ScanTo(buf, i, ']', z);
    if cur - i >= NAME_SIZE || ']' != buf[cur] {
      return BadSection;
    }
    assert buf[i..z][..cur - i] == buf[i..cur];
    return SectionLine(buf[i..cur]);
  }

  /** Lines 199 to 213: the value at [i, z), behind its `=`. */
  method ParseValue(buf: array<char>, ghost name: string, i: nat, ghost z: nat) returns (value: string)
    requires CStringAt(buf, i, z) && 0 < i && buf[i - 1] == '=' && forall k | i <= k < z :: buf[k] != '\n'
    requires !ClassifyValue(name, buf[i..z]).BlankValue?
    ensures ClassifyValue(name, buf[i..z]) == ItemLine(Item(name, value))
  {
    var v := SkipSpaces(buf, i, z);
    assert v == z ==> buf[v..z] == "";
    assert v == z ==> v == i;
    var ve := ScanValue(buf, v, z);
    value := buf[v..ve];
  }

  lemma {:induction false} BlankSections(slots: seq<Slot>)
    requires forall i | 0 <= i < |slots| :: slots[i] == Slot("", 0, [])
    ensures SectionsOf(slots) == seq(|slots|, _ => NO_SECTION)
  {
    forall i | 0 <= i < |slots|
      ensures SectionsOf(slots)[i] == NO_SECTION
    {
      SectionAt(slots, i);
      assert slots[i].items[..0] == [];
    }
  }

  // ---------------------------------------------------------------- the whole story

  lemma ReadsOnly(text: string, c: Conf, r: Result)
    requires ReadText(text, c) == r
    ensures forall q :: Reads(text, c, q) ==> q == r
  {
    assert LookIntoText(0);
  }

  lemma DistinctItemsAreFound(secs: seq<Section>, sec: string, name: string)
    requires Distinct(secs)
    ensures forall i, j | 0 <= i < |secs| && 0 <= j < |secs[i].items| && SameName(secs[i].name, sec) &&
              SameName(secs[i].items[j].name, name) :: FindItem(secs, sec, name) == Some(secs[i].items[j])
  {
    forall i, j | 0 <= i < |secs| && 0 <= j < |secs[i].items| && SameName(secs[i].name, sec) &&
        SameName(secs[i].items[j].name, name)
      ensures FindItem(secs, sec, name) == Some(secs[i].items[j])
    {
      EveryItemIsFound(secs, i, j, sec, name);
    }
  }

  /** Construct, read and find, as test_smart_conf.c does.  Whatever the layout of the file, reading
      succeeds exactly if all rows are complete, with names that are not too long, and no two sections and
      no two items of a section have the same name in any letter case.  Then an item is found under its
      names in any letter case, and nothing else is. */
  method ReadAndFind(rows: seq<Row>, closed: bool, blockSize: nat, secSize: int, itemSize: int, sec: string,
      name: string)
        returns (status: Status, found: Option<Item>)
    requires 1 < blockSize && |Text(rows, closed)| <= blockSize
    requires (forall k | 0 <= k < |rows| :: RowOk(rows[k])) && Anchored(rows, false)
    requires |Spelled(rows, [])| <= if secSize <= 0 then DFT_SEC_SIZE else secSize
    ensures status == Ok <==> AllLegible(rows) && Distinct(Spelled(rows, []))
    ensures status == Ok ==>
              forall i, j :: 0 <= i < |Spelled(rows, [])| && 0 <= j < |Spelled(rows, [])[i].items| &&
                             SameName(Spelled(rows, [])[i].name, sec) &&
                                 SameName(Spelled(rows, [])[i].items[j].name, name) ==>
                               found == Some(Spelled(rows, [])[i].items[j])
    ensures found.Some? ==>
              exists i, j :: 0 <= i < |Spelled(rows, [])| && 0 <= j < |Spelled(rows, [])[i].items| &&
                             found.value == Spelled(rows, [])[i].items[j] &&
                             SameName(Spelled(rows, [])[i].name, sec) && SameName(found.value.name, name)
  {
    ghost var secs := Spelled(rows, []);
    var text := Text(rows, closed);
    var conf := new SmartConf(secSize, itemSize);
    ghost var c := conf.View(0);
    ReadOrRefused(rows, closed, c.size);
    ReadsOnly(text, c, ReadText(text, c));
    SeenAsItIs(text, blockSize);
    status := conf.IniRead(text, blockSize);
    found := None;
    if status == Ok {
      found := conf.FindItemAt(sec, name);
      assert found == FindItem(secs, sec, name);
      DistinctItemsAreFound(secs, sec, name);
      FoundItemIsThere(secs, sec, name);
    }
  }
}
