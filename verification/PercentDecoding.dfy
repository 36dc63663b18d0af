/** Decoding of %XX escapes (str_esc_decode in charset_code.c) into UTF-8 or GBK bytes, against the
    percent-encoding of section 2.1 of RFC 3986. */
module PercentDecoding {
  import opened Common
  import opened Charset

  const PCT: byte := 0x25

  /** Error codes: charset_code.h for the GBK decoder, plain negative numbers for the UTF-8 one. */
  const OBUF := 1
  const IDAT := 2
  const CODE := 3
  const NASC := 4

  datatype Kind = ForUtf8 | ForGbk

  datatype Result = Done(out: seq<byte>) | Fail(error: int)

  function Cons(head: seq<byte>, r: Result): Result {
    match r
    case Done(out) => Done(head + out)
    case Fail(_) => r
  }

  // ---------------------------------------------------------------- hex digits

  predicate HexDigit(c: byte) {
    0x30 <= c <= 0x39 || 0x41 <= c <= 0x46 || 0x61 <= c <= 0x66
  }

  /** What hex_char_vmap holds after hex_char_vmap_init: the array initialiser sets entry 0 alone
      to -1, so any other character that is no digit counts as 0. */
  function HexVal(c: byte): (v: int)
    ensures -1 <= v < 16
  {
    if 0x30 <= c <= 0x39 then c as int - 0x30
    else if 0x61 <= c <= 0x66 then 10 + (c as int - 0x61)
    else if 0x41 <= c <= 0x46 then 10 + (c as int - 0x41)
    else if c == 0 then -1
    else 0
  }

  /** The byte that two characters after a `%` stand for, if the table knows them both. */
  function EscapeValue(s: seq<byte>): Option<byte>
    requires |s| >= 3
  {
    if HexVal(s[1]) == -1 || HexVal(s[2]) == -1 then None else Some(HexVal(s[1]) * 16 + HexVal(s[2]))
  }

  // ---------------------------------------------------------------- the UTF-8 decoder

  /** How many bytes follow a lead byte; -1 for a byte that cannot lead. */
  function Followers(b: byte): (n: int)
    ensures -1 <= n <= 5
  {
    if b < 0x80 then 0
    else if 0xC0 <= b < 0xE0 then 1
    else if 0xE0 <= b < 0xF0 then 2
    else if 0xF0 <= b < 0xF8 then 3
    else if 0xF8 <= b < 0xFC then 4
    else if 0xFC <= b < 0xFE then 5
    else -1
  }

  /** `n` escapes in a row. */
  function TakeEscapes(s: seq<byte>, n: nat): (r: Option<seq<byte>>)
    requires |s| >= 3 * n
    ensures r.Some? ==> |r.value| == n
    decreases n
  {
    if n == 0 then Some([])
    else if s[0] != PCT || EscapeValue(s) == None then None
    else After([EscapeValue(s).value], TakeEscapes(s[3..], n - 1))
  }

  function After(head: seq<byte>, rest: Option<seq<byte>>): Option<seq<byte>> {
    if rest.Some? then Some(head + rest.value) else None
  }

  lemma AfterTwice(a: seq<byte>, b: seq<byte>, rest: Option<seq<byte>>)
    ensures After(a, After(b, rest)) == After(a + b, rest)
  {
    if rest.Some? {
      assert a + (b + rest.value) == a + b + rest.value;
    }
  }

  lemma TakeOne(s: seq<byte>, p: nat, n: nat)
    requires n > 0 && p + 3 * n <= |s|
    ensures TakeEscapes(s[p..], n) ==
            if s[p] != PCT || EscapeValue(s[p..]) == None then None
            else After([EscapeValue(s[p..]).value], TakeEscapes(s[p + 3..], n - 1))
  {
    assert s[p..][3..] == s[p + 3..];
  }

  /** What a decoder does with the character at the head of the rest of its input. */
  datatype Step = Stop(result: Result) | More(unit: seq<byte>, len: nat)

  /** One round of utf8_str_to_uint with `num` of `size` output bytes taken.  A full buffer in
      front of a character is reported as success. */
  function StepUtf8(s: seq<byte>, num: nat, size: nat): (r: Step)
    requires s != []
    ensures r.More? ==> 1 <= r.len <= |s| && r.unit != [] && num + |r.unit| <= size
  {
    if s[0] >= 0x80 then Stop(Fail(-2))
    else if s[0] == PCT then
      if |s| < 3 then Stop(Fail(-1))
      else if EscapeValue(s) == None then Stop(Fail(-2))
      else
        var b, rest := EscapeValue(s).value, s[3..];
        var n := Followers(b);
        if n == -1 then Stop(Fail(-3))
        else if num >= size then Stop(Done([]))
        else if |rest| < 3 * n || n > size - num - 1 then Stop(Fail(-1))
        else
          var f := TakeEscapes(rest, n);
          if f == None then Stop(Fail(-2)) else More([b] + f.value, 3 + 3 * n)
    else if num >= size then Stop(Done([]))
    else More([s[0]], 1)
  }

  // ---------------------------------------------------------------- the GBK decoder

  /** GBK/1 to GBK/5 */
  predicate GbkPair(b0: byte, b1: byte) {
    || (0xB0 <= b0 <= 0xF7 && 0xA1 <= b1 <= 0xFE)
    || (0x81 <= b0 <= 0xA0 && 0x40 <= b1 <= 0xFE)
    || (0xAA <= b0 <= 0xFE && 0x40 <= b1 <= 0xA0)
    || (0xA1 <= b0 <= 0xA9 && 0xA1 <= b1 <= 0xFE)
    || (0xA8 <= b0 <= 0xA9 && 0x40 <= b1 <= 0xA0)
  }

  /** One round of gbk_str_to_uint. */
  function StepGbk(s: seq<byte>, num: nat, size: nat): (r: Step)
    requires s != []
    ensures r.More? ==> 1 <= r.len <= |s| && r.unit != [] && num + |r.unit| <= size
  {
    if s[0] >= 0x80 then Stop(Fail(NASC))
    else if s[0] == PCT then
      if |s| < 3 then Stop(Fail(IDAT))
      else if EscapeValue(s) == None then Stop(Fail(CODE))
      else
        var b0, rest := EscapeValue(s).value, s[3..];
        if b0 < 0x80 then
          if num >= size then Stop(Fail(OBUF)) else More([b0], 3)
        else if |rest| < 3 then Stop(Fail(IDAT))
        else if rest[0] != PCT || EscapeValue(rest) == None then Stop(Fail(CODE))
        else if !GbkPair(b0, EscapeValue(rest).value) then Stop(Fail(CODE))
        else if num + 2 >= size then Stop(Fail(OBUF))
        else More([b0, EscapeValue(rest).value], 6)
    else if num >= size then Stop(Fail(OBUF))
    else More([s[0]], 1)
  }

  function StepOf(kind: Kind, s: seq<byte>, num: nat, size: nat): (r: Step)
    requires s != []
    ensures r.More? ==> 1 <= r.len <= |s| && r.unit != [] && num + |r.unit| <= size
  {
    match kind
    case ForUtf8 => StepUtf8(s, num, size)
    case ForGbk => StepGbk(s, num, size)
  }

  /** A whole decoder: utf8_str_to_uint or gbk_str_to_uint. */
  function DecodeFrom(kind: Kind, s: seq<byte>, num: nat, size: nat): Result
    decreases |s|
  {
    if s == [] then Done([])
    else
      match StepOf(kind, s, num, size)
      case Stop(r) => r
      case More(unit, len) => Cons(unit, DecodeFrom(kind, s[len..], num + |unit|, size))
  }

  // These two say what StepOf and DecodeFrom are; they are seen through only where LookInside is
  // mentioned, so that proofs about whole inputs do not unfold the rounds.

  ghost predicate DecodesTo(kind: Kind, s: seq<byte>, num: nat, size: nat, r: Result) {
    forall x: int :: LookInside(x) ==> DecodeFrom(kind, s, num, size) == r
  }

  ghost predicate Steps(kind: Kind, s: seq<byte>, num: nat, size: nat, step: Step) {
    forall x: int :: LookInside(x) ==> s != [] && StepOf(kind, s, num, size) == step
  }

  lemma NothingLeft(kind: Kind, num: nat, size: nat)
    ensures DecodesTo(kind, [], num, size, Done([]))
  {
  }

  lemma OneMore(kind: Kind, s: seq<byte>, num: nat, size: nat, unit: seq<byte>, len: nat, now: nat, r: Result,
      whole: Result)
    requires Steps(kind, s, num, size, More(unit, len)) && now == num + |unit| && whole == Cons(unit, r)
    requires len <= |s| && DecodesTo(kind, s[len..], now, size, r)
    ensures DecodesTo(kind, s, num, size, whole)
  {
    assert LookInside(0);
  }

  lemma Stopped(kind: Kind, s: seq<byte>, num: nat, size: nat, r: Result)
    requires Steps(kind, s, num, size, Stop(r))
    ensures DecodesTo(kind, s, num, size, r)
  {
    assert LookInside(0);
  }

  // ---------------------------------------------------------------- what they accept

  /** The length of the unit that begins `b`, or 0 if none does: for UTF-8 an ASCII byte or a lead
      byte with its number of followers, for GBK an ASCII byte or a pair of GBK/1 to GBK/5. */
  function UnitLength(kind: Kind, b: seq<byte>): (n: nat)
    requires b != []
    ensures n <= |b|
  {
    match kind
    case ForUtf8 => if 0 <= Followers(b[0]) < |b| then 1 + Followers(b[0]) else 0
    case ForGbk => if b[0] < 0x80 then 1 else if |b| >= 2 && GbkPair(b[0], b[1]) then 2 else 0
  }

  predicate Units(kind: Kind, b: seq<byte>)
    decreases |b|
  {
    b == [] || (UnitLength(kind, b) > 0 && Units(kind, b[UnitLength(kind, b)..]))
  }

  lemma UnitThenRest(kind: Kind, unit: seq<byte>, rest: seq<byte>)
    requires unit != [] && UnitLength(kind, unit) == |unit| && Units(kind, rest)
    ensures Units(kind, unit + rest)
  {
    assert (unit + rest)[|unit|..] == rest;
  }

  lemma StepYieldsUnit(kind: Kind, s: seq<byte>, num: nat, size: nat, unit: seq<byte>, len: nat)
    requires Steps(kind, s, num, size, More(unit, len))
    ensures 1 <= len <= |s| && unit != [] && UnitLength(kind, unit) == |unit|
  {
    assert LookInside(0);
  }

  /** A decoder that accepts something has read a unit and accepted the rest. */
  lemma Accepting(kind: Kind, s: seq<byte>, num: nat, size: nat, out: seq<byte>)
    returns (unit: seq<byte>, len: nat, rest: Result)
    requires DecodesTo(kind, s, num, size, Done(out)) && out != []
    ensures 1 <= len <= |s| && Done(out) == Cons(unit, rest)
    ensures Steps(kind, s, num, size, More(unit, len)) && DecodesTo(kind, s[len..], num + |unit|, size, rest)
  {
    assert LookInside(0);
    var step := StepOf(kind, s, num, size);
    StopsEmpty(kind, s, num, size);
    unit, len := step.unit, step.len;
    rest := DecodeFrom(kind, s[len..], num + |unit|, size);
  }

  /** A round that ends the input early yields nothing. */
  lemma StopsEmpty(kind: Kind, s: seq<byte>, num: nat, size: nat)
    requires s != []
    ensures match StepOf(kind, s, num, size)
            case Stop(Done(out)) => out == []
            case _ => true
  {
  }

  /** Whatever the input, accepted output splits into units, even when it was cut off. */
  lemma {:induction false} OutputSplits(kind: Kind, s: seq<byte>, num: nat, size: nat, out: seq<byte>)
    requires DecodesTo(kind, s, num, size, Done(out))
    ensures Units(kind, out)
    decreases |s|
  {
    if out != [] {
      var unit, len, rest := Accepting(kind, s, num, size, out);
      StepYieldsUnit(kind, s, num, size, unit, len);
      OutputSplits(kind, s[len..], num + |unit|, size, rest.out);
      UnitThenRest(kind, unit, rest.out);
    }
  }

  // ---------------------------------------------------------------- encodings

  /** `s` begins with an escape of `b`, its digits in either case. */
  predicate Escapes(s: seq<byte>, b: byte) {
    |s| >= 3 && s[0] == PCT && HexDigit(s[1]) && HexDigit(s[2]) && HexVal(s[1]) * 16 + HexVal(s[2]) == b
  }

  /** How many bytes after `b` belong to its character and must be escaped with it. */
  function Due(kind: Kind, b: byte): nat {
    match kind
    case ForUtf8 => if Followers(b) > 0 then Followers(b) else 0
    case ForGbk => if b < 0x80 then 0 else 1
  }

  /** `s` is a percent-encoding of `bytes`: every byte is escaped, except that an ASCII byte other
      than `%` may stand for itself where no character is being continued. */
  predicate Encodes(kind: Kind, s: seq<byte>, bytes: seq<byte>, due: nat)
    decreases |bytes|
  {
    if bytes == [] then s == []
    else
      || (due == 0 && s != [] && s[0] == bytes[0] && bytes[0] < 0x80 && bytes[0] != PCT &&
          Encodes(kind, s[1..], bytes[1..], 0))
      || (Escapes(s, bytes[0]) && Encodes(kind, s[3..], bytes[1..], if due > 0 then due - 1 else Due(kind, bytes[0])))
  }

  /** Every byte string has encodings, here with every byte escaped in one letter case. */
  function EscapeAll(bytes: seq<byte>, upper: bool): seq<byte> {
    if bytes == [] then []
    else [PCT, HexChar(bytes[0] / 16, upper), HexChar(bytes[0] % 16, upper)] + EscapeAll(bytes[1..], upper)
  }

  function HexChar(v: int, upper: bool): (c: byte)
    requires 0 <= v < 16
    ensures HexDigit(c) && HexVal(c) == v
  {
    if v < 10 then 0x30 + v else if upper then 0x41 + (v - 10) else 0x61 + (v - 10)
  }

  lemma {:induction false} EscapeAllEncodes(kind: Kind, bytes: seq<byte>, upper: bool, due: nat)
    ensures Encodes(kind, EscapeAll(bytes, upper), bytes, due)
  {
    if bytes != [] {
      EscapeAllEncodes(kind, bytes[1..], upper, if due > 0 then due - 1 else Due(kind, bytes[0]));
      assert EscapeAll(bytes, upper)[3..] == EscapeAll(bytes[1..], upper);
    }
  }

  lemma EscapeIsRead(s: seq<byte>, b: byte)
    requires Escapes(s, b)
    ensures EscapeValue(s) == Some(b)
  {
  }

  /** The continuation of a character is a row of escapes. */
  lemma {:induction false} ContinuationIsRead(kind: Kind, s: seq<byte>, bytes: seq<byte>, n: nat)
    requires Encodes(kind, s, bytes, n) && n <= |bytes|
    ensures |s| >= 3 * n && TakeEscapes(s, n) == Some(bytes[..n])
    ensures Encodes(kind, s[3 * n..], bytes[n..], 0)
    decreases n
  {
    if n > 0 {
      EscapeIsRead(s, bytes[0]);
      ContinuationIsRead(kind, s[3..], bytes[1..], n - 1);
      assert [bytes[0]] + bytes[1..][..n - 1] == bytes[..n];
      assert s[3..][3 * (n - 1)..] == s[3 * n..];
      assert bytes[1..][n - 1..] == bytes[n..];
    } else {
      assert s[0..] == s && bytes[0..] == bytes;
    }
  }

  lemma UnitSplit(bytes: seq<byte>, n: nat)
    requires n < |bytes|
    ensures [bytes[0]] + bytes[1..][..n] == bytes[..1 + n]
    ensures bytes[1..][n..] == bytes[1 + n..]
  {
  }

  /** The room tests: a unit of `n` bytes fits behind `num`.  The GBK decoder wants a place to spare
      behind a pair. */
  predicate UnitFits(kind: Kind, n: nat, num: nat, size: nat) {
    if kind.ForUtf8? || n == 1 then num + n <= size else num + n < size
  }

  /** The length of the last unit of a unit string. */
  function LastUnit(kind: Kind, b: seq<byte>): nat
    decreases |b|
  {
    if b == [] then 0
    else
      var k := UnitLength(kind, b);
      if k == 0 || k == |b| then k else LastUnit(kind, b[k..])
  }

  /** The units of `b` fit behind `num` bytes of `size`, which they may fill unless a pair is last. */
  predicate Room(kind: Kind, b: seq<byte>, num: nat, size: nat) {
    || b == []
    || num + |b| < size
    || (num + |b| == size && (kind.ForUtf8? || LastUnit(kind, b) == 1))
  }

  lemma RoomSplits(kind: Kind, b: seq<byte>, k: nat, num: nat, size: nat)
    requires b != [] && k == UnitLength(kind, b) > 0
    ensures Room(kind, b, num, size) <==> UnitFits(kind, k, num, size) && Room(kind, b[k..], num + k, size)
  {
  }

  /** The unit at the head of an encoding is read in one step, and the rest encodes the rest. */
  lemma HeadIsRead(kind: Kind, s: seq<byte>, bytes: seq<byte>, num: nat, size: nat) returns (len: nat)
    requires bytes != [] && Encodes(kind, s, bytes, 0) && UnitLength(kind, bytes) > 0
    requires UnitFits(kind, UnitLength(kind, bytes), num, size)
    ensures Steps(kind, s, num, size, More(bytes[..UnitLength(kind, bytes)], len))
    ensures len <= |s| && Encodes(kind, s[len..], bytes[UnitLength(kind, bytes)..], 0)
  {
    var n := UnitLength(kind, bytes) - 1;
    UnitSplit(bytes, n);
    if s[0] == PCT {
      EscapeIsRead(s, bytes[0]);
      ContinuationIsRead(kind, s[3..], bytes[1..], n);
      assert s[3..][3 * n..] == s[3 + 3 * n..];
      len := 3 + 3 * n;
    } else {
      assert bytes[1..][..n] == [];
      len := 1;
    }
  }

  /** Encodes at the start of a character, seen through only where LookIntoText is mentioned. */
  ghost predicate EncodingOf(kind: Kind, s: seq<byte>, bytes: seq<byte>) {
    forall x: int :: LookIntoText(x) ==> Encodes(kind, s, bytes, 0)
  }

  lemma UnitIsRead(kind: Kind, s: seq<byte>, bytes: seq<byte>, num: nat, size: nat, k: nat) returns (len: nat)
    requires EncodingOf(kind, s, bytes) && bytes != [] && k == UnitLength(kind, bytes) > 0
    requires UnitFits(kind, k, num, size)
    ensures Steps(kind, s, num, size, More(bytes[..k], len))
    ensures len <= |s| && EncodingOf(kind, s[len..], bytes[k..])
  {
    assert LookIntoText(0);
    len := HeadIsRead(kind, s, bytes, num, size);
  }

  lemma NoBytesNoText(kind: Kind, s: seq<byte>)
    requires EncodingOf(kind, s, [])
    ensures s == []
  {
    assert LookIntoText(0);
  }

  /** Decoding undoes every encoding of every unit string, given room for it. */
  lemma {:induction false} UnitsAreRead(kind: Kind, s: seq<byte>, bytes: seq<byte>, num: nat, size: nat)
    requires EncodingOf(kind, s, bytes) && Units(kind, bytes) && Room(kind, bytes, num, size)
    ensures DecodesTo(kind, s, num, size, Done(bytes))
    decreases |bytes|
  {
    if bytes == [] {
      NoBytesNoText(kind, s);
      NothingLeft(kind, num, size);
    } else {
      var k := UnitLength(kind, bytes);
      RoomSplits(kind, bytes, k, num, size);
      var len := UnitIsRead(kind, s, bytes, num, size, k);
      UnitsAreRead(kind, s[len..], bytes[k..], num + k, size);
      assert bytes[..k] + bytes[k..] == bytes;
      OneMore(kind, s, num, size, bytes[..k], len, num + k, Done(bytes[k..]), Done(bytes));
    }
  }

  lemma UnitInFront(kind: Kind, unit: seq<byte>, rest: seq<byte>)
    requires unit != [] && UnitLength(kind, unit) == |unit|
    ensures UnitLength(kind, unit + rest) == |unit| && (unit + rest)[|unit|..] == rest
  {
  }

  lemma StepFits(kind: Kind, s: seq<byte>, num: nat, size: nat, unit: seq<byte>, len: nat)
    requires Steps(kind, s, num, size, More(unit, len))
    ensures UnitFits(kind, |unit|, num, size)
  {
    assert LookInside(0);
  }

  /** Accepted output fits. */
  lemma {:induction false} OutputFits(kind: Kind, s: seq<byte>, num: nat, size: nat, out: seq<byte>)
    requires DecodesTo(kind, s, num, size, Done(out))
    ensures Room(kind, out, num, size)
    decreases |s|
  {
    if out != [] {
      var unit, len, rest := Accepting(kind, s, num, size, out);
      StepYieldsUnit(kind, s, num, size, unit, len);
      StepFits(kind, s, num, size, unit, len);
      OutputFits(kind, s[len..], num + |unit|, size, rest.out);
      UnitInFront(kind, unit, rest.out);
      RoomSplits(kind, out, |unit|, num, size);
    }
  }

  /** So percent-decoding undoes percent-encoding exactly on the unit strings that fit. */
  lemma DecodingUndoesEncoding(kind: Kind, s: seq<byte>, bytes: seq<byte>, size: nat)
    requires Encodes(kind, s, bytes, 0)
    ensures DecodeFrom(kind, s, 0, size) == Done(bytes) <==> Units(kind, bytes) && Room(kind, bytes, 0, size)
  {
    if DecodeFrom(kind, s, 0, size) == Done(bytes) {
      OutputSplits(kind, s, 0, size, bytes);
      OutputFits(kind, s, 0, size, bytes);
    }
    if Units(kind, bytes) && Room(kind, bytes, 0, size) {
      UnitsAreRead(kind, s, bytes, 0, size);
      assert LookInside(0);
    }
  }

  /** Nothing that is not made of units ever comes out. */
  lemma AcceptedOutputIsUnits(kind: Kind, s: seq<byte>, size: nat)
    ensures DecodeFrom(kind, s, 0, size).Done? ==> Units(kind, DecodeFrom(kind, s, 0, size).out)
  {
    var r := DecodeFrom(kind, s, 0, size);
    if r.Done? {
      OutputSplits(kind, s, 0, size, r.out);
    }
  }

  // ---------------------------------------------------------------- full buffers

  /** The decoder gets through the whole input. */
  predicate ReadsAll(kind: Kind, s: seq<byte>, num: nat, size: nat)
    decreases |s|
  {
    s == [] ||
    match StepOf(kind, s, num, size)
    case Stop(_) => false
    case More(unit, len) => ReadsAll(kind, s[len..], num + |unit|, size)
  }

  /** A success that leaves input unread is one of the UTF-8 decoder with a full buffer. */
  lemma {:induction false} UnreadMeansFull(kind: Kind, s: seq<byte>, num: nat, size: nat)
    requires num <= size
    ensures ReadsAll(kind, s, num, size) ==> DecodeFrom(kind, s, num, size).Done?
    ensures match DecodeFrom(kind, s, num, size)
            case Done(out) => num + |out| <= size &&
                (ReadsAll(kind, s, num, size) || (kind == ForUtf8 && num + |out| == size))
            case Fail(_) => true
    decreases |s|
  {
    if s != [] && StepOf(kind, s, num, size).More? {
      var step := StepOf(kind, s, num, size);
      UnreadMeansFull(kind, s[step.len..], num + |step.unit|, size);
    }
  }

  /** How many bytes a text stands for: one for each `%` and the two characters behind it, and one for
      every other character. */
  function Stands(s: seq<byte>): nat {
    if s == [] then 0
    else if s[0] == PCT && |s| >= 3 then 1 + Stands(s[3..])
    else 1 + Stands(s[1..])
  }

  lemma {:induction false} EscapesStand(s: seq<byte>, n: nat)
    requires 3 * n <= |s| && TakeEscapes(s, n).Some?
    ensures Stands(s) == n + Stands(s[3 * n..])
    decreases n
  {
    if n > 0 {
      EscapesStand(s[3..], n - 1);
      assert s[3..][3 * (n - 1)..] == s[3 * n..];
    } else {
      assert s[0..] == s;
    }
  }

  /** A round reads characters that stand for what it writes. */
  lemma StepStands(kind: Kind, s: seq<byte>, num: nat, size: nat, unit: seq<byte>, len: nat)
    requires Steps(kind, s, num, size, More(unit, len)) && len <= |s|
    ensures Stands(s) == |unit| + Stands(s[len..])
  {
    assert LookInside(0);
    if s[0] == PCT {
      var rest := s[3..];
      if kind.ForUtf8? {
        var n := Followers(EscapeValue(s).value);
        EscapesStand(rest, n);
        assert rest[3 * n..] == s[len..];
      } else if len == 6 {
        assert rest[3..] == s[6..];
      }
    }
  }

  /** The step at the head of the rest, and its result if it stops: a success then means a full buffer. */
  lemma StepThere(kind: Kind, s: seq<byte>, num: nat, size: nat) returns (step: Step)
    requires s != []
    ensures Steps(kind, s, num, size, step)
    ensures step.More? ==> step.len <= |s| && num + |step.unit| <= size
    ensures step.Stop? && step.result.Done? ==> step.result.out == [] && num >= size
  {
    step := StepOf(kind, s, num, size);
  }

  lemma DecodesIs(kind: Kind, s: seq<byte>, num: nat, size: nat, r: Result, q: Result)
    requires DecodesTo(kind, s, num, size, r) && DecodesTo(kind, s, num, size, q)
    ensures r == q
  {
    assert LookInside(0);
  }

  lemma ReadsOneMore(kind: Kind, s: seq<byte>, num: nat, size: nat, step: Step, rest: seq<byte>, now: nat)
    requires Steps(kind, s, num, size, step)
    requires step.More? ==> step.len <= |s| && rest == s[step.len..] && now == num + |step.unit|
    ensures ReadsAll(kind, s, num, size) <==> step.More? && ReadsAll(kind, rest, now, size)
  {
    assert LookInside(0);
  }

  /** A step, and what it makes of the result of the rest. */
  lemma StepOn(kind: Kind, s: seq<byte>, num: nat, size: nat, step: Step, rest: seq<byte>, now: nat, q: Result)
    returns (tail: Result)
    requires Steps(kind, s, num, size, step) && step.More? && DecodesTo(kind, s, num, size, q)
    requires step.len <= |s| && rest == s[step.len..] && now == num + |step.unit|
    ensures DecodesTo(kind, rest, now, size, tail) && q == Cons(step.unit, tail)
  {
    tail := DecodeFrom(kind, rest, now, size);
    OneMore(kind, s, num, size, step.unit, step.len, now, tail, Cons(step.unit, tail));
    DecodesIs(kind, s, num, size, q, Cons(step.unit, tail));
  }

  lemma StopIs(kind: Kind, s: seq<byte>, num: nat, size: nat, step: Step, r: Result)
    requires Steps(kind, s, num, size, step) && step.Stop? && DecodesTo(kind, s, num, size, r)
    ensures r == step.result && !ReadsAll(kind, s, num, size)
  {
    Stopped(kind, s, num, size, step.result);
    DecodesIs(kind, s, num, size, r, step.result);
    ReadsOneMore(kind, s, num, size, step, [], 0);
  }

  /** A success has read everything exactly if the buffer has room for what the text stands for; then
      the output has that length, and otherwise it fills the buffer. */
  lemma {:induction false} ReadsAllIfRoom(kind: Kind, s: seq<byte>, num: nat, size: nat, out: seq<byte>)
    requires num <= size && DecodesTo(kind, s, num, size, Done(out))
    ensures ReadsAll(kind, s, num, size) <==> num + Stands(s) <= size
    ensures |out| == if num + Stands(s) <= size then Stands(s) else size - num
    decreases |s|
  {
    if s == [] {
      NothingLeft(kind, num, size);
      DecodesIs(kind, s, num, size, Done(out), Done([]));
    } else {
      var step := StepThere(kind, s, num, size);
      if step.Stop? {
        StopIs(kind, s, num, size, step, Done(out));
      } else {
        var rest, now := s[step.len..], num + |step.unit|;
        StepYieldsUnit(kind, s, num, size, step.unit, step.len);
        StepStands(kind, s, num, size, step.unit, step.len);
        ReadsOneMore(kind, s, num, size, step, rest, now);
        var tail := StepOn(kind, s, num, size, step, rest, now, Done(out));
        ReadsAllIfRoom(kind, rest, now, size, tail.out);
      }
    }
  }

  /** Concretely: of two letters only the first is read into a buffer of one byte. */
  lemma SecondLetterIsUnread()
    ensures DecodeFrom(ForUtf8, [0x61, 0x62], 0, 1) == Done([0x61]) && !ReadsAll(ForUtf8, [0x61, 0x62], 0, 1)
    ensures Stands([0x61, 0x62]) == 2
  {
    var s, rest: seq<byte> := [0x61, 0x62], [0x62];
    assert s[1..] == rest && rest[1..] == [];
    assert StepOf(ForUtf8, s, 0, 1) == More([0x61], 1);
    assert StepOf(ForUtf8, rest, 1, 1) == Stop(Done([]));
  }

  /** A decoder that reads everything writes its terminator at the place behind the output: inside the
      `size` bytes it was given exactly if the text stands for fewer. */
  lemma TerminatorInside(kind: Kind, s: seq<byte>, size: nat, out: seq<byte>)
    requires DecodesTo(kind, s, 0, size, Done(out)) && ReadsAll(kind, s, 0, size)
    ensures |out| < size <==> Stands(s) < size
    ensures |out| <= size && |out| == Stands(s)
  {
    ReadsAllIfRoom(kind, s, 0, size, out);
  }

  /** Concretely: one letter in a buffer of one byte, for either decoder. */
  lemma LetterFillsBuffer(kind: Kind)
    ensures DecodeFrom(kind, [0x61], 0, 1) == Done([0x61]) && ReadsAll(kind, [0x61], 0, 1) && Stands([0x61]) == 1
  {
    var s: seq<byte> := [0x61];
    assert s[1..] == [];
    assert StepOf(kind, s, 0, 1) == More([0x61], 1);
  }

  // ---------------------------------------------------------------- progress of a loop

  /** After `pb` characters, `done` is written and what is left decides the result. */
  ghost predicate Decoding(kind: Kind, s: seq<byte>, pb: nat, done: seq<byte>, size: nat)
    requires pb <= |s|
  {
    forall r: Result :: DecodesTo(kind, s[pb..], |done|, size, r) ==> DecodesTo(kind, s, 0, size, Cons(done, r))
  }

  lemma ConsNothing(r: Result)
    ensures Cons([], r) == r
  {
    if r.Done? {
      assert [] + r.out == r.out;
    }
  }

  lemma ConsTwice(a: seq<byte>, b: seq<byte>, r: Result)
    ensures Cons(a, Cons(b, r)) == Cons(a + b, r)
  {
    if r.Done? {
      assert a + (b + r.out) == a + b + r.out;
    }
  }

  lemma Begins(kind: Kind, s: seq<byte>, size: nat)
    ensures Decoding(kind, s, 0, [], size)
  {
    assert s[0..] == s;
    forall r: Result ensures Cons([], r) == r { ConsNothing(r); }
  }

  lemma GoesOn(kind: Kind, s: seq<byte>, pb: nat, done: seq<byte>, size: nat, step: Step, at: nat, more: seq<byte>)
    requires pb <= at <= |s| && Decoding(kind, s, pb, done, size)
    requires Steps(kind, s[pb..], |done|, size, step) && step.More? && at == pb + step.len && more == done + step.unit
    ensures Decoding(kind, s, at, more, size)
  {
    assert s[pb..][step.len..] == s[at..];
    forall r: Result | DecodesTo(kind, s[at..], |more|, size, r)
      ensures DecodesTo(kind, s, 0, size, Cons(more, r))
    {
      OneMore(kind, s[pb..], |done|, size, step.unit, step.len, |more|, r, Cons(step.unit, r));
      ConsTwice(done, step.unit, r);
    }
  }

  lemma Stops(kind: Kind, s: seq<byte>, pb: nat, done: seq<byte>, size: nat, r: Result)
    requires pb <= |s| && Decoding(kind, s, pb, done, size)
    requires Steps(kind, s[pb..], |done|, size, Stop(r))
    ensures DecodesTo(kind, s, 0, size, Cons(done, r))
  {
    Stopped(kind, s[pb..], |done|, size, r);
  }

  lemma Ends(kind: Kind, s: seq<byte>, done: seq<byte>, size: nat)
    requires Decoding(kind, s, |s|, done, size)
    ensures DecodesTo(kind, s, 0, size, Done(done))
  {
    assert s[|s|..] == [] && done + [] == done;
    NothingLeft(kind, |done|, size);
  }

  /** Whether the whole input is read depends on what is left at `pb`; seen through only where LookAhead
      is mentioned. */
  ghost predicate Reading(kind: Kind, s: seq<byte>, pb: nat, num: nat, size: nat) {
    pb <= |s| && forall x: int :: LookAhead(x) ==> (ReadsAll(kind, s, 0, size) <==> ReadsAll(kind, s[pb..], num, size))
  }

  lemma ReadingBegins(kind: Kind, s: seq<byte>, size: nat)
    ensures Reading(kind, s, 0, 0, size)
  {
    assert s[0..] == s;
  }

  lemma ReadingGoesOn(kind: Kind, s: seq<byte>, pb: nat, num: nat, size: nat, step: Step, at: nat, now: nat)
    requires Reading(kind, s, pb, num, size) && Steps(kind, s[pb..], num, size, step) && step.More?
    requires at == pb + step.len <= |s| && now == num + |step.unit|
    ensures Reading(kind, s, at, now, size)
  {
    assert LookAhead(0);
    assert s[pb..][step.len..] == s[at..];
    ReadsOneMore(kind, s[pb..], num, size, step, s[at..], now);
  }

  lemma ReadingStops(kind: Kind, s: seq<byte>, pb: nat, num: nat, size: nat, r: Result)
    requires Reading(kind, s, pb, num, size) && Steps(kind, s[pb..], num, size, Stop(r))
    ensures !ReadsAll(kind, s, 0, size)
  {
    assert LookAhead(0) && LookInside(0);
  }

  /** A loop that stops early has its result, and has not read everything. */
  lemma StopsShort(kind: Kind, s: seq<byte>, pb: nat, done: seq<byte>, num: nat, size: nat, r: Result, whole: Result)
    requires pb <= |s| && num == |done| && Decoding(kind, s, pb, done, size) && Reading(kind, s, pb, num, size)
    requires Steps(kind, s[pb..], num, size, Stop(r))
    requires whole == if r == Done([]) then Done(done) else r
    ensures DecodesTo(kind, s, 0, size, whole) && !ReadsAll(kind, s, 0, size)
  {
    ReadingStops(kind, s, pb, num, size, r);
    Stops(kind, s, pb, done, size, r);
    assert done + [] == done;
    assert LookInside(0);
    StopsEmpty(kind, s[pb..], num, size);
  }

  lemma ReadingEnds(kind: Kind, s: seq<byte>, num: nat, size: nat)
    requires Reading(kind, s, |s|, num, size)
    ensures ReadsAll(kind, s, 0, size)
  {
    assert LookAhead(0) && s[|s|..] == [];
  }

  /** The buffer has the `size` bytes it is said to have, and one more for the terminator if the whole
      text is read and stands for exactly that many. */
  ghost predicate Holdable(kind: Kind, s: seq<byte>, size: nat, length: nat) {
    size <= length && (ReadsAll(kind, s, 0, size) && Stands(s) == size ==> size < length)
  }

  // ---------------------------------------------------------------- the decoder object

  /** The two characters after every `%` are inside the 128-entry table. */
  predicate InTable(s: seq<byte>) {
    forall i | 0 <= i < |s| && s[i] == PCT :: (i + 1 < |s| ==> s[i + 1] < 0x80) && (i + 2 < |s| ==> s[i + 2] < 0x80)
  }

  class Decoder {
    const vmap: array<int>

    ghost predicate Valid()
      reads this, vmap
    {
      vmap.Length == 0x80 && forall c: byte | c < 0x80 :: vmap[c] == HexVal(c)
    }

    /** The initialiser of hex_char_vmap, then hex_char_vmap_init. */
    constructor ()
      ensures Valid() && fresh(vmap)
    {
      var m := new int[0x80](i => if i == 0 then -1 else 0);
      for i := 0 to 10
        invariant forall c | 0 <= c < 0x80 ::
                    m[c] == if 0x30 <= c < 0x30 + i then c - 0x30 else if c == 0 then -1 else 0
      {
        m[0x30 + i] := i;
      }
      for i := 0 to 6
        invariant forall c | 0 <= c < 0x80 ::
                    m[c] == if 0x30 <= c < 0x3A || 0x61 <= c < 0x61 + i then HexVal(c) else if c == 0 then -1 else 0
      {
        m[0x61 + i] := 10 + i;
      }
      for i := 0 to 6
        invariant forall c | 0 <= c < 0x80 ::
                    m[c] == if 0x30 <= c < 0x3A || 0x61 <= c < 0x67 || 0x41 <= c < 0x41 + i then HexVal(c)
                        else if c == 0 then -1 else 0
      {
        m[0x41 + i] := 10 + i;
      }
      vmap := m;
    }

    /** The block that turns the two characters after a `%` at `pb` into a byte, or -1. */
    method HexByte(s: seq<byte>, pb: nat) returns (v: int)
      requires Valid() && InTable(s) && pb + 2 < |s| && s[pb] == PCT
      ensures v == match EscapeValue(s[pb..]) case None => -1 case Some(b) => b
    {
      if vmap[s[pb + 1]] == -1 || vmap[s[pb + 2]] == -1 {
        return -1;
      }
      return vmap[s[pb + 1]] * 16 + vmap[s[pb + 2]];
    }

    /** d_arr[num++] = byte */
    static method PutByte(d: array<byte>, at: nat, v: byte, ghost soFar: seq<byte>)
      requires Holds(d, soFar) && at == |soFar| < d.Length
      modifies d
      ensures Holds(d, soFar + [v]) && forall j | at < j < d.Length :: d[j] == old(d[j])
    {
      d[at] := v;
    }

    /** The inner loop of utf8_str_to_uint: the escapes of the followers, stored one by one. */
    method CopyFollowers(s: seq<byte>, pb: nat, n: nat, d: array<byte>, num: nat, ghost done: seq<byte>)
      returns (ok: bool)
      requires Valid() && InTable(s) && pb + 3 * n <= |s|
      requires Holds(d, done) && num == |done| && num + n <= d.Length && d as object != vmap
      modifies d
      ensures ok <==> TakeEscapes(s[pb..], n).Some?
      ensures ok ==> Holds(d, done + TakeEscapes(s[pb..], n).value)
      ensures Holds(d, done) && forall j | num + n <= j < d.Length :: d[j] == old(d[j])
    {
      var p, left := pb, n;
      ghost var taken: seq<byte> := [];
      ghost var all := TakeEscapes(s[pb..], n);
      assert all.Some? ==> [] + all.value == all.value;
      while left > 0
        invariant 0 <= left <= n && p == pb + 3 * (n - left) && |taken| == n - left
        invariant Valid() && Holds(d, done + taken)
        invariant all == After(taken, TakeEscapes(s[p..], left))
        invariant forall j | num + n <= j < d.Length :: d[j] == old(d[j])
      {
        TakeOne(s, p, left);
        if s[p] != PCT {
          return false;
        }
        var v := HexByte(s, p);
        if v == -1 {
          return false;
        }
        AfterTwice(taken, [v], TakeEscapes(s[p + 3..], left - 1));
        PutByte(d, num + (n - left), v, done + taken);
        assert done + taken + [v] == done + (taken + [v]);
        taken := taken + [v];
        p, left := p + 3, left - 1;
      }
      assert taken + [] == taken;
      return true;
    }

    /** Lines 97 to 123: the escaped byte `b` and its followers, which begin at `at`. */
    method LeadUtf8(s: seq<byte>, at: nat, b: byte, d: array<byte>, num: nat, size: nat, ghost done: seq<byte>)
      returns (stop: bool, ret: int, next: nat, nowNum: nat)
      requires Valid() && InTable(s) && at <= |s| && d as object != vmap
      requires Holds(d, done) && num == |done| <= size <= d.Length
      modifies d
      ensures var n := Followers(b);
              if n == -1 then stop && ret == -3
              else if num >= size then stop && ret == 0
              else if |s[at..]| < 3 * n || n > size - num - 1 then stop && ret == -1
              else if TakeEscapes(s[at..], n) == None then stop && ret == -2
              else !stop && next == at + 3 * n && nowNum == num + 1 + n &&
                   Holds(d, done + ([b] + TakeEscapes(s[at..], n).value))
      ensures Holds(d, done) && forall j | size <= j < d.Length :: d[j] == old(d[j])
    {
      stop, ret, next, nowNum := true, 0, at, num;
      var byteNum := Followers(b);
      if byteNum == -1 {
        ret := -3;
        return;
      }
      if num >= size {
        return;
      }
      d[num] := b;
      nowNum := num + 1;
      if at + 3 * byteNum > |s| || byteNum > size - nowNum {
        ret := -1;
        return;
      }
      var ok := CopyFollowers(s, at, byteNum, d, nowNum, done + [b]);
      if !ok {
        ret := -2;
        return;
      }
      stop, next, nowNum := false, at + 3 * byteNum, nowNum + byteNum;
      assert done + [b] + TakeEscapes(s[at..], byteNum).value == done + ([b] + TakeEscapes(s[at..], byteNum).value);
    }

    /** One round of utf8_str_to_uint: `step` is the round as the specification sees it. */
    method RoundUtf8(s: seq<byte>, pb: nat, d: array<byte>, num: nat, size: nat, ghost done: seq<byte>)
      returns (stop: bool, ret: int, next: nat, nowNum: nat, ghost step: Step)
      requires Valid() && InTable(s) && pb < |s| && d as object != vmap
      requires Holds(d, done) && num == |done| <= size <= d.Length
      modifies d
      ensures Steps(ForUtf8, s[pb..], num, size, step)
      ensures stop <==> step.Stop?
      ensures stop ==> step.result == (if ret == 0 then Done([]) else Fail(ret)) && (ret == 0 ==> num == size)
      ensures !stop ==> next == pb + step.len && nowNum == num + |step.unit| && nowNum <= size
      ensures !stop ==> Holds(d, done + step.unit)
      ensures Holds(d, done) && forall j | size <= j < d.Length :: d[j] == old(d[j])
    {
      ghost var rest := s[pb..];
      step := StepUtf8(rest, num, size);
      stop, ret, next, nowNum := true, 0, pb, num;
      if s[pb] >= 0x80 {
        ret := -2;
      } else if s[pb] == PCT {
        if pb + 2 >= |s| {
          ret := -1;
          return;
        }
        var b := HexByte(s, pb);
        if b == -1 {
          ret := -2;
          return;
        }
        assert rest[3..] == s[pb + 3..];
        stop, ret, next, nowNum := LeadUtf8(s, pb + 3, b, d, num, size, done);
      } else {
        if num >= size {
          return;
        }
        d[num] := s[pb];
        stop, next, nowNum := false, pb + 1, num + 1;
      }
    }

    /** utf8_str_to_uint.  The length is left at `size` unless the whole input was read; a buffer
        that fills up early is a success of exactly `size` bytes, without a terminator. */
    method Utf8StrToUint(s: seq<byte>, d: array<byte>, size: nat) returns (ret: int, len: nat)
      requires Valid() && InTable(s) && Holdable(ForUtf8, s, size, d.Length) && d as object != vmap
      modifies d
      ensures len <= size
      ensures ret == 0 ==> DecodesTo(ForUtf8, s, 0, size, Done(d[..len]))
      ensures ret == 0 ==> len == (if Stands(s) <= size then Stands(s) else size)
      ensures ret == 0 ==> (ReadsAll(ForUtf8, s, 0, size) <==> Stands(s) <= size)
      ensures ret != 0 ==> DecodesTo(ForUtf8, s, 0, size, Fail(ret)) && len == size
      ensures if ReadsAll(ForUtf8, s, 0, size) then ret == 0 && len < d.Length && d[len] == 0 else len == size
    {
      ghost var done := [];
      var num, pb := 0, 0;
      Begins(ForUtf8, s, size);
      ReadingBegins(ForUtf8, s, size);
      while pb < |s|
        invariant 0 <= pb <= |s| && num == |done| <= size
        invariant Valid() && Holds(d, done) && Decoding(ForUtf8, s, pb, done, size)
        invariant Reading(ForUtf8, s, pb, num, size)
      {
        ghost var step;
        var stop, next, nowNum;
        stop, ret, next, nowNum, step := RoundUtf8(s, pb, d, num, size, done);
        if stop {
          StopsShort(ForUtf8, s, pb, done, num, size, step.result, if ret == 0 then Done(done) else Fail(ret));
          assert ret == 0 ==> d[..size] == done;
          if ret == 0 {
            ReadsAllIfRoom(ForUtf8, s, 0, size, done);
          }
          return ret, size;
        }
        StepYieldsUnit(ForUtf8, s[pb..], num, size, step.unit, step.len);
        ghost var more := done + step.unit;
        GoesOn(ForUtf8, s, pb, done, size, step, next, more);
        ReadingGoesOn(ForUtf8, s, pb, num, size, step, next, nowNum);
        done := more;
        pb, num := next, nowNum;
      }
      Ends(ForUtf8, s, done, size);
      ReadingEnds(ForUtf8, s, num, size);
      TerminatorInside(ForUtf8, s, size, done);
      d[num] := 0;
      assert d[..num] == done;
      return 0, num;
    }

    /** One round of gbk_str_to_uint. */
    method RoundGbk(s: seq<byte>, pb: nat, d: array<byte>, num: nat, size: nat, ghost done: seq<byte>)
      returns (stop: bool, ret: int, next: nat, nowNum: nat, ghost step: Step)
      requires Valid() && InTable(s) && pb < |s| && d as object != vmap
      requires Holds(d, done) && num == |done| <= size <= d.Length
      modifies d
      ensures Steps(ForGbk, s[pb..], num, size, step)
      ensures stop <==> step.Stop?
      ensures stop ==> step.result == Fail(ret) && ret != 0
      ensures !stop ==> next == pb + step.len && nowNum == num + |step.unit| && nowNum <= size
      ensures !stop ==> Holds(d, done + step.unit)
      ensures Holds(d, done) && forall j | size <= j < d.Length :: d[j] == old(d[j])
    {
      ghost var rest := s[pb..];
      step := StepGbk(rest, num, size);
      stop, ret, next, nowNum := true, 0, pb, num;
      if s[pb] >= 0x80 {
        ret := NASC;
      } else if s[pb] == PCT {
        if pb + 2 >= |s| {
          ret := IDAT;
          return;
        }
        var byte0 := HexByte(s, pb);
        if byte0 == -1 {
          ret := CODE;
          return;
        }
        next := pb + 3;
        assert rest[3..] == s[next..];
        if byte0 >= 0x80 {
          if next + 3 > |s| {
            ret := IDAT;
            return;
          }
          if s[next] != PCT {
            ret := CODE;
            return;
          }
          var byte1 := HexByte(s, next);
          if byte1 == -1 || !GbkPair(byte0, byte1) {
            ret := CODE;
            return;
          }
          if num + 2 >= size {
            ret := OBUF;
            return;
          }
          d[num] := byte0;
          d[num + 1] := byte1;
          stop, next, nowNum := false, next + 3, num + 2;
        } else {
          if num >= size {
            ret := OBUF;
            return;
          }
          d[num] := byte0;
          stop, nowNum := false, num + 1;
        }
      } else {
        if num >= size {
          ret := OBUF;
          return;
        }
        d[num] := s[pb];
        stop, next, nowNum := false, pb + 1, num + 1;
      }
    }

    /** gbk_str_to_uint */
    method GbkStrToUint(s: seq<byte>, d: array<byte>, size: nat) returns (ret: int, len: nat)
      requires Valid() && InTable(s) && Holdable(ForGbk, s, size, d.Length) && d as object != vmap
      modifies d
      ensures len <= size
      ensures ret == 0 ==> DecodesTo(ForGbk, s, 0, size, Done(d[..len])) && len < d.Length && d[len] == 0
      ensures ret == 0 ==> len == Stands(s) <= size
      ensures ret != 0 ==> DecodesTo(ForGbk, s, 0, size, Fail(ret)) && len == size
      ensures ret == 0 <==> ReadsAll(ForGbk, s, 0, size)
    {
      ghost var done := [];
      var num, pb := 0, 0;
      Begins(ForGbk, s, size);
      ReadingBegins(ForGbk, s, size);
      while pb < |s|
        invariant 0 <= pb <= |s| && num == |done| <= size
        invariant Valid() && Holds(d, done) && Decoding(ForGbk, s, pb, done, size)
        invariant Reading(ForGbk, s, pb, num, size)
      {
        ghost var step;
        var stop, next, nowNum;
        stop, ret, next, nowNum, step := RoundGbk(s, pb, d, num, size, done);
        if stop {
          StopsShort(ForGbk, s, pb, done, num, size, step.result, Fail(ret));
          return ret, size;
        }
        StepYieldsUnit(ForGbk, s[pb..], num, size, step.unit, step.len);
        ghost var more := done + step.unit;
        GoesOn(ForGbk, s, pb, done, size, step, next, more);
        ReadingGoesOn(ForGbk, s, pb, num, size, step, next, nowNum);
        done := more;
        pb, num := next, nowNum;
      }
      Ends(ForGbk, s, done, size);
      ReadingEnds(ForGbk, s, num, size);
      TerminatorInside(ForGbk, s, size, done);
      d[num] := 0;
      assert d[..num] == done;
      return 0, num;
    }
  }
}
