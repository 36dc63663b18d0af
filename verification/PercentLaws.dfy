/** What percent-decoding does to real UTF-8 and real GBK, told without the decoder's own tables, and which
    of its error codes it gives. */
module PercentLaws {
  import opened Common
  import opened Charset
  import opened PercentDecoding

  // ---------------------------------------------------------------- the tables

  const LOWER_DIGITS := "0123456789abcdef"
  const UPPER_DIGITS := "0123456789ABCDEF"

  /** The look-up table knows the digits in either letter case. */
  lemma DigitsAreKnown(v: nat)
    requires v < 16
    ensures HexVal(LOWER_DIGITS[v] as int) == v && HexVal(UPPER_DIGITS[v] as int) == v
    ensures HexDigit(LOWER_DIGITS[v] as int) && HexDigit(UPPER_DIGITS[v] as int)
  {
    if v < 8 {
      if v < 4 {} else {}
    } else {
      if v < 12 {} else {}
    }
  }

  /** A character is a digit only if it is one of those. */
  lemma DigitsAreThose(c: byte)
    requires HexDigit(c)
    ensures c == LOWER_DIGITS[HexVal(c)] as int || c == UPPER_DIGITS[HexVal(c)] as int
  {
    if HexVal(c) < 8 {
      if HexVal(c) < 4 {} else {}
    } else {
      if HexVal(c) < 12 {} else {}
    }
  }

  /** An escape that is not one of two hex digits should be refused.  It is refused exactly if it has a NUL;
      any other character counts as the digit 0. */
  lemma BadEscapeIsRefused(s: seq<byte>)
    requires |s| >= 3 && (!HexDigit(s[1]) || !HexDigit(s[2]))
    ensures EscapeValue(s) == None <==> s[1] == 0 || s[2] == 0
    ensures EscapeValue(s).Some? && !HexDigit(s[1]) ==> EscapeValue(s).value < 16
    ensures EscapeValue(s).Some? && !HexDigit(s[2]) ==> EscapeValue(s).value % 16 == 0
  {
  }

  /** Concretely: %zz is decoded to a NUL, by either decoder. */
  lemma LettersAreNul(kind: Kind)
    ensures DecodeFrom(kind, [0x25, 0x7A, 0x7A], 0, 1) == Done([0])
  {
    var s: seq<byte> := [0x25, 0x7A, 0x7A];
    assert s[3..] == [];
    assert StepOf(kind, s, 0, 1) == More([0], 3);
  }

  /** How many one bits a byte begins with, from the bit of weight `p` on. */
  function LeadingOnes(b: byte, p: nat): nat
    requires p < 0x100
  {
    if p > 0 && b / p % 2 == 1 then 1 + LeadingOnes(b, p / 2) else 0
  }

  lemma OnesFrom(b: byte, p: nat)
    requires 0 < p < 0x100
    ensures LeadingOnes(b, p) == if b / p % 2 == 1 then 1 + LeadingOnes(b, p / 2) else 0
  {
  }

  /** A lead byte with one, or with more than six, leading one bits is no lead byte; any other asks for one
      byte less than it has leading ones. */
  lemma FollowersByBits(b: byte)
    ensures
      var n := LeadingOnes(b, 128);
      Followers(b) == if n == 0 then 0 else if n == 1 || n >= 7 then -1 else n - 1
  {
    OnesFrom(b, 128);
    OnesFrom(b, 64);
    OnesFrom(b, 32);
    OnesFrom(b, 16);
    OnesFrom(b, 8);
    OnesFrom(b, 4);
    OnesFrom(b, 2);
    OnesFrom(b, 1);
  }

  /** The pairs of GBK: all that its two byte ranges allow, less the three areas for user-defined
      characters. */
  lemma PairsOfGbk(b0: byte, b1: byte)
    ensures GbkPair(b0, b1) <==>
            && 0x81 <= b0 <= 0xFE && 0x40 <= b1 <= 0xFE
            && !(0xAA <= b0 <= 0xAF && b1 >= 0xA1)
            && !(0xF8 <= b0 <= 0xFE && b1 >= 0xA1)
            && !(0xA1 <= b0 <= 0xA7 && b1 <= 0xA0)
  {
  }

  // ---------------------------------------------------------------- UTF-8

  /** A percent-encoding in the plain sense: every byte is escaped, except that an ASCII byte other than `%`
      may stand for itself. */
  predicate Spells(s: seq<byte>, bytes: seq<byte>)
    decreases |bytes|
  {
    if bytes == [] then s == []
    else
      || (s != [] && s[0] == bytes[0] && bytes[0] < 0x80 && bytes[0] != PCT && Spells(s[1..], bytes[1..]))
      || (Escapes(s, bytes[0]) && Spells(s[3..], bytes[1..]))
  }

  lemma Utf8Lengths(c: code)
    ensures var e := Encode(Utf8, c);
            Followers(e[0]) == |e| - 1 && forall i | 1 <= i < |e| :: e[i] >= 0x80
  {
    if 0x80 <= c < 0x800 {
      TwoByteDigits(c);
    } else if 0x800 <= c {
      ThreeByteDigits(c);
    }
  }

  /** Inside a character the bytes are not ASCII, so a plain encoding escapes them. */
  lemma {:induction false} SpellingContinues(s: seq<byte>, bytes: seq<byte>, n: nat)
    requires n <= |bytes| && Spells(s, bytes) && forall i | 0 <= i < n :: bytes[i] >= 0x80
    requires forall t :: Spells(t, bytes[n..]) ==> Encodes(ForUtf8, t, bytes[n..], 0)
    ensures Encodes(ForUtf8, s, bytes, n)
    decreases n
  {
    if n == 0 {
      assert bytes[0..] == bytes;
    } else {
      assert bytes[1..][n - 1..] == bytes[n..];
      SpellingContinues(s[3..], bytes[1..], n - 1);
    }
  }

  lemma {:induction false} SpellingEncodes(s: seq<byte>, cs: seq<code>)
    requires Spells(s, EncodeAll(Utf8, cs))
    ensures Encodes(ForUtf8, s, EncodeAll(Utf8, cs), 0)
    decreases |cs|
  {
    if cs != [] {
      var bytes, e, rest := EncodeAll(Utf8, cs), Encode(Utf8, cs[0]), EncodeAll(Utf8, cs[1..]);
      Utf8Lengths(cs[0]);
      assert bytes[0] == e[0];
      assert bytes[1..][|e| - 1..] == rest;
      forall t | Spells(t, rest)
        ensures Encodes(ForUtf8, t, rest, 0)
      {
        SpellingEncodes(t, cs[1..]);
      }
      assert forall i | 0 <= i < |e| - 1 :: bytes[1..][i] == e[i + 1];
      if Escapes(s, bytes[0]) && Spells(s[3..], bytes[1..]) {
        SpellingContinues(s[3..], bytes[1..], |e| - 1);
      } else {
        assert |e| == 1;
        SpellingContinues(s[1..], bytes[1..], 0);
      }
    }
  }

  lemma {:induction false} CodesAreUnits(cs: seq<code>)
    ensures Units(ForUtf8, EncodeAll(Utf8, cs))
  {
    if cs != [] {
      var bytes, e := EncodeAll(Utf8, cs), Encode(Utf8, cs[0]);
      Utf8Lengths(cs[0]);
      CodesAreUnits(cs[1..]);
      assert bytes[0] == e[0] && bytes[|e|..] == EncodeAll(Utf8, cs[1..]);
    }
  }

  /** The main result: every percent-encoding of the UTF-8 of any codes is decoded to that UTF-8, in any
      buffer that is large enough. */
  lemma Utf8IsDecoded(s: seq<byte>, cs: seq<code>, size: nat)
    requires Spells(s, EncodeAll(Utf8, cs)) && |EncodeAll(Utf8, cs)| <= size
    ensures DecodeFrom(ForUtf8, s, 0, size) == Done(EncodeAll(Utf8, cs))
  {
    SpellingEncodes(s, cs);
    CodesAreUnits(cs);
    DecodingUndoesEncoding(ForUtf8, s, EncodeAll(Utf8, cs), size);
  }

  /** Concretely: one character of three bytes, and one of GBK. */
  lemma CharactersAreDecoded()
    ensures DecodeFrom(ForUtf8, [0x25, 0x65, 0x35, 0x25, 0x61, 0x33, 0x25, 0x61, 0x31], 0, 3) ==
            Done([0xE5, 0xA3, 0xA1])
    ensures DecodeFrom(ForGbk, [0x25, 0x62, 0x30, 0x25, 0x61, 0x31], 0, 3) == Done([0xB0, 0xA1])
  {
    var s: seq<byte> := [0x25, 0x65, 0x35, 0x25, 0x61, 0x33, 0x25, 0x61, 0x31];
    var t: seq<byte> := [0x25, 0x62, 0x30, 0x25, 0x61, 0x31];
    var c: code := 0x58E1;
    assert Encode(Utf8, c) == [0xE5, 0xA3, 0xA1];
    assert [c][1..] == [] && EncodeAll(Utf8, [c]) == [0xE5, 0xA3, 0xA1];
    assert s[3..] == [0x25, 0x61, 0x33, 0x25, 0x61, 0x31];
    assert s[3..][3..] == [0x25, 0x61, 0x31] && s[3..][3..][3..] == [];
    var bytes: seq<byte> := [0xE5, 0xA3, 0xA1];
    assert bytes[1..] == [0xA3, 0xA1] && bytes[1..][1..] == [0xA1] && bytes[1..][1..][1..] == [];
    assert Spells(s[3..][3..], [0xA1]);
    assert Spells(s[3..], [0xA3, 0xA1]);
    Utf8IsDecoded(s, [c], 3);
    assert t[3..] == [0x25, 0x61, 0x31] && t[6..] == [];
    assert StepOf(ForGbk, t, 0, 3) == More([0xB0, 0xA1], 6);
  }

  // ---------------------------------------------------------------- errors

  /** A round does not look behind the characters it reads. */
  lemma StepIsLocal(kind: Kind, s: seq<byte>, r: seq<byte>, num: nat, size: nat, unit: seq<byte>, len: nat)
    requires Steps(kind, s, num, size, More(unit, len))
    ensures Steps(kind, s + r, num, size, More(unit, len)) && 1 <= len <= |s| && (s + r)[len..] == s[len..] + r
  {
    assert LookInside(0);
    if s[0] == PCT {
      assert (s + r)[3..] == s[3..] + r;
      if kind.ForUtf8? {
        var n := Followers(EscapeValue(s).value);
        EscapesAreLocal(s[3..], r, n);
      }
    }
  }

  lemma {:induction false} EscapesAreLocal(s: seq<byte>, r: seq<byte>, n: nat)
    requires 3 * n <= |s|
    ensures TakeEscapes(s + r, n) == TakeEscapes(s, n)
    decreases n
  {
    if n > 0 {
      assert (s + r)[3..] == s[3..] + r;
      EscapesAreLocal(s[3..], r, n - 1);
    }
  }

  /** The text encodes units that fit; seen through only where LookAhead is mentioned. */
  ghost predicate Fitting(kind: Kind, s: seq<byte>, bytes: seq<byte>, num: nat, size: nat) {
    forall x: int :: LookAhead(x) ==> EncodingOf(kind, s, bytes) && Units(kind, bytes) && Room(kind, bytes, num, size)
  }

  lemma UnitGoesFirst(kind: Kind, s: seq<byte>, bytes: seq<byte>, num: nat, size: nat)
    returns (unit: seq<byte>, tail: seq<byte>, len: nat)
    requires Fitting(kind, s, bytes, num, size) && bytes != []
    ensures Steps(kind, s, num, size, More(unit, len)) && bytes == unit + tail && unit != [] && len <= |s|
    ensures Fitting(kind, s[len..], tail, num + |unit|, size)
  {
    assert LookAhead(0);
    var k := UnitLength(kind, bytes);
    RoomSplits(kind, bytes, k, num, size);
    len := UnitIsRead(kind, s, bytes, num, size, k);
    unit, tail := bytes[..k], bytes[k..];
  }

  lemma NothingGoesFirst(kind: Kind, s: seq<byte>, r: seq<byte>, num: nat, size: nat, q: Result)
    requires Fitting(kind, s, [], num, size) && DecodesTo(kind, r, num, size, q)
    ensures DecodesTo(kind, s + r, num, size, Cons([], q))
  {
    assert LookAhead(0);
    NoBytesNoText(kind, s);
    assert s + r == r;
    ConsNothing(q);
  }

  /** Behind the encoding of units that fit, the rest of the text decides. */
  lemma {:induction false} RestDecides(kind: Kind, s: seq<byte>, bytes: seq<byte>, r: seq<byte>, num: nat, size: nat,
      q: Result)
    requires Fitting(kind, s, bytes, num, size) && DecodesTo(kind, r, num + |bytes|, size, q)
    ensures DecodesTo(kind, s + r, num, size, Cons(bytes, q))
    decreases |bytes|
  {
    if bytes == [] {
      NothingGoesFirst(kind, s, r, num, size, q);
    } else {
      var unit, tail, len := UnitGoesFirst(kind, s, bytes, num, size);
      var rest, now := s[len..], num + |unit|;
      StepIsLocal(kind, s, r, num, size, unit, len);
      RestDecides(kind, rest, tail, r, now, size, q);
      UnitJoins(kind, s + r, num, size, unit, len, now, rest + r, tail, q, bytes);
    }
  }

  lemma UnitJoins(kind: Kind, s: seq<byte>, num: nat, size: nat, unit: seq<byte>, len: nat, now: nat, rest: seq<byte>,
      tail: seq<byte>, q: Result, bytes: seq<byte>)
    requires Steps(kind, s, num, size, More(unit, len)) && now == num + |unit| && len <= |s| && rest == s[len..]
    requires DecodesTo(kind, rest, now, size, Cons(tail, q)) && bytes == unit + tail
    ensures DecodesTo(kind, s, num, size, Cons(bytes, q))
  {
    ConsTwice(unit, tail, q);
    OneMore(kind, s, num, size, unit, len, now, Cons(tail, q), Cons(bytes, q));
  }

  /** How the UTF-8 decoder ends at a text that it cannot go on with: -2 for a character that is not ASCII
      or an escape of a NUL, -3 for an escape that cannot lead, -1 for an escape cut short; a full buffer is
      a success. */
  lemma Utf8Errors(s: seq<byte>, bytes: seq<byte>, r: seq<byte>, size: nat)
    requires EncodingOf(ForUtf8, s, bytes) && Units(ForUtf8, bytes) && |bytes| <= size && r != []
    ensures
      var q := DecodeFrom(ForUtf8, s + r, 0, size);
      && (r[0] >= 0x80 ==> q == Fail(-2))
      && (r[0] == 0x25 && |r| < 3 ==> q == Fail(-1))
      && (r[0] == 0x25 && |r| >= 3 && (r[1] == 0 || r[2] == 0) ==> q == Fail(-2))
      && (Leads(r) && (0x80 <= Led(r) < 0xC0 || Led(r) >= 0xFE) ==> q == Fail(-3))
      && (r[0] < 0x80 && r[0] != 0x25 && |bytes| == size ==> q == Done(bytes))
      && (Leads(r) && Led(r) < 0x80 && |bytes| == size ==> q == Done(bytes))
      && (Leads(r) && 0xC0 <= Led(r) < 0xFE && |bytes| == size ==> q == Done(bytes))
      && (Leads(r) && 0xC0 <= Led(r) < 0xFE && |bytes| < size && |r| < 6 ==> q == Fail(-1))
      && (Leads(r) && 0xC0 <= Led(r) < 0xFE && |bytes| + 1 == size ==> q == Fail(-1))
      && (Leads(r) && 0xC0 <= Led(r) < 0xE0 && |bytes| + 1 < size && BadFollower(r) ==> q == Fail(-2))
  {
    var q := DecodeFrom(ForUtf8, r, |bytes|, size);
    RestDecides(ForUtf8, s, bytes, r, 0, size, q);
    assert LookInside(0);
    assert bytes + [] == bytes;
    if Leads(r) && 0xC0 <= Led(r) < 0xE0 && |r| >= 6 {
      var rest := r[3..];
      assert rest[0] == r[3] && rest[1] == r[4] && rest[2] == r[5];
    }
  }

  /** The text begins with an escape whose digits are in the table. */
  predicate Leads(r: seq<byte>) {
    |r| >= 3 && r[0] == 0x25 && r[1] != 0 && r[2] != 0
  }

  /** Behind an escape come three characters that are no escape. */
  predicate BadFollower(r: seq<byte>) {
    |r| >= 6 && (r[3] != 0x25 || r[4] == 0 || r[5] == 0)
  }

  function Led(r: seq<byte>): byte
    requires Leads(r)
  {
    HexVal(r[1]) * 16 + HexVal(r[2])
  }

  /** How the GBK decoder ends: with its own codes for a full buffer (1), a text cut short (2), a pair that is
      none (3) and a character that is not ASCII (4). */
  lemma GbkErrors(s: seq<byte>, bytes: seq<byte>, r: seq<byte>, size: nat)
    requires EncodingOf(ForGbk, s, bytes) && Units(ForGbk, bytes) && Room(ForGbk, bytes, 0, size) && r != []
    ensures
      var q := DecodeFrom(ForGbk, s + r, 0, size);
      && (r[0] >= 0x80 ==> q == Fail(4))
      && (r[0] == 0x25 && |r| < 3 ==> q == Fail(2))
      && (r[0] == 0x25 && |r| >= 3 && (r[1] == 0 || r[2] == 0) ==> q == Fail(3))
      && (r[0] < 0x80 && r[0] != 0x25 && |bytes| == size ==> q == Fail(1))
      && (Leads(r) && Led(r) < 0x80 && |bytes| == size ==> q == Fail(1))
      && (Leads(r) && Led(r) >= 0x80 && |r| < 6 ==> q == Fail(2))
      && (Leads(r) && Led(r) >= 0x80 && BadFollower(r) ==> q == Fail(3))
      && (Leads(r) && Led(r) >= 0x80 && Leads(r[3..]) && !GbkPair(Led(r), Led(r[3..])) ==> q == Fail(3))
      && (Leads(r) && Led(r) >= 0x80 && Leads(r[3..]) && GbkPair(Led(r), Led(r[3..])) && |bytes| + 2 >= size
          ==> q == Fail(1))
  {
    var q := DecodeFrom(ForGbk, r, |bytes|, size);
    RestDecides(ForGbk, s, bytes, r, 0, size, q);
    assert LookInside(0);
    if |r| >= 6 {
      var rest := r[3..];
      assert rest[0] == r[3] && rest[1] == r[4] && rest[2] == r[5];
    }
  }
}
