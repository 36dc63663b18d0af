/** The conversions told without their own arithmetic: what the written forms are, what the decoder ignores,
    and which error a conversion reports. */
module CharsetLaws {
  import opened Common
  import opened Charset
  import opened CharsetConversions

  // ---------------------------------------------------------------- the written forms

  function Two(a: int, b: int): int {
    (a - 0xC0) * 64 + (b - 0x80)
  }

  function Three(a: int, b: int, c: int): int {
    (a - 0xE0) * 4096 + (b - 0x80) * 64 + (c - 0x80)
  }

  /** A pair is big-endian. */
  lemma PairsByWeight(c: code)
    ensures var e := Encode(Pairs, c); |e| == 2 && e[0] as int * 256 + e[1] == c
  {
    PairDigits(c);
  }

  /** UTF-8 has one byte below 0x80, two bytes below 0x800 and three bytes from there on; a lead byte of 0xC0
      or 0xE0 carries the highest bits, and a following byte of 0x80 six bits. */
  lemma FormsByWeight(c: code)
    ensures c < 0x80 ==> Encode(Utf8, c) == [c]
    ensures 0x80 <= c < 0x800 ==>
              var e := Encode(Utf8, c);
              |e| == 2 && 0xC2 <= e[0] <= 0xDF && 0x80 <= e[1] <= 0xBF && Two(e[0], e[1]) == c
    ensures 0x800 <= c ==>
              var e := Encode(Utf8, c);
              && |e| == 3 && 0xE0 <= e[0] <= 0xEF && 0x80 <= e[1] <= 0xBF && 0x80 <= e[2] <= 0xBF
              && Three(e[0], e[1], e[2]) == c
  {
    if 0x80 <= c < 0x800 {
      TwoByteDigits(c);
      TwoWeights(c);
    } else if 0x800 <= c {
      ThreeByteDigits(c);
      ThreeWeights(c);
    }
  }

  lemma TwoWeights(c: code)
    ensures Two(0xC0 + c / 0x40, 0x80 + c % 0x40) == c
  {
  }

  lemma ThreeWeights(c: code)
    ensures Three(0xE0 + c / 0x1000, 0x80 + c / 0x40 % 0x40, 0x80 + c % 0x40) == c
  {
    assert c / 0x40 == c / 0x1000 * 0x40 + c / 0x40 % 0x40;
  }

  lemma SameBits(b: byte, b1: byte)
    requires Continues(b1) && (b1 - b) % 64 == 0
    ensures b % 64 == b1 - 0x80 && b1 % 64 == b1 - 0x80
  {
  }

  /** Of a lead byte the decoder uses five or four bits, and of the bytes behind it six, whatever the others
      are: it decodes as if these were those of a proper continuation.  Overlong forms are decoded too. */
  lemma DecoderByWeight(a: byte, b: byte, c: byte, b1: byte, c1: byte, rest: seq<byte>)
    requires Continues(b1) && (b1 - b) % 64 == 0 && Continues(c1) && (c1 - c) % 64 == 0
    ensures a < 0x80 ==> Decode(Utf8, [a] + rest) == Unit(a, 1)
    ensures 0xC0 <= a < 0xE0 ==> Decode(Utf8, [a, b] + rest).Unit? && Decode(Utf8, [a, b] + rest).len == 2
    ensures 0xC0 <= a < 0xE0 ==> Decode(Utf8, [a, b] + rest).value == Two(a, b1)
    ensures 0xE0 <= a < 0xF0 ==> Decode(Utf8, [a, b, c] + rest).Unit? && Decode(Utf8, [a, b, c] + rest).len == 3
    ensures 0xE0 <= a < 0xF0 ==> Decode(Utf8, [a, b, c] + rest).value == Three(a, b1, c1)
  {
    SameBits(b, b1);
    SameBits(c, c1);
    if 0xC0 <= a < 0xE0 {
      assert a % 32 == a - 0xC0;
    } else if 0xE0 <= a < 0xF0 {
      assert a % 16 == a - 0xE0;
    }
  }

  // ---------------------------------------------------------------- errors

  lemma DecodeIsLocal(f: Form, p: seq<byte>, r: seq<byte>)
    requires p != [] && Decode(f, p).Unit?
    ensures Decode(f, p + r) == Decode(f, p)
    ensures (p + r)[Decode(f, p).len..] == p[Decode(f, p).len..] + r
  {
  }

  // What converting gives, and a meaning that fits, seen through only where LookInside or LookAhead is
  // mentioned.

  ghost predicate ConvertsTo(k: Conversion, s: seq<byte>, num: nat, size: nat, o: Outcome) {
    forall x: int :: LookInside(x) ==> MappingOk(k.mapping) && Convert(k, s, num, size) == o
  }

  ghost predicate Fitting(k: Conversion, p: seq<byte>, num: nat, size: nat, m: seq<byte>) {
    forall x: int :: LookAhead(x) ==>
      MappingOk(k.mapping) && Meaning(k, p) == Some(m) && Fits(k.dst, m, num, size)
  }

  /** A unit in front of the rest, in the same words. */
  ghost predicate Begins(k: Conversion, s: seq<byte>, num: nat, size: nat, len: nat, e: seq<byte>) {
    && 1 <= len <= |s|
    && forall x: int :: LookInside(x) ==>
      && MappingOk(k.mapping) && Decode(k.src, s).Unit? && Decode(k.src, s).len == len
      && MapCode(k.mapping, Decode(k.src, s).value).Some?
      && e == Encode(k.dst, MapCode(k.mapping, Decode(k.src, s).value).value) && HasRoom(num, |e|, size)
  }

  lemma BeginsWhatever(k: Conversion, p: seq<byte>, r: seq<byte>, num: nat, size: nat, len: nat, e: seq<byte>)
    requires Begins(k, p, num, size, len, e)
    ensures Begins(k, p + r, num, size, len, e) && (p + r)[len..] == p[len..] + r
  {
    assert LookInside(0);
    DecodeIsLocal(k.src, p, r);
  }

  /** Input that has a meaning that fits begins with a unit that fits. */
  lemma UnitGoesFirst(k: Conversion, p: seq<byte>, num: nat, size: nat, m: seq<byte>)
    returns (len: nat, e: seq<byte>, rest: seq<byte>)
    requires Fitting(k, p, num, size, m) && p != []
    ensures Begins(k, p, num, size, len, e) && m == e + rest
    ensures Fitting(k, p[len..], num + |e|, size, rest)
  {
    assert LookAhead(0);
    var u := Decode(k.src, p);
    assert u.Unit?;
    MeaningStep(k, p);
    var d := MapCode(k.mapping, u.value).value;
    len, e, rest := u.len, Encode(k.dst, d), Meaning(k, p[u.len..]).value;
    FitsOneMore(k.dst, d, rest, num, size);
  }

  lemma UnitJoins(k: Conversion, s: seq<byte>, num: nat, size: nat, len: nat, e: seq<byte>, behind: seq<byte>,
      now: nat, rest: seq<byte>, o: Outcome, m: seq<byte>)
    requires Begins(k, s, num, size, len, e) && behind == s[len..] && now == num + |e|
    requires ConvertsTo(k, behind, now, size, Then(rest, o)) && m == e + rest
    ensures ConvertsTo(k, s, num, size, Then(m, o))
  {
    assert LookInside(0);
    ConvertStep(k, s, num, size, Decode(k.src, s).value, len, e, Then(rest, o));
    ThenTwice(e, rest, o);
  }

  lemma NothingGoesFirst(k: Conversion, r: seq<byte>, num: nat, size: nat, m: seq<byte>, o: Outcome)
    requires Fitting(k, [], num, size, m) && ConvertsTo(k, r, num + |m|, size, o)
    ensures ConvertsTo(k, [] + r, num, size, Then(m, o))
  {
    assert LookAhead(0) && LookInside(0);
    assert [] + r == r && m == [] && [] + o.out == o.out;
  }

  /** Behind input that has a meaning and fits, the rest decides. */
  lemma {:induction false} RestDecides(k: Conversion, p: seq<byte>, r: seq<byte>, num: nat, size: nat, m: seq<byte>,
      o: Outcome)
    requires Fitting(k, p, num, size, m) && ConvertsTo(k, r, num + |m|, size, o)
    ensures ConvertsTo(k, p + r, num, size, Then(m, o))
    decreases |p|
  {
    if p == [] {
      NothingGoesFirst(k, r, num, size, m, o);
    } else {
      var len, e, rest := UnitGoesFirst(k, p, num, size, m);
      var tail, now := p[len..], num + |e|;
      BeginsWhatever(k, p, r, num, size, len, e);
      RestDecides(k, tail, r, now, size, rest, o);
      UnitJoins(k, p + r, num, size, len, e, tail + r, now, rest, o, m);
    }
  }

  /** Nothing is written of input that fails at once. */
  lemma FailureBehind(k: Conversion, p: seq<byte>, r: seq<byte>, size: nat, m: seq<byte>, err: Error)
    requires Fitting(k, p, 0, size, m) && ConvertsTo(k, r, |m|, size, Outcome(err, []))
    ensures ConvertsTo(k, p + r, 0, size, Outcome(err, m))
  {
    RestDecides(k, p, r, 0, size, m, Outcome(err, []));
    assert m + [] == m;
  }

  /** The number that a conversion reports, and what it has written by then. */
  ghost predicate Reports(k: Conversion, s: seq<byte>, size: nat, number: int, out: seq<byte>) {
    exists err :: ErrorNumber(err) == number && ConvertsTo(k, s, 0, size, Outcome(err, out))
  }

  /** Behind input that is converted, a unit cut short is reported as 2, and a byte that begins no unit as 3. */
  lemma BadInputIsReported(k: Conversion, p: seq<byte>, r: seq<byte>, size: nat, m: seq<byte>)
    requires MappingOk(k.mapping) && Meaning(k, p) == Some(m) && Fits(k.dst, m, 0, size) && r != []
    ensures k.src == Pairs && |r| == 1 ==> Reports(k, p + r, size, 2, m)
    ensures k.src == Utf8 && 0xC0 <= r[0] < 0xF0 && |r| == 1 ==> Reports(k, p + r, size, 2, m)
    ensures k.src == Utf8 && 0xE0 <= r[0] < 0xF0 && |r| == 2 ==> Reports(k, p + r, size, 2, m)
    ensures k.src == Utf8 && (0x80 <= r[0] < 0xC0 || r[0] >= 0xF0) ==> Reports(k, p + r, size, 3, m)
  {
    if Decode(k.src, r).Short? {
      FailureBehind(k, p, r, size, m, E_IDAT);
    } else if Decode(k.src, r).Bad? {
      FailureBehind(k, p, r, size, m, E_CODE);
    }
  }

  /** A code that the tables do not have is reported as 3. */
  lemma UnmappedCodeIsReported(k: Conversion, p: seq<byte>, r: seq<byte>, size: nat, m: seq<byte>)
    requires MappingOk(k.mapping) && Meaning(k, p) == Some(m) && Fits(k.dst, m, 0, size) && r != []
    requires k.mapping.Table? && Decode(k.src, r).Unit? && k.mapping.entries[Decode(k.src, r).value] == 0xFFFF
    ensures Reports(k, p + r, size, 3, m)
  {
    FailureBehind(k, p, r, size, m, E_CODE);
  }

  /** A code without room is reported as 1: a single byte needs a free place, a longer unit one place more
      than its length. */
  lemma FullBufferIsReported(k: Conversion, p: seq<byte>, r: seq<byte>, size: nat, m: seq<byte>, e: seq<byte>)
    requires MappingOk(k.mapping) && Meaning(k, p) == Some(m) && Fits(k.dst, m, 0, size) && r != []
    requires Decode(k.src, r).Unit? && MapCode(k.mapping, Decode(k.src, r).value).Some?
    requires e == Encode(k.dst, MapCode(k.mapping, Decode(k.src, r).value).value)
    requires if |e| == 1 then |m| == size else |m| + |e| >= size
    ensures Reports(k, p + r, size, 1, m)
  {
    FailureBehind(k, p, r, size, m, E_OBUF);
  }
}
