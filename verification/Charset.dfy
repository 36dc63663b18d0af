/** Conversions between GBK, UCS-2 (both big-endian byte pairs) and UTF-8 (charset_code.c).

    A conversion decodes units of the input to codes, maps the codes, and encodes them.  `Convert`
    is the code's own order of events, with its error codes and room tests; `DecodeAll`, `MapAll`
    and `EncodeAll` are the whole-buffer meaning that the laws are about.  Bit fields are written
    arithmetically: c >> 6 is c / 64, c & 0x3F is c % 64, and the or of disjoint fields is a sum. */
module Charset {
  import opened Common

  type code = c: int | 0 <= c < 0x1_0000

  /** The value of an unused map entry. */
  const NONE: code := 0xFFFF
  const MAP_SIZE := 0x1_0000

  datatype Error = E_OK | E_OBUF | E_IDAT | E_CODE | E_NASC

  // ---------------------------------------------------------------- units

  datatype Form = Pairs | Utf8

  datatype Decoded = Unit(value: code, len: nat) | Short | Bad

  function Code1(a: int, b: int): code
    requires 0 <= a < 0x100 && 0 <= b < 0x100
  {
    a * 0x100 + b
  }

  function Code2(a: int, b: int): code
    requires 0 <= a < 0x100 && 0 <= b < 0x100
  {
    a % 0x20 * 0x40 + b % 0x40
  }

  function Code3(a: int, b: int, c: int): code
    requires 0 <= a < 0x100 && 0 <= b < 0x100 && 0 <= c < 0x100
  {
    a % 0x10 * 0x1000 + b % 0x40 * 0x40 + c % 0x40
  }

  lemma PairDigits(c: code)
    ensures Code1(c / 0x100, c % 0x100) == c
  {
  }

  lemma PairDigitsUnique(a: byte, b: byte)
    ensures Code1(a, b) / 0x100 == a && Code1(a, b) % 0x100 == b
  {
  }

  lemma TwoByteDigits(c: code)
    requires 0x80 <= c < 0x800
    ensures 0xC2 <= 0xC0 + c / 0x40 < 0xE0 && 0x80 <= 0x80 + c % 0x40 < 0xC0
    ensures Code2(0xC0 + c / 0x40, 0x80 + c % 0x40) == c
  {
    var a := c / 0x40;
    assert (0xC0 + a) % 0x20 == a;
    assert (0x80 + c % 0x40) % 0x40 == c % 0x40;
  }

  lemma ThreeByteDigits(c: code)
    requires 0x800 <= c
    ensures 0xE0 <= 0xE0 + c / 0x1000 < 0xF0 && 0x80 <= 0x80 + c / 0x40 % 0x40 < 0xC0 && 0x80 <= 0x80 + c % 0x40 < 0xC0
    ensures c < 0x1000 ==> 0x80 + c / 0x40 % 0x40 >= 0xA0
    ensures Code3(0xE0 + c / 0x1000, 0x80 + c / 0x40 % 0x40, 0x80 + c % 0x40) == c
  {
    var a, b := c / 0x1000, c / 0x40 % 0x40;
    assert (0xE0 + a) % 0x10 == a;
    assert (0x80 + b) % 0x40 == b;
    assert (0x80 + c % 0x40) % 0x40 == c % 0x40;
    assert c / 0x40 == a * 0x40 + b;
  }

  lemma TwoByteDigitsUnique(a: byte, b: byte)
    requires 0xC2 <= a < 0xE0 && Continues(b)
    ensures 0x80 <= Code2(a, b) < 0x800
    ensures 0xC0 + Code2(a, b) / 0x40 == a && 0x80 + Code2(a, b) % 0x40 == b
  {
    assert a % 0x20 == a - 0xC0 && b % 0x40 == b - 0x80;
  }

  lemma ThreeByteDigitsUnique(a: byte, b: byte, c: byte)
    requires 0xE0 <= a < 0xF0 && Continues(b) && Continues(c) && (a == 0xE0 ==> b >= 0xA0)
    ensures var x := Code3(a, b, c);
            0x800 <= x && 0xE0 + x / 0x1000 == a && 0x80 + x / 0x40 % 0x40 == b && 0x80 + x % 0x40 == c
  {
    var i, j, k := a - 0xE0, b - 0x80, c - 0x80;
    assert a % 0x10 == i && b % 0x40 == j && c % 0x40 == k;
    var x := i * 0x1000 + j * 0x40 + k;
    assert x / 0x40 == i * 0x40 + j;
    assert x / 0x1000 == i;
    assert (i * 0x40 + j) % 0x40 == j;
  }

  /** An overlong lead byte gives a code below 0x80. */
  lemma OverlongTwo(a: byte, b: byte)
    requires 0xC0 <= a < 0xC2
    ensures Code2(a, b) < 0x80
  {
    assert a % 0x20 == a - 0xC0;
  }

  lemma OverlongThree(b: byte, c: byte)
    requires Continues(b) && b < 0xA0
    ensures Code3(0xE0, b, c) < 0x800
  {
    assert 0xE0 % 0x10 == 0 && b % 0x40 == b - 0x80;
  }

  function Decode(f: Form, s: seq<byte>): (d: Decoded)
    requires s != []
    ensures d.Unit? ==> 1 <= d.len <= |s|
  {
    match f
    case Pairs => if |s| < 2 then Short else Unit(Code1(s[0], s[1]), 2)
    case Utf8 =>
      if s[0] < 0x80 then Unit(s[0], 1)
      else if 0xC0 <= s[0] < 0xE0 then
        if |s| < 2 then Short else Unit(Code2(s[0], s[1]), 2)
      else if 0xE0 <= s[0] < 0xF0 then
        if |s| < 3 then Short else Unit(Code3(s[0], s[1], s[2]), 3)
      else Bad
  }

  /** The 1, 2 and 3 byte forms of section 3 of RFC 3629; surrogates are encoded like any code. */
  function Encode(f: Form, c: code): (e: seq<byte>)
    ensures 1 <= |e| <= 3
  {
    match f
    case Pairs => [c / 0x100, c % 0x100]
    case Utf8 =>
      if c < 0x80 then [c]
      else if c < 0x800 then [0xC0 + c / 0x40, 0x80 + c % 0x40]
      else [0xE0 + c / 0x1000, 0x80 + c / 0x40 % 0x40, 0x80 + c % 0x40]
  }

  /** Decoding undoes encoding, whatever follows. */
  lemma DecodeOfEncode(f: Form, c: code, rest: seq<byte>)
    ensures Decode(f, Encode(f, c) + rest) == Unit(c, |Encode(f, c)|)
  {
    PairDigits(c);
    if 0x80 <= c < 0x800 {
      TwoByteDigits(c);
    } else if 0x800 <= c {
      ThreeByteDigits(c);
    }
  }

  datatype Mapping = Identity | Table(entries: seq<code>)

  predicate MappingOk(m: Mapping) {
    m.Table? ==> |m.entries| == MAP_SIZE
  }

  function MapCode(m: Mapping, c: code): Option<code>
    requires MappingOk(m)
  {
    match m
    case Identity => Some(c)
    case Table(t) => if t[c] == NONE then None else Some(t[c])
  }

  // ---------------------------------------------------------------- whole buffers

  function DecodeAll(f: Form, s: seq<byte>): Option<seq<code>>
    decreases |s|
  {
    if s == [] then Some([])
    else
      match Decode(f, s)
      case Unit(c, len) =>
        var rest := DecodeAll(f, s[len..]);
        if rest.Some? then Some([c] + rest.value) else None
      case _ => None
  }

  function EncodeAll(f: Form, cs: seq<code>): seq<byte> {
    if cs == [] then [] else Encode(f, cs[0]) + EncodeAll(f, cs[1..])
  }

  function MapAll(m: Mapping, cs: seq<code>): Option<seq<code>>
    requires MappingOk(m)
  {
    if cs == [] then Some([])
    else
      var head, rest := MapCode(m, cs[0]), MapAll(m, cs[1..]);
      if head.Some? && rest.Some? then Some([head.value] + rest.value) else None
  }

  lemma {:induction false} DecodeAllOfEncodeAll(f: Form, cs: seq<code>)
    ensures DecodeAll(f, EncodeAll(f, cs)) == Some(cs)
  {
    if cs != [] {
      var rest := EncodeAll(f, cs[1..]);
      DecodeOfEncode(f, cs[0], rest);
      DecodeAllOfEncodeAll(f, cs[1..]);
      assert EncodeAll(f, cs)[|Encode(f, cs[0])|..] == rest;
      assert [cs[0]] + cs[1..] == cs;
    }
  }

  lemma {:induction false} MapAllIdentity(cs: seq<code>)
    ensures MapAll(Identity, cs) == Some(cs)
  {
    if cs != [] {
      MapAllIdentity(cs[1..]);
      assert [cs[0]] + cs[1..] == cs;
    }
  }

  // ---------------------------------------------------------------- a conversion

  datatype Conversion = Conversion(src: Form, mapping: Mapping, dst: Form)

  datatype Outcome = Outcome(err: Error, out: seq<byte>)

  /** The room tests of the code: one byte needs a free place, longer units need one to spare. */
  predicate HasRoom(num: nat, len: nat, size: nat) {
    if len == 1 then num < size else num + len < size
  }

  /** The outcome of converting `s` when `num` of `size` output bytes are taken; `out` is what is
      written, also before an error. */
  function Convert(k: Conversion, s: seq<byte>, num: nat, size: nat): Outcome
    requires MappingOk(k.mapping)
    decreases |s|
  {
    if s == [] then Outcome(E_OK, [])
    else
      match Decode(k.src, s)
      case Short => Outcome(E_IDAT, [])
      case Bad => Outcome(E_CODE, [])
      case Unit(c, len) =>
        match MapCode(k.mapping, c)
        case None => Outcome(E_CODE, [])
        case Some(d) =>
          var e := Encode(k.dst, d);
          if !HasRoom(num, |e|, size) then Outcome(E_OBUF, [])
          else Then(e, Convert(k, s[len..], num + |e|, size))
  }

  function Then(done: seq<byte>, o: Outcome): Outcome {
    o.(out := done + o.out)
  }

  /** The meaning of a conversion, without any limit on the output. */
  function Meaning(k: Conversion, s: seq<byte>): Option<seq<byte>>
    requires MappingOk(k.mapping)
  {
    var cs := DecodeAll(k.src, s);
    if cs.None? then None
    else
      var ds := MapAll(k.mapping, cs.value);
      if ds.None? then None else Some(EncodeAll(k.dst, ds.value))
  }

  /** `out` fits behind `num` bytes of `size`: it leaves a place free, or fills the buffer with a last
      unit of one byte, or is nothing at all. */
  predicate Fits(dst: Form, out: seq<byte>, num: nat, size: nat) {
    || out == []
    || num + |out| < size
    || (num + |out| == size && dst == Utf8 && out[|out| - 1] < 0x80)
  }

  lemma UnitEnds(dst: Form, c: code)
    ensures var e := Encode(dst, c); e[|e| - 1] < 0x80 && dst == Utf8 <==> |e| == 1
  {
  }

  lemma FitsOneMore(dst: Form, c: code, rest: seq<byte>, num: nat, size: nat)
    ensures var e := Encode(dst, c);
            Fits(dst, e + rest, num, size) <==> HasRoom(num, |e|, size) && Fits(dst, rest, num + |e|, size)
  {
    UnitEnds(dst, c);
  }

  /** A conversion succeeds if and only if its input has a meaning and the meaning fits; then it yields
      that meaning. */
  lemma {:induction false} ConvertMeans(k: Conversion, s: seq<byte>, num: nat, size: nat)
    requires MappingOk(k.mapping)
    ensures
      var o, m := Convert(k, s, num, size), Meaning(k, s);
      && (o.err == E_OK <==> m.Some? && Fits(k.dst, m.value, num, size))
      && (o.err == E_OK ==> o == Outcome(E_OK, m.value))
    decreases |s|
  {
    if s != [] && Decode(k.src, s).Unit? {
      var u := Decode(k.src, s);
      MeaningStep(k, s);
      var d, rest := MapCode(k.mapping, u.value), s[u.len..];
      if d.Some? {
        ConvertMeans(k, rest, num + |Encode(k.dst, d.value)|, size);
        if Meaning(k, rest).Some? {
          FitsOneMore(k.dst, d.value, Meaning(k, rest).value, num, size);
        }
      }
    }
  }

  /** The meaning of a buffer, from its first unit and the meaning of the rest. */
  lemma MeaningStep(k: Conversion, s: seq<byte>)
    requires MappingOk(k.mapping) && s != [] && Decode(k.src, s).Unit?
    ensures
      var u := Decode(k.src, s);
      var d, rest := MapCode(k.mapping, u.value), Meaning(k, s[u.len..]);
      Meaning(k, s) == if d.Some? && rest.Some? then Some(Encode(k.dst, d.value) + rest.value) else None
  {
    var u := Decode(k.src, s);
    var tail := DecodeAll(k.src, s[u.len..]);
    if tail.Some? {
      var cs := [u.value] + tail.value;
      assert DecodeAll(k.src, s) == Some(cs);
      assert cs[1..] == tail.value;
      var ds := MapAll(k.mapping, tail.value);
      if ds.Some? && MapCode(k.mapping, u.value).Some? {
        var all := [MapCode(k.mapping, u.value).value] + ds.value;
        assert MapAll(k.mapping, cs) == Some(all);
        assert all[1..] == ds.value;
      }
    }
  }

  /** The output is at most three bytes for each input byte, so this much room is always ample. */
  lemma {:induction false} AmpleRoom(k: Conversion, s: seq<byte>)
    requires MappingOk(k.mapping)
    ensures Meaning(k, s).Some? ==> |Meaning(k, s).value| <= 3 * |s|
    decreases |s|
  {
    if s != [] && Decode(k.src, s).Unit? {
      MeaningStep(k, s);
      AmpleRoom(k, s[Decode(k.src, s).len..]);
    }
  }

  // ---------------------------------------------------------------- the six conversions

  datatype Maps = Maps(ucs2Gbk: seq<code>, gbkUcs2: seq<code>)

  predicate MapsOk(t: Maps) {
    |t.ucs2Gbk| == MAP_SIZE && |t.gbkUcs2| == MAP_SIZE
  }

  function GbkUtf8(t: Maps): Conversion { Conversion(Pairs, Table(t.gbkUcs2), Utf8) }
  function Utf8Gbk(t: Maps): Conversion { Conversion(Utf8, Table(t.ucs2Gbk), Pairs) }
  function GbkUcs2(t: Maps): Conversion { Conversion(Pairs, Table(t.gbkUcs2), Pairs) }
  function Ucs2Gbk(t: Maps): Conversion { Conversion(Pairs, Table(t.ucs2Gbk), Pairs) }
  const UCS2_UTF8 := Conversion(Pairs, Identity, Utf8)
  const UTF8_UCS2 := Conversion(Utf8, Identity, Pairs)

  /** One conversion after another. */
  function Composed(first: Conversion, second: Conversion, s: seq<byte>): Option<seq<byte>>
    requires MappingOk(first.mapping) && MappingOk(second.mapping)
  {
    var mid := Meaning(first, s);
    if mid.None? then None else Meaning(second, mid.value)
  }

  /** The direct conversion from GBK to UTF-8 agrees with going through UCS-2. */
  lemma GbkUtf8ThroughUcs2(t: Maps, s: seq<byte>)
    requires MapsOk(t)
    ensures Meaning(GbkUtf8(t), s) == Composed(GbkUcs2(t), UCS2_UTF8, s)
  {
    var cs := DecodeAll(Pairs, s);
    if cs.Some? && MapAll(Table(t.gbkUcs2), cs.value).Some? {
      var ds := MapAll(Table(t.gbkUcs2), cs.value).value;
      DecodeAllOfEncodeAll(Pairs, ds);
      MapAllIdentity(ds);
    }
  }

  /** So does the direct conversion from UTF-8 to GBK. */
  lemma Utf8GbkThroughUcs2(t: Maps, s: seq<byte>)
    requires MapsOk(t)
    ensures Meaning(Utf8Gbk(t), s) == Composed(UTF8_UCS2, Ucs2Gbk(t), s)
  {
    var cs := DecodeAll(Utf8, s);
    if cs.Some? {
      DecodeAllOfEncodeAll(Pairs, cs.value);
      MapAllIdentity(cs.value);
    }
  }

  /** A direct call succeeds exactly when both calls in turn do, and with the same bytes; seen through only
      where LookInside is mentioned. */
  ghost predicate SameCalls(direct: Conversion, first: Conversion, second: Conversion, s: seq<byte>, size: nat) {
    forall x: int :: LookInside(x) ==>
      && MappingOk(direct.mapping) && MappingOk(first.mapping) && MappingOk(second.mapping)
      && var d, f := Convert(direct, s, 0, size), Convert(first, s, 0, size);
      && var g := Convert(second, f.out, 0, size);
      && (d.err == E_OK <==> f.err == E_OK && g.err == E_OK)
      && (d.err == E_OK ==> d.out == g.out)
  }

  /** The same for the calls themselves: with ample buffers the direct call succeeds exactly when
      both of the others do, and with the same bytes. */
  lemma DirectAgreesWithComposed(t: Maps, s: seq<byte>, size: nat)
    requires MapsOk(t) && 9 * |s| < size
    ensures SameCalls(GbkUtf8(t), GbkUcs2(t), UCS2_UTF8, s, size)
    ensures SameCalls(Utf8Gbk(t), UTF8_UCS2, Ucs2Gbk(t), s, size)
  {
    GbkUtf8ThroughUcs2(t, s);
    ComposedCalls(GbkUtf8(t), GbkUcs2(t), UCS2_UTF8, s, size);
    Utf8GbkThroughUcs2(t, s);
    ComposedCalls(Utf8Gbk(t), UTF8_UCS2, Ucs2Gbk(t), s, size);
  }

  lemma ComposedCalls(direct: Conversion, first: Conversion, second: Conversion, s: seq<byte>, size: nat)
    requires MappingOk(direct.mapping) && MappingOk(first.mapping) && MappingOk(second.mapping) && 9 * |s| < size
    requires Meaning(direct, s) == Composed(first, second, s)
    ensures SameCalls(direct, first, second, s, size)
  {
    var f := Convert(first, s, 0, size);
    ConvertMeans(direct, s, 0, size);
    AmpleRoom(direct, s);
    ConvertMeans(first, s, 0, size);
    AmpleRoom(first, s);
    ConvertMeans(second, f.out, 0, size);
    AmpleRoom(second, f.out);
  }

  // ---------------------------------------------------------------- round trips

  lemma {:induction false} EvenBuffersDecode(s: seq<byte>)
    ensures DecodeAll(Pairs, s).Some? <==> |s| % 2 == 0
    ensures |s| % 2 == 0 ==> EncodeAll(Pairs, DecodeAll(Pairs, s).value) == s
    decreases |s|
  {
    if |s| >= 2 {
      EvenBuffersDecode(s[2..]);
      PairDigitsUnique(s[0], s[1]);
      var c, cs := Code1(s[0], s[1]), DecodeAll(Pairs, s[2..]);
      assert Encode(Pairs, c) + s[2..] == s;
      if cs.Some? {
        assert ([c] + cs.value)[1..] == cs.value;
      }
    }
  }

  /** utf8_to_ucs2 undoes ucs2_to_utf8 on every even-length buffer. */
  lemma Ucs2SurvivesUtf8(s: seq<byte>)
    requires |s| % 2 == 0
    ensures Meaning(UCS2_UTF8, s).Some?
    ensures Meaning(UTF8_UCS2, Meaning(UCS2_UTF8, s).value) == Some(s)
  {
    EvenBuffersDecode(s);
    var cs := DecodeAll(Pairs, s).value;
    MapAllIdentity(cs);
    DecodeAllOfEncodeAll(Utf8, cs);
  }

  /** UTF-8 of at most three bytes a character, in shortest form, with 10xxxxxx continuations. */
  predicate Canonical(s: seq<byte>)
    decreases |s|
  {
    if s == [] then true
    else if s[0] < 0x80 then Canonical(s[1..])
    else if 0xC2 <= s[0] < 0xE0 then |s| >= 2 && Continues(s[1]) && Canonical(s[2..])
    else if 0xE0 <= s[0] < 0xF0 then
      |s| >= 3 && Continues(s[1]) && Continues(s[2]) && (s[0] == 0xE0 ==> s[1] >= 0xA0) && Canonical(s[3..])
    else false
  }

  predicate Continues(b: byte) {
    0x80 <= b < 0xC0
  }

  /** Encoding restores the decoded unit exactly when it was written canonically. */
  lemma EncodeOfDecode(s: seq<byte>)
    requires s != [] && Decode(Utf8, s).Unit?
    ensures
      var u := Decode(Utf8, s);
      Encode(Utf8, u.value) == s[..u.len] <==>
        || s[0] < 0x80
        || (0xC2 <= s[0] < 0xE0 && Continues(s[1]))
        || (0xE0 <= s[0] < 0xF0 && Continues(s[1]) && Continues(s[2]) && (s[0] == 0xE0 ==> s[1] >= 0xA0))
  {
    var u := Decode(Utf8, s);
    var c, e := u.value, Encode(Utf8, u.value);
    if 0xC0 <= s[0] < 0xE0 {
      if s[0] < 0xC2 {
        OverlongTwo(s[0], s[1]);
      } else if Continues(s[1]) {
        TwoByteDigitsUnique(s[0], s[1]);
        assert e == s[..2];
      } else if |e| == 2 {
        TwoByteDigits(c);
        assert e[1] != s[..2][1];
      }
    } else if 0xE0 <= s[0] {
      if !Continues(s[1]) || !Continues(s[2]) {
        if 0x800 <= c {
          ThreeByteDigits(c);
          assert e[1] != s[..3][1] || e[2] != s[..3][2];
        }
      } else if s[0] == 0xE0 && s[1] < 0xA0 {
        OverlongThree(s[1], s[2]);
      } else {
        ThreeByteDigitsUnique(s[0], s[1], s[2]);
        assert e == s[..3];
      }
    }
  }

  /** ucs2_to_utf8 restores what utf8_to_ucs2 decoded exactly on canonical input. */
  lemma {:induction false} Utf8SurvivesUcs2(s: seq<byte>)
    ensures Canonical(s) <==> Composed(UTF8_UCS2, UCS2_UTF8, s) == Some(s)
    decreases |s|
  {
    ThroughUcs2(s);
    CanonicalDecodes(s);
    assert LookInside(0);
  }

  /** What one conversion after another means; seen through only where LookInside is mentioned. */
  ghost predicate Composes(first: Conversion, second: Conversion, s: seq<byte>, r: Option<seq<byte>>) {
    forall x: int :: LookInside(x) ==>
      MappingOk(first.mapping) && MappingOk(second.mapping) && Composed(first, second, s) == r
  }

  function Reencoded(s: seq<byte>): Option<seq<byte>> {
    if DecodeAll(Utf8, s).Some? then Some(EncodeAll(Utf8, DecodeAll(Utf8, s).value)) else None
  }

  lemma ThroughUcs2(s: seq<byte>)
    ensures Composes(UTF8_UCS2, UCS2_UTF8, s, Reencoded(s))
  {
    var cs := DecodeAll(Utf8, s);
    if cs.Some? {
      MapAllIdentity(cs.value);
      DecodeAllOfEncodeAll(Pairs, cs.value);
    }
  }

  lemma {:induction false} CanonicalDecodes(s: seq<byte>)
    ensures Canonical(s) <==> DecodeAll(Utf8, s).Some? && EncodeAll(Utf8, DecodeAll(Utf8, s).value) == s
    decreases |s|
  {
    if s != [] && Decode(Utf8, s).Unit? {
      var u := Decode(Utf8, s);
      var rest := s[u.len..];
      EncodeOfDecode(s);
      CanonicalDecodes(rest);
      var cs := DecodeAll(Utf8, rest);
      if cs.Some? {
        assert ([u.value] + cs.value)[1..] == cs.value;
        DecodeWhole(s, u, cs.value);
      }
    }
  }

  /** A re-encoded buffer equals the original only if it does so unit by unit. */
  lemma DecodeWhole(s: seq<byte>, u: Decoded, cs: seq<code>)
    requires s != [] && u == Decode(Utf8, s) && u.Unit? && DecodeAll(Utf8, s[u.len..]) == Some(cs)
    ensures Encode(Utf8, u.value) + EncodeAll(Utf8, cs) == s <==>
            Encode(Utf8, u.value) == s[..u.len] && EncodeAll(Utf8, cs) == s[u.len..]
  {
    var e, rest := Encode(Utf8, u.value), EncodeAll(Utf8, cs);
    DecodeOfEncode(Utf8, u.value, rest);
    Halves(e, rest);
    Whole(s, u.len);
  }

  lemma Halves(a: seq<byte>, b: seq<byte>)
    ensures (a + b)[..|a|] == a && (a + b)[|a|..] == b
  {
  }

  lemma Whole(s: seq<byte>, k: nat)
    requires k <= |s|
    ensures s[..k] + s[k..] == s
  {
  }

  /** Although it only masks continuation bytes, the decoder is injective on canonical input. */
  lemma Utf8DecoderInjective(a: seq<byte>, b: seq<byte>)
    requires Canonical(a) && Canonical(b)
    requires Meaning(UTF8_UCS2, a) == Meaning(UTF8_UCS2, b)
    ensures a == b
  {
    Utf8SurvivesUcs2(a);
    Utf8SurvivesUcs2(b);
  }
}
