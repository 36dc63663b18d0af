/** The tables and the six conversion loops of charset_code.c, proved against `Convert`. */
module CharsetConversions {
  import opened Common
  import opened Charset

  datatype Row = Row(gbk: code, ucs2: code)

  const LAST_ROW := Row(NONE, NONE)

  // ---------------------------------------------------------------- tables

  /** The rows in front of the one that ends the table. */
  function Rows(table: seq<Row>): (rows: seq<Row>)
    requires LAST_ROW in table
    ensures LAST_ROW !in rows && rows + [LAST_ROW] <= table
  {
    if table[0] == LAST_ROW then [] else [table[0]] + Rows(table[1..])
  }

  /** The last row for a UCS-2 code decides; so for a GBK code. */
  function GbkOf(rows: seq<Row>, ucs2: code): code {
    if rows == [] then NONE
    else if rows[|rows| - 1].ucs2 == ucs2 then rows[|rows| - 1].gbk
    else GbkOf(rows[..|rows| - 1], ucs2)
  }

  function Ucs2Of(rows: seq<Row>, gbk: code): code {
    if rows == [] then NONE
    else if rows[|rows| - 1].gbk == gbk then rows[|rows| - 1].ucs2
    else Ucs2Of(rows[..|rows| - 1], gbk)
  }

  /** No code occurs twice, except that 0xFFFF may stand for several missing UCS-2 codes. */
  ghost predicate OneToOne(rows: seq<Row>) {
    && (forall i | 0 <= i < |rows| :: rows[i].gbk != NONE)
    && (forall i, j | 0 <= i < j < |rows| :: rows[i].gbk != rows[j].gbk)
    && (forall i, j | 0 <= i < j < |rows| :: rows[i].ucs2 != rows[j].ucs2 || rows[i].ucs2 == NONE)
  }

  /** If a code occurs more than once, its last row counts; if it does not occur, it is not mapped. */
  lemma {:induction false} LastRowCounts(rows: seq<Row>, i: nat)
    requires i < |rows|
    ensures (forall j | i < j < |rows| :: rows[j].ucs2 != rows[i].ucs2) ==> GbkOf(rows, rows[i].ucs2) == rows[i].gbk
    ensures (forall j | i < j < |rows| :: rows[j].gbk != rows[i].gbk) ==> Ucs2Of(rows, rows[i].gbk) == rows[i].ucs2
  {
    var n := |rows| - 1;
    if i < n {
      LastRowCounts(rows[..n], i);
    }
  }

  lemma {:induction false} OthersAreUnmapped(rows: seq<Row>, c: code)
    ensures (forall j | 0 <= j < |rows| :: rows[j].ucs2 != c) ==> GbkOf(rows, c) == 0xFFFF
    ensures (forall j | 0 <= j < |rows| :: rows[j].gbk != c) ==> Ucs2Of(rows, c) == 0xFFFF
  {
    if rows != [] {
      OthersAreUnmapped(rows[..|rows| - 1], c);
    }
  }

  lemma {:induction false} GbkOfRow(rows: seq<Row>, gbk: code, ucs2: code)
    requires OneToOne(rows) && ucs2 != NONE && gbk != NONE
    ensures GbkOf(rows, ucs2) == gbk <==> Row(gbk, ucs2) in rows
  {
    if rows != [] {
      GbkOfRow(rows[..|rows| - 1], gbk, ucs2);
      assert rows == rows[..|rows| - 1] + [rows[|rows| - 1]];
    }
  }

  lemma {:induction false} Ucs2OfRow(rows: seq<Row>, gbk: code, ucs2: code)
    requires OneToOne(rows) && ucs2 != NONE && gbk != NONE
    ensures Ucs2Of(rows, gbk) == ucs2 <==> Row(gbk, ucs2) in rows
  {
    if rows != [] {
      Ucs2OfRow(rows[..|rows| - 1], gbk, ucs2);
      assert rows == rows[..|rows| - 1] + [rows[|rows| - 1]];
    }
  }

  lemma {:induction false} NoRowForNone(rows: seq<Row>)
    requires OneToOne(rows)
    ensures Ucs2Of(rows, NONE) == NONE
  {
    if rows != [] {
      NoRowForNone(rows[..|rows| - 1]);
    }
  }

  /** The two maps undo each other on mapped codes, and 0xFFFF is never a GBK code. */
  ghost predicate Inverse(t: Maps)
    requires MapsOk(t)
  {
    && (forall g: code, u: code | g != NONE && u != NONE :: t.gbkUcs2[g] == u <==> t.ucs2Gbk[u] == g)
    && t.gbkUcs2[NONE] == NONE
  }

  ghost predicate Loaded(t: Maps, rows: seq<Row>) {
    && MapsOk(t)
    && (forall u: code :: t.ucs2Gbk[u] == GbkOf(rows, u))
    && (forall g: code :: t.gbkUcs2[g] == Ucs2Of(rows, g))
  }

  lemma LoadedMapsAreInverse(t: Maps, rows: seq<Row>)
    requires Loaded(t, rows) && OneToOne(rows)
    ensures Inverse(t)
  {
    forall g: code, u: code | g != NONE && u != NONE
      ensures t.gbkUcs2[g] == u <==> t.ucs2Gbk[u] == g
    {
      GbkOfRow(rows, g, u);
      Ucs2OfRow(rows, g, u);
    }
    NoRowForNone(rows);
  }

  /** From GBK to codes written in the form `mid`, and back: the conversions with UTF-8 and with UCS-2. */
  function GbkTo(mid: Form, t: Maps): Conversion { Conversion(Pairs, Table(t.gbkUcs2), mid) }
  function ToGbk(mid: Form, t: Maps): Conversion { Conversion(mid, Table(t.ucs2Gbk), Pairs) }

  /** ucs2_to_gbk undoes gbk_to_ucs2, and utf8_to_gbk undoes gbk_to_utf8, on every buffer the latter
      accepts. */
  lemma GbkComesBack(mid: Form, t: Maps, s: seq<byte>)
    requires MapsOk(t) && Inverse(t) && Meaning(GbkTo(mid, t), s).Some?
    ensures Composed(GbkTo(mid, t), ToGbk(mid, t), s) == Some(s)
  {
    EvenBuffersDecode(s);
    var cs := DecodeAll(Pairs, s).value;
    MapThereAndBack(t, cs);
    DecodeAllOfEncodeAll(mid, MapAll(Table(t.gbkUcs2), cs).value);
  }

  lemma {:induction false} MapThereAndBack(t: Maps, cs: seq<code>)
    requires MapsOk(t) && Inverse(t) && MapAll(Table(t.gbkUcs2), cs).Some?
    ensures MapAll(Table(t.ucs2Gbk), MapAll(Table(t.gbkUcs2), cs).value) == Some(cs)
  {
    if cs != [] {
      MapThereAndBack(t, cs[1..]);
      var head, rest := t.gbkUcs2[cs[0]], MapAll(Table(t.gbkUcs2), cs[1..]).value;
      assert t.ucs2Gbk[head] == cs[0];
      assert ([head] + rest)[1..] == rest;
      assert [cs[0]] + cs[1..] == cs;
    }
  }

  /** Every pair of the buffer is the GBK code of a row with a UCS-2 code. */
  predicate AllMapped(rows: seq<Row>, s: seq<byte>)
    decreases |s|
  {
    if s == [] then true
    else |s| >= 2 && Ucs2Of(rows, Code1(s[0], s[1])) != NONE && AllMapped(rows, s[2..])
  }

  /** With a loaded table exactly the mapped buffers can be converted from GBK. */
  lemma {:induction false} MappedIsMeaningful(mid: Form, t: Maps, rows: seq<Row>, s: seq<byte>)
    requires Loaded(t, rows)
    ensures Meaning(GbkTo(mid, t), s).Some? <==> AllMapped(rows, s)
    decreases |s|
  {
    if |s| >= 2 {
      MeaningStep(GbkTo(mid, t), s);
      MappedIsMeaningful(mid, t, rows, s[2..]);
    }
  }

  /** A call succeeds, and a second one turns its output back; seen through only where LookInside is
      mentioned. */
  ghost predicate Restores(first: Conversion, second: Conversion, s: seq<byte>, size: nat) {
    forall x: int :: LookInside(x) ==>
      && MappingOk(first.mapping) && MappingOk(second.mapping)
      && var f := Convert(first, s, 0, size);
      f.err == E_OK && Convert(second, f.out, 0, size) == Outcome(E_OK, s)
  }

  /** The round trips as calls, with ample buffers: UCS-2 through UTF-8 for every even-length buffer,
      UTF-8 through UCS-2 exactly for canonical input, GBK through either for every buffer that the
      first call accepts. */
  lemma CallsUndoEachOther(mid: Form, t: Maps, s: seq<byte>, size: nat)
    requires MapsOk(t) && Inverse(t) && 9 * |s| < size
    ensures |s| % 2 == 0 ==> Restores(UCS2_UTF8, UTF8_UCS2, s, size)
    ensures Canonical(s) <==> Restores(UTF8_UCS2, UCS2_UTF8, s, size)
    ensures Convert(GbkTo(mid, t), s, 0, size).err == E_OK ==> Restores(GbkTo(mid, t), ToGbk(mid, t), s, size)
  {
    if |s| % 2 == 0 {
      Ucs2SurvivesUtf8(s);
      CallsRestore(UCS2_UTF8, UTF8_UCS2, s, size);
    }
    Utf8SurvivesUcs2(s);
    CallsRestore(UTF8_UCS2, UCS2_UTF8, s, size);
    CallsInTurn(GbkTo(mid, t), ToGbk(mid, t), s, size);
    CallsRestore(GbkTo(mid, t), ToGbk(mid, t), s, size);
    if Meaning(GbkTo(mid, t), s).Some? {
      GbkComesBack(mid, t, s);
    }
  }

  lemma CallsRestore(first: Conversion, second: Conversion, s: seq<byte>, size: nat)
    requires MappingOk(first.mapping) && MappingOk(second.mapping) && 9 * |s| < size
    ensures Restores(first, second, s, size) <==> Composed(first, second, s) == Some(s)
  {
    CallsInTurn(first, second, s, size);
    assert LookInside(0);
  }

  /** With ample buffers two calls in turn yield what the composition means. */
  lemma CallsInTurn(first: Conversion, second: Conversion, s: seq<byte>, size: nat)
    requires MappingOk(first.mapping) && MappingOk(second.mapping) && 9 * |s| < size
    ensures
      var f, c := Convert(first, s, 0, size), Composed(first, second, s);
      var g := Convert(second, f.out, 0, size);
      && (f.err == E_OK <==> Meaning(first, s).Some?)
      && (f.err == E_OK && g.err == E_OK <==> c.Some?)
      && (c.Some? ==> g == Outcome(E_OK, c.value))
  {
    var f := Convert(first, s, 0, size);
    ConvertMeans(first, s, 0, size);
    AmpleRoom(first, s);
    ConvertMeans(second, f.out, 0, size);
    AmpleRoom(second, f.out);
  }

  // ---------------------------------------------------------------- the terminator

  /** The encoded lengths of the units of the input, up to one that has no code. */
  function OutSize(k: Conversion, s: seq<byte>): nat
    requires MappingOk(k.mapping)
    decreases |s|
  {
    if s == [] || !Decode(k.src, s).Unit? then 0
    else
      var u := Decode(k.src, s);
      match MapCode(k.mapping, u.value)
      case None => 0
      case Some(d) => |Encode(k.dst, d)| + OutSize(k, s[u.len..])
  }

  lemma {:induction false} MeaningHasOutSize(k: Conversion, s: seq<byte>)
    requires MappingOk(k.mapping)
    ensures Meaning(k, s).Some? ==> |Meaning(k, s).value| == OutSize(k, s)
    decreases |s|
  {
    if s != [] && Decode(k.src, s).Unit? {
      MeaningStep(k, s);
      MeaningHasOutSize(k, s[Decode(k.src, s).len..]);
    }
  }

  /** A call that succeeds in a buffer of exactly `size` bytes finds a place for its terminator exactly
      if the units of its input do not add up to `size`.  That they do needs UTF-8 output with a last
      byte below 0x80, or no room at all. */
  lemma TerminatorHasRoom(k: Conversion, s: seq<byte>, size: nat)
    requires MappingOk(k.mapping) && Convert(k, s, 0, size).err == E_OK
    ensures |Convert(k, s, 0, size).out| == OutSize(k, s) <= size
    ensures |Convert(k, s, 0, size).out| < size <==> OutSize(k, s) != size
    ensures
      var out := Convert(k, s, 0, size).out;
      OutSize(k, s) == size <==> (out == [] && size == 0) || (k.dst == Utf8 && |out| == size && out[|out| - 1] < 0x80)
  {
    ConvertMeans(k, s, 0, size);
    MeaningHasOutSize(k, s);
  }

  /** One letter fills a buffer of one byte, and the terminator goes behind it. */
  lemma LetterLeavesNoPlace()
    ensures Convert(UCS2_UTF8, [0, 0x41], 0, 1) == Outcome(E_OK, [0x41])
    ensures OutSize(UCS2_UTF8, [0, 0x41]) == 1
  {
    var s: seq<byte> := [0, 0x41];
    assert s[2..] == [];
    assert Decode(Pairs, s) == Unit(0x41, 2);
  }

  // ---------------------------------------------------------------- units in and out

  /** The block of gbk_to_utf8 and ucs2_to_utf8 that writes one code, if there is room. */
  method PutUtf8(d: array<byte>, num: nat, c: code, size: nat, ghost done: seq<byte>) returns (ok: bool, next: nat)
    requires Holds(d, done) && num == |done| <= size <= d.Length
    modifies d
    ensures ok <==> HasRoom(num, |Encode(Utf8, c)|, size)
    ensures ok ==> Holds(d, done + Encode(Utf8, c)) && next == num + |Encode(Utf8, c)| <= size
    ensures !ok ==> next == num && Holds(d, done)
    ensures forall j | next <= j < d.Length :: d[j] == old(d[j])
  {
    next := num;
    if c < 0x80 {
      if num >= size { return false, num; }
      d[next] := c; next := next + 1;
    } else if c < 0x800 {
      if num + 2 >= size { return false, num; }
      d[next] := 0xC0 + c / 0x40; next := next + 1;
      d[next] := 0x80 + c % 0x40; next := next + 1;
    } else {
      if num + 3 >= size { return false, num; }
      d[next] := 0xE0 + c / 0x1000; next := next + 1;
      d[next] := 0x80 + c / 0x40 % 0x40; next := next + 1;
      d[next] := 0x80 + c % 0x40; next := next + 1;
    }
    ok := true;
  }

  /** The block of the other four that writes one code as a byte pair. */
  method PutPair(d: array<byte>, num: nat, c: code, size: nat, ghost done: seq<byte>) returns (ok: bool, next: nat)
    requires Holds(d, done) && num == |done| <= size <= d.Length
    modifies d
    ensures ok <==> HasRoom(num, |Encode(Pairs, c)|, size)
    ensures ok ==> Holds(d, done + Encode(Pairs, c)) && next == num + |Encode(Pairs, c)| <= size
    ensures !ok ==> next == num && Holds(d, done)
    ensures forall j | next <= j < d.Length :: d[j] == old(d[j])
  {
    next := num;
    if num + 2 >= size { return false, num; }
    d[next] := c / 0x100; next := next + 1;
    d[next] := c % 0x100; next := next + 1;
    ok := true;
  }

  /** The block of gbk_to_utf8, gbk_to_ucs2, ucs2_to_utf8 and ucs2_to_gbk that reads one pair. */
  method TakePair(s: seq<byte>, pb: nat) returns (err: Error, c: code, next: nat)
    requires pb < |s|
    ensures Took(Pairs, s, pb, err, c, next)
  {
    if pb + 1 >= |s| {
      return E_IDAT, 0, pb;
    }
    return E_OK, Code1(s[pb], s[pb + 1]), pb + 2;
  }

  /** The block of utf8_to_gbk and utf8_to_ucs2 that reads one sequence. */
  method TakeUtf8(s: seq<byte>, pb: nat) returns (err: Error, c: code, next: nat)
    requires pb < |s|
    ensures Took(Utf8, s, pb, err, c, next)
  {
    if s[pb] < 0x80 {
      return E_OK, s[pb], pb + 1;
    } else if 0xC0 <= s[pb] < 0xE0 {
      if pb + 1 >= |s| {
        return E_IDAT, 0, pb;
      }
      return E_OK, Code2(s[pb], s[pb + 1]), pb + 2;
    } else if 0xE0 <= s[pb] < 0xF0 {
      if pb + 2 >= |s| {
        return E_IDAT, 0, pb;
      }
      return E_OK, Code3(s[pb], s[pb + 1], s[pb + 2]), pb + 3;
    } else {
      return E_CODE, 0, pb;
    }
  }

  /** Reading at `pb` gave what `Decode` gives. */
  predicate Took(f: Form, s: seq<byte>, pb: nat, err: Error, c: code, next: nat)
    requires pb < |s|
  {
    match Decode(f, s[pb..])
    case Unit(v, len) => err == E_OK && c == v && next == pb + len
    case Short => err == E_IDAT
    case Bad => err == E_CODE
  }

  // ---------------------------------------------------------------- progress of a loop

  /** After `pb` input bytes, `done` is written and what is left decides the outcome.  The
      definition is seen only where LookInside is mentioned. */
  ghost predicate Converting(k: Conversion, s: seq<byte>, pb: nat, done: seq<byte>, size: nat) {
    forall x: int :: LookInside(x) ==>
      MappingOk(k.mapping) && pb <= |s| && Convert(k, s, 0, size) == Then(done, Convert(k, s[pb..], |done|, size))
  }

  lemma Begins(k: Conversion, s: seq<byte>, size: nat)
    requires MappingOk(k.mapping)
    ensures Converting(k, s, 0, [], size)
  {
    assert s[0..] == s;
    var o := Convert(k, s, 0, size);
    assert [] + o.out == o.out;
  }

  lemma ConvertStep(k: Conversion, s: seq<byte>, num: nat, size: nat, c: code, len: nat, e: seq<byte>, rest: Outcome)
    requires MappingOk(k.mapping) && s != [] && Decode(k.src, s) == Unit(c, len) && MapCode(k.mapping, c).Some?
    requires e == Encode(k.dst, MapCode(k.mapping, c).value) && HasRoom(num, |e|, size)
    requires rest == Convert(k, s[len..], num + |e|, size)
    ensures Convert(k, s, num, size) == Then(e, rest)
  {
  }

  lemma ThenTwice(a: seq<byte>, b: seq<byte>, o: Outcome)
    ensures Then(a, Then(b, o)) == Then(a + b, o)
  {
    assert a + (b + o.out) == a + b + o.out;
  }

  lemma GoesOn(k: Conversion, s: seq<byte>, pb: nat, done: seq<byte>, size: nat, c: code, len: nat, d: code)
    requires Converting(k, s, pb, done, size) && MappingOk(k.mapping) && pb < |s|
    requires Decode(k.src, s[pb..]) == Unit(c, len) && MapCode(k.mapping, c) == Some(d)
    requires HasRoom(|done|, |Encode(k.dst, d)|, size)
    ensures Converting(k, s, pb + len, done + Encode(k.dst, d), size)
  {
    assert LookInside(0);
    var e := Encode(k.dst, d);
    assert s[pb..][len..] == s[pb + len..];
    var rest := Convert(k, s[pb + len..], |done + e|, size);
    ConvertStep(k, s[pb..], |done|, size, c, len, e, rest);
    ThenTwice(done, e, rest);
  }

  /** The first failing test decides the error. */
  lemma Fails(k: Conversion, s: seq<byte>, pb: nat, done: seq<byte>, size: nat, err: Error)
    requires Converting(k, s, pb, done, size) && MappingOk(k.mapping) && pb < |s|
    requires Convert(k, s[pb..], |done|, size) == Outcome(err, [])
    ensures Convert(k, s, 0, size) == Outcome(err, done)
  {
    assert LookInside(0);
  }

  lemma Ends(k: Conversion, s: seq<byte>, done: seq<byte>, size: nat)
    requires Converting(k, s, |s|, done, size) && MappingOk(k.mapping)
    ensures Convert(k, s, 0, size) == Outcome(E_OK, done)
  {
    assert LookInside(0);
    assert s[|s|..] == [];
  }

  // ---------------------------------------------------------------- the converter object

  class Converter {
    const ucs2Gbk: array<code>
    const gbkUcs2: array<code>

    ghost predicate Valid()
      reads this
    {
      ucs2Gbk.Length == MAP_SIZE && gbkUcs2.Length == MAP_SIZE && ucs2Gbk != gbkUcs2
    }

    ghost function Tables(): (t: Maps)
      requires Valid()
      reads this, ucs2Gbk, gbkUcs2
      ensures MapsOk(t)
    {
      Maps(ucs2Gbk[..], gbkUcs2[..])
    }

    /** charset_map_init: all entries unused, then every row up to the last stored both ways. */
    constructor (table: seq<Row>)
      requires LAST_ROW in table
      ensures Valid() && fresh(ucs2Gbk) && fresh(gbkUcs2)
      ensures Loaded(Tables(), Rows(table))
    {
      var byUcs2 := new code[MAP_SIZE](_ => NONE);
      var byGbk := new code[MAP_SIZE](_ => NONE);
      var i := 0;
      while table[i] != LAST_ROW
        invariant 0 <= i < |table| && LAST_ROW !in table[..i]
        invariant forall u: code :: byUcs2[u] == GbkOf(table[..i], u)
        invariant forall g: code :: byGbk[g] == Ucs2Of(table[..i], g)
        decreases |table| - i
      {
        var gbk, ucs2 := table[i].gbk, table[i].ucs2;
        byUcs2[ucs2] := gbk;
        byGbk[gbk] := ucs2;
        i := i + 1;
        assert table[..i][..i - 1] == table[..i - 1];
      }
      ucs2Gbk, gbkUcs2 := byUcs2, byGbk;
      new;
      RowsAre(table, i);
    }

    static lemma {:induction false} RowsAre(table: seq<Row>, i: nat)
      requires i < |table| && table[i] == LAST_ROW && LAST_ROW !in table[..i]
      ensures Rows(table) == table[..i]
    {
      if i > 0 {
        assert LAST_ROW != table[..i][0];
        assert forall j | 0 <= j < i - 1 :: table[1..][j] == table[..i][j + 1];
        RowsAre(table[1..], i - 1);
        assert table[..i] == [table[0]] + table[1..][..i - 1];
      }
    }

    /** The buffer has the `size` bytes it is said to have, and one more if a call that succeeds would
        fill them. */
    static ghost predicate Holdable(k: Conversion, s: seq<byte>, size: nat, length: nat) {
      && MappingOk(k.mapping) && size <= length
      && (Convert(k, s, 0, size).err == E_OK && OutSize(k, s) == size ==> size < length)
    }

    /** What each conversion promises: the error and the bytes of `Convert`; on success the
        length and a terminator; on failure the caller's length is untouched. */
    static twostate predicate Done(k: Conversion, s: seq<byte>, d: array<byte>, size: nat, err: Error, len: nat)
      reads d
    {
      && MappingOk(k.mapping)
      && var o := Convert(k, s, 0, size);
      && err == o.err
      && Holds(d, o.out)
      && (err == E_OK ==> len == |o.out| < d.Length && d[len] == 0)
      && (err != E_OK ==> len == size)
      && (forall j | |o.out| + (if err == E_OK then 1 else 0) <= j < d.Length :: d[j] == old(d[j]))
    }

    /** gbk_to_utf8 */
    method GbkToUtf8(s: seq<byte>, d: array<byte>, size: nat) returns (err: Error, len: nat)
      requires Valid() && Holdable(GbkUtf8(Tables()), s, size, d.Length)
      modifies d
      ensures Done(GbkUtf8(Tables()), s, d, size, err, len)
    {
      ghost var k, done := GbkUtf8(Tables()), [];
      var num, pb, ok := 0, 0, true;
      Begins(k, s, size);
      while pb < |s|
        invariant 0 <= pb <= |s| && num == |done| <= size
        invariant Holds(d, done) && Converting(k, s, pb, done, size)
        invariant forall j | num <= j < d.Length :: d[j] == old(d[j])
      {
        ghost var at := pb;
        var gbk;
        err, gbk, pb := TakePair(s, pb);
        if err != E_OK {
          Fails(k, s, at, done, size, err);
          return err, size;
        }
        if gbkUcs2[gbk] == NONE {
          Fails(k, s, at, done, size, E_CODE);
          return E_CODE, size;
        }
        var ucs2 := gbkUcs2[gbk];
        ok, num := PutUtf8(d, num, ucs2, size, done);
        if !ok {
          Fails(k, s, at, done, size, E_OBUF);
          return E_OBUF, size;
        }
        GoesOn(k, s, at, done, size, gbk, pb - at, ucs2);
        done := done + Encode(k.dst, ucs2);
      }
      Ends(k, s, done, size);
      TerminatorHasRoom(k, s, size);
      d[num] := 0;
      return E_OK, num;
    }

    /** utf8_to_gbk */
    method Utf8ToGbk(s: seq<byte>, d: array<byte>, size: nat) returns (err: Error, len: nat)
      requires Valid() && Holdable(Utf8Gbk(Tables()), s, size, d.Length)
      modifies d
      ensures Done(Utf8Gbk(Tables()), s, d, size, err, len)
    {
      ghost var k, done := Utf8Gbk(Tables()), [];
      var num, pb, ok := 0, 0, true;
      Begins(k, s, size);
      while pb < |s|
        invariant 0 <= pb <= |s| && num == |done| <= size
        invariant Holds(d, done) && Converting(k, s, pb, done, size)
        invariant forall j | num <= j < d.Length :: d[j] == old(d[j])
      {
        ghost var at := pb;
        var ucs2;
        err, ucs2, pb := TakeUtf8(s, pb);
        if err != E_OK {
          Fails(k, s, at, done, size, err);
          return err, size;
        }
        if ucs2Gbk[ucs2] == NONE {
          Fails(k, s, at, done, size, E_CODE);
          return E_CODE, size;
        }
        var gbk := ucs2Gbk[ucs2];
        ok, num := PutPair(d, num, gbk, size, done);
        if !ok {
          Fails(k, s, at, done, size, E_OBUF);
          return E_OBUF, size;
        }
        GoesOn(k, s, at, done, size, ucs2, pb - at, gbk);
        done := done + Encode(k.dst, gbk);
      }
      Ends(k, s, done, size);
      TerminatorHasRoom(k, s, size);
      d[num] := 0;
      return E_OK, num;
    }

    /** ucs2_to_utf8 */
    method Ucs2ToUtf8(s: seq<byte>, d: array<byte>, size: nat) returns (err: Error, len: nat)
      requires Valid() && Holdable(UCS2_UTF8, s, size, d.Length)
      modifies d
      ensures Done(UCS2_UTF8, s, d, size, err, len)
    {
      ghost var k, done := UCS2_UTF8, [];
      var num, pb, ok := 0, 0, true;
      Begins(k, s, size);
      while pb < |s|
        invariant 0 <= pb <= |s| && num == |done| <= size
        invariant Holds(d, done) && Converting(k, s, pb, done, size)
        invariant forall j | num <= j < d.Length :: d[j] == old(d[j])
      {
        ghost var at := pb;
        var d16;
        err, d16, pb := TakePair(s, pb);
        if err != E_OK {
          Fails(k, s, at, done, size, err);
          return err, size;
        }
        ok, num := PutUtf8(d, num, d16, size, done);
        if !ok {
          Fails(k, s, at, done, size, E_OBUF);
          return E_OBUF, size;
        }
        GoesOn(k, s, at, done, size, d16, pb - at, d16);
        done := done + Encode(k.dst, d16);
      }
      Ends(k, s, done, size);
      TerminatorHasRoom(k, s, size);
      d[num] := 0;
      return E_OK, num;
    }

    /** utf8_to_ucs2 */
    method Utf8ToUcs2(s: seq<byte>, d: array<byte>, size: nat) returns (err: Error, len: nat)
      requires Valid() && Holdable(UTF8_UCS2, s, size, d.Length)
      modifies d
      ensures Done(UTF8_UCS2, s, d, size, err, len)
    {
      ghost var k, done := UTF8_UCS2, [];
      var num, pb, ok := 0, 0, true;
      Begins(k, s, size);
      while pb < |s|
        invariant 0 <= pb <= |s| && num == |done| <= size
        invariant Holds(d, done) && Converting(k, s, pb, done, size)
        invariant forall j | num <= j < d.Length :: d[j] == old(d[j])
      {
        ghost var at := pb;
        var d16;
        err, d16, pb := TakeUtf8(s, pb);
        if err != E_OK {
          Fails(k, s, at, done, size, err);
          return err, size;
        }
        ok, num := PutPair(d, num, d16, size, done);
        if !ok {
          Fails(k, s, at, done, size, E_OBUF);
          return E_OBUF, size;
        }
        GoesOn(k, s, at, done, size, d16, pb - at, d16);
        done := done + Encode(k.dst, d16);
      }
      Ends(k, s, done, size);
      TerminatorHasRoom(k, s, size);
      d[num] := 0;
      return E_OK, num;
    }

    /** gbk_to_ucs2 */
    method GbkToUcs2(s: seq<byte>, d: array<byte>, size: nat) returns (err: Error, len: nat)
      requires Valid() && Holdable(GbkUcs2(Tables()), s, size, d.Length)
      modifies d
      ensures Done(GbkUcs2(Tables()), s, d, size, err, len)
    {
      ghost var k, done := GbkUcs2(Tables()), [];
      var num, pb, ok := 0, 0, true;
      Begins(k, s, size);
      while pb < |s|
        invariant 0 <= pb <= |s| && num == |done| <= size
        invariant Holds(d, done) && Converting(k, s, pb, done, size)
        invariant forall j | num <= j < d.Length :: d[j] == old(d[j])
      {
        ghost var at := pb;
        var gbk;
        err, gbk, pb := TakePair(s, pb);
        if err != E_OK {
          Fails(k, s, at, done, size, err);
          return err, size;
        }
        if gbkUcs2[gbk] == NONE {
          Fails(k, s, at, done, size, E_CODE);
          return E_CODE, size;
        }
        var ucs2 := gbkUcs2[gbk];
        ok, num := PutPair(d, num, ucs2, size, done);
        if !ok {
          Fails(k, s, at, done, size, E_OBUF);
          return E_OBUF, size;
        }
        GoesOn(k, s, at, done, size, gbk, pb - at, ucs2);
        done := done + Encode(k.dst, ucs2);
      }
      Ends(k, s, done, size);
      TerminatorHasRoom(k, s, size);
      d[num] := 0;
      return E_OK, num;
    }

    /** ucs2_to_gbk */
    method Ucs2ToGbk(s: seq<byte>, d: array<byte>, size: nat) returns (err: Error, len: nat)
      requires Valid() && Holdable(Ucs2Gbk(Tables()), s, size, d.Length)
      modifies d
      ensures Done(Ucs2Gbk(Tables()), s, d, size, err, len)
    {
      ghost var k, done := Ucs2Gbk(Tables()), [];
      var num, pb, ok := 0, 0, true;
      Begins(k, s, size);
      while pb < |s|
        invariant 0 <= pb <= |s| && num == |done| <= size
        invariant Holds(d, done) && Converting(k, s, pb, done, size)
        invariant forall j | num <= j < d.Length :: d[j] == old(d[j])
      {
        ghost var at := pb;
        var ucs2;
        err, ucs2, pb := TakePair(s, pb);
        if err != E_OK {
          Fails(k, s, at, done, size, err);
          return err, size;
        }
        if ucs2Gbk[ucs2] == NONE {
          Fails(k, s, at, done, size, E_CODE);
          return E_CODE, size;
        }
        var gbk := ucs2Gbk[ucs2];
        ok, num := PutPair(d, num, gbk, size, done);
        if !ok {
          Fails(k, s, at, done, size, E_OBUF);
          return E_OBUF, size;
        }
        GoesOn(k, s, at, done, size, ucs2, pb - at, gbk);
        done := done + Encode(k.dst, gbk);
      }
      Ends(k, s, done, size);
      TerminatorHasRoom(k, s, size);
      d[num] := 0;
      return E_OK, num;
    }

    /** lc_conv: the conversion chosen by number; an unknown number leaves everything alone. */
    method LcConv(s: seq<byte>, d: array<byte>, size: nat, convType: int) returns (ret: int, len: nat)
      requires Valid()
      requires match ConversionFor(Tables(), convType)
               case Some(k) => Holdable(k, s, size, d.Length)
               case None => true
      modifies d
      ensures
        match ConversionFor(Tables(), convType)
        case Some(k) => exists err :: Done(k, s, d, size, err, len) && ret == ErrorNumber(err)
        case None => ret == -1 && len == size && d[..] == old(d[..])
    {
      var err: Error;
      match convType {
      case 0 => err, len := GbkToUtf8(s, d, size);
      case 1 => err, len := Utf8ToGbk(s, d, size);
      case 2 => err, len := Utf8ToUcs2(s, d, size);
      case 3 => err, len := Ucs2ToUtf8(s, d, size);
      case 4 => err, len := GbkToUcs2(s, d, size);
      case 5 => err, len := Ucs2ToGbk(s, d, size);
      case _ => return -1, size;
      }
      ret := ErrorNumber(err);
    }
  }

  function ErrorNumber(e: Error): int {
    match e
    case E_OK => 0
    case E_OBUF => 1
    case E_IDAT => 2
    case E_CODE => 3
    case E_NASC => 4
  }

  /** The conversion types of charset_code.h, in their order. */
  function ConversionFor(t: Maps, convType: int): Option<Conversion> {
    match convType
    case 0 => Some(GbkUtf8(t))
    case 1 => Some(Utf8Gbk(t))
    case 2 => Some(UTF8_UCS2)
    case 3 => Some(UCS2_UTF8)
    case 4 => Some(GbkUcs2(t))
    case 5 => Some(Ucs2Gbk(t))
    case _ => None
  }

  // ---------------------------------------------------------------- there and back

  /** lc_conv into a buffer with ample room. */
  method Converted(conv: Converter, convType: int, ghost k: Conversion, s: seq<byte>)
    returns (ret: int, out: seq<byte>)
    requires conv.Valid() && ConversionFor(conv.Tables(), convType) == Some(k)
    ensures MappingOk(k.mapping)
    ensures ret == 0 <==> Meaning(k, s).Some?
    ensures ret == 0 ==> out == Meaning(k, s).value
  {
    var size := 3 * |s| + 1;
    var d := new byte[size + 1];
    AmpleRoom(k, s);
    ConvertMeans(k, s, 0, size);
    var len;
    ret, len := conv.LcConv(s, d, size, convType);
    if ret != 0 {
      return ret, [];
    }
    assert Holds(d, Meaning(k, s).value);
    out := d[..len];
  }

  /** Load a table, convert from GBK to UTF-8 or to UCS-2, and convert back: every mapped buffer is
      restored, and every other is refused. */
  method GbkThereAndBack(table: seq<Row>, mid: Form, s: seq<byte>) returns (ret: int, back: seq<byte>)
    requires LAST_ROW in table && OneToOne(Rows(table))
    ensures ret == 0 <==> AllMapped(Rows(table), s)
    ensures ret == 0 ==> back == s
  {
    var conv := new Converter(table);
    ghost var t := conv.Tables();
    LoadedMapsAreInverse(t, Rows(table));
    MappedIsMeaningful(mid, t, Rows(table), s);
    ret, back := Converted(conv, if mid == Utf8 then 0 else 4, GbkTo(mid, t), s);
    if ret == 0 {
      GbkComesBack(mid, t, s);
      ret, back := Converted(conv, if mid == Utf8 then 1 else 5, ToGbk(mid, t), back);
    }
  }

  /** Convert from UTF-8 to UCS-2 and back: exactly the canonical buffers are restored. */
  method Utf8ThereAndBack(table: seq<Row>, s: seq<byte>) returns (ret: int, back: seq<byte>)
    requires LAST_ROW in table
    ensures ret == 0 && back == s <==> Canonical(s)
  {
    var conv := new Converter(table);
    Utf8SurvivesUcs2(s);
    ret, back := Converted(conv, 2, UTF8_UCS2, s);
    if ret == 0 {
      ret, back := Converted(conv, 3, UCS2_UTF8, back);
    }
  }

  /** Convert from UCS-2 to UTF-8 and back: every buffer of even length is restored, every other is
      refused. */
  method Ucs2ThereAndBack(table: seq<Row>, s: seq<byte>) returns (ret: int, back: seq<byte>)
    requires LAST_ROW in table
    ensures ret == 0 <==> |s| % 2 == 0
    ensures ret == 0 ==> back == s
  {
    var conv := new Converter(table);
    EvenBuffersDecode(s);
    if |s| % 2 == 0 {
      Ucs2SurvivesUtf8(s);
    }
    ret, back := Converted(conv, 3, UCS2_UTF8, s);
    if ret == 0 {
      ret, back := Converted(conv, 2, UTF8_UCS2, back);
    }
  }
}
