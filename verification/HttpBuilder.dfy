/** Building a message line by line in a bounded buffer (f1g_http.c), with the bit array that
    remembers which headers are present (f1g_bit_array.c). */
module HttpBuilder {
  import opened Common

  // HTTP_HDR_E, as far as requests need its names
  const HDR_HOST := 3
  const HDR_UA := 4
  const HDR_REFER := 5
  const HDR_COOKIE := 6
  const HDR_END := 7
  const HDR_REQ_LINE := 8
  const HDR_NUM := 10

  const HO_MIN_BUF_SZ := 64
  const HO_DFT_BUF_SZ := 2048

  /** The header table: of "Referer:  " only the first 8 bytes are ever copied. */
  function Prefix(id: nat): string {
    if id == HDR_HOST then "Host: "
    else if id == HDR_REFER then "Referer:"
    else if id == HDR_UA then "User-Agent: "
    else if id == HDR_COOKIE then "Cookie: "
    else ""
  }

  // ---------------------------------------------------------------- the bit array

  function Mask(k: nat): bv8
    requires k < 8
  {
    match k
    case 0 => 0x01
    case 1 => 0x02
    case 2 => 0x04
    case 3 => 0x08
    case 4 => 0x10
    case 5 => 0x20
    case 6 => 0x40
    case _ => 0x80
  }

  predicate IsSet(b: bv8, k: nat)
    requires k < 8
  {
    b & Mask(k) != 0
  }

  /** bit_array_set_bit on one byte */
  function SetBit(b: bv8, k: nat): (r: bv8)
    requires k < 8
    ensures forall j: nat | j < 8 :: IsSet(r, j) <==> j == k || IsSet(b, j)
  {
    b | Mask(k)
  }

  /** bit_array_bit_value on one byte: the shifts are made on a wider type, so the bits above the
      wanted one are not masked off. */
  function BitValue(b: bv8, k: nat): bv16
    requires k < 8
  {
    var w := b as bv16;
    match k
    case 0 => (w << 7) >> 7
    case 1 => (w << 6) >> 7
    case 2 => (w << 5) >> 7
    case 3 => (w << 4) >> 7
    case 4 => (w << 3) >> 7
    case 5 => (w << 2) >> 7
    case 6 => (w << 1) >> 7
    case _ => w >> 7
  }

  predicate HigherSet(b: bv8, k: nat)
    requires k < 8
  {
    exists j: nat | k < j < 8 :: IsSet(b, j)
  }

  /** So the value is 1 exactly when the bit is the highest one set in its byte. */
  lemma ReadsAsOne(b: bv8, k: nat)
    requires k < 8
    ensures BitValue(b, k) == 1 <==> IsSet(b, k) && !HigherSet(b, k)
  {
    HigherBits(b, k);
    if k == 0 {} else if k == 1 {} else if k == 2 {} else if k == 3 {}
    else if k == 4 {} else if k == 5 {} else if k == 6 {} else {}
  }

  lemma HigherBits(b: bv8, k: nat)
    requires k < 8
    ensures HigherSet(b, k) <==>
            (k < 1 && IsSet(b, 1)) || (k < 2 && IsSet(b, 2)) || (k < 3 && IsSet(b, 3)) || (k < 4 && IsSet(b, 4)) ||
            (k < 5 && IsSet(b, 5)) || (k < 6 && IsSet(b, 6)) || (k < 7 && IsSet(b, 7))
  {
    if HigherSet(b, k) {
      var j: nat :| k < j < 8 && IsSet(b, j);
      assert j == 1 || j == 2 || j == 3 || j == 4 || j == 5 || j == 6 || j == 7;
    }
  }

  // ---------------------------------------------------------------- the message as a value

  /** What is in the buffer, and the bytes of the status array. */
  datatype Message = Message(text: string, bits: seq<bv8>)

  const EMPTY := Message("", [0, 0])

  predicate MessageOk(m: Message) {
    |m.bits| == 2 && m.bits[1] & 0xFC == 0
  }

  predicate Present(m: Message, id: nat)
    requires MessageOk(m) && id < HDR_NUM
  {
    IsSet(m.bits[id / 8], id % 8)
  }

  function Line(id: nat, value: string): string {
    Prefix(id) + value + CRLF
  }

  /** The tests of http_object_add_header. */
  predicate Accepts(m: Message, size: nat, id: nat, value: string)
    requires MessageOk(m)
  {
    && id < HDR_NUM
    && BitValue(m.bits[id / 8], id % 8) != 1
    && |m.text| + |Line(id, value)| < size
  }

  function AddLine(m: Message, size: nat, id: nat, value: string): (r: Message)
    requires MessageOk(m)
    ensures MessageOk(r)
  {
    if Accepts(m, size, id, value)
    then
      assert id == 8 || id == 9 || id / 8 == 0;
      Message(m.text + Line(id, value), m.bits[id / 8 := SetBit(m.bits[id / 8], id % 8)])
    else m
  }

  lemma PresentAfterAdd(m: Message, size: nat, id: nat, value: string, other: nat)
    requires MessageOk(m) && Accepts(m, size, id, value) && other < HDR_NUM
    ensures Present(AddLine(m, size, id, value), other) <==> other == id || Present(m, other)
  {
  }

  /** A header that is absent is accepted exactly when there is room for its line, and a place more. */
  lemma AbsentIsAccepted(m: Message, size: nat, id: nat, value: string)
    requires MessageOk(m) && id < HDR_NUM && !Present(m, id)
    ensures Accepts(m, size, id, value) <==> |m.text| + |Line(id, value)| < size
  {
    ReadsAsOne(m.bits[id / 8], id % 8);
  }

  /** The code means to refuse a header that is already present.  It does so exactly when no header
      with a higher id in the same group of eight is present too. */
  lemma DuplicateIsRefused(m: Message, size: nat, id: nat, value: string)
    requires MessageOk(m) && id < HDR_NUM && Present(m, id)
    ensures !Accepts(m, size, id, value) <==>
              |m.text| + |Line(id, value)| >= size || forall j: nat | id < j < 10 && j / 8 == id / 8 :: !Present(m, j)
  {
    var g, k := id / 8, id % 8;
    ReadsAsOne(m.bits[g], k);
    HigherBits(m.bits[g], k);
    if HigherSet(m.bits[g], k) {
      var j: nat :| k < j < 8 && IsSet(m.bits[g], j);
      if g == 1 {
        assert m.bits[1] & Mask(j) != 0;
        assert j == 1;
      }
      assert (8 * g + j) / 8 == g && (8 * g + j) % 8 == j;
      assert Present(m, 8 * g + j);
    }
    forall j: nat | id < j < HDR_NUM && j / 8 == g && Present(m, j)
      ensures HigherSet(m.bits[g], k)
    {
      assert k < j % 8 && IsSet(m.bits[g], j % 8);
    }
  }

  /** Concretely: after Host and Cookie, a second Host is taken and the message has two. */
  lemma SecondHostIsTaken()
    ensures var m := AddLine(AddLine(EMPTY, HO_DFT_BUF_SZ, HDR_HOST, "a"), HO_DFT_BUF_SZ, HDR_COOKIE, "b");
            Present(m, HDR_HOST) && AddLine(m, HO_DFT_BUF_SZ, HDR_HOST, "c").text == m.text + "Host: c\r\n"
  {
    var m1 := AddLine(EMPTY, HO_DFT_BUF_SZ, HDR_HOST, "a");
    AbsentIsAccepted(EMPTY, HO_DFT_BUF_SZ, HDR_HOST, "a");
    assert !Present(m1, HDR_COOKIE);
    AbsentIsAccepted(m1, HO_DFT_BUF_SZ, HDR_COOKIE, "b");
    var m2 := AddLine(m1, HO_DFT_BUF_SZ, HDR_COOKIE, "b");
    assert Present(m2, HDR_HOST) && Present(m2, HDR_COOKIE);
    DuplicateIsRefused(m2, HO_DFT_BUF_SZ, HDR_HOST, "c");
  }

  // ---------------------------------------------------------------- whole messages

  datatype Item = Item(id: nat, value: string)

  /** The lines of some items, one after another. */
  function Build(items: seq<Item>): string {
    if items == [] then "" else Line(items[0].id, items[0].value) + Build(items[1..])
  }

  function AddAll(m: Message, size: nat, items: seq<Item>): Message
    requires MessageOk(m)
    decreases |items|
  {
    if items == [] then m else AddAll(AddLine(m, size, items[0].id, items[0].value), size, items[1..])
  }

  ghost predicate Distinct(items: seq<Item>) {
    && (forall i | 0 <= i < |items| :: items[i].id < HDR_NUM)
    && (forall i, j | 0 <= i < j < |items| :: items[i].id != items[j].id)
  }

  /** None of the items is present yet; seen through only where LookInside is mentioned. */
  ghost predicate NonePresent(m: Message, items: seq<Item>) {
    forall x: int :: LookInside(x) ==>
      MessageOk(m) && Distinct(items) && forall i | 0 <= i < |items| :: !Present(m, items[i].id)
  }

  /** What AddAll leaves in the buffer; seen through only where LookInside is mentioned. */
  ghost predicate AddsUpTo(m: Message, size: nat, items: seq<Item>, text: string) {
    forall x: int :: LookInside(x) ==> MessageOk(m) && AddAll(m, size, items).text == text
  }

  lemma NextIsAbsent(m: Message, size: nat, items: seq<Item>) returns (next: Message)
    requires NonePresent(m, items) && items != [] && |m.text| + |Line(items[0].id, items[0].value)| < size
    ensures NonePresent(next, items[1..]) && next.text == m.text + Line(items[0].id, items[0].value)
    ensures forall text :: AddsUpTo(next, size, items[1..], text) ==> AddsUpTo(m, size, items, text)
  {
    assert LookInside(0);
    var it := items[0];
    next := AddLine(m, size, it.id, it.value);
    AbsentIsAccepted(m, size, it.id, it.value);
    forall i | 0 <= i < |items[1..]|
      ensures !Present(next, items[1..][i].id)
    {
      PresentAfterAdd(m, size, it.id, it.value, items[i + 1].id);
    }
  }

  lemma {:induction false} AbsentAreBuilt(m: Message, size: nat, items: seq<Item>)
    requires NonePresent(m, items) && |m.text| + |Build(items)| < size
    ensures AddsUpTo(m, size, items, m.text + Build(items))
    decreases |items|
  {
    if items == [] {
      assert LookInside(0);
      assert m.text + "" == m.text;
    } else {
      var next := NextIsAbsent(m, size, items);
      AbsentAreBuilt(next, size, items[1..]);
      assert next.text + Build(items[1..]) == m.text + Build(items);
    }
  }

  /** Every one of the items is accepted when its turn comes. */
  predicate AllAccepted(m: Message, size: nat, items: seq<Item>)
    requires MessageOk(m)
    decreases |items|
  {
    items == [] ||
    (Accepts(m, size, items[0].id, items[0].value) &&
        AllAccepted(AddLine(m, size, items[0].id, items[0].value), size, items[1..]))
  }

  /** A message never gets longer than the lines offered, and is that long only if all are taken. */
  lemma {:induction false} LengthShowsAcceptance(m: Message, size: nat, items: seq<Item>)
    requires MessageOk(m)
    ensures |AddAll(m, size, items).text| <= |m.text| + |Build(items)|
    ensures |AddAll(m, size, items).text| == |m.text| + |Build(items)| <==> AllAccepted(m, size, items)
    decreases |items|
  {
    if items != [] {
      LengthShowsAcceptance(AddLine(m, size, items[0].id, items[0].value), size, items[1..]);
    }
  }

  /** Headers with distinct ids are all accepted, in whatever order they come, and the buffer holds
      exactly their lines. */
  lemma DistinctAreBuilt(size: nat, items: seq<Item>)
    requires Distinct(items) && |Build(items)| < size
    ensures AddAll(EMPTY, size, items).text == Build(items) && AllAccepted(EMPTY, size, items)
  {
    LengthShowsAcceptance(EMPTY, size, items);
    assert forall i | 0 <= i < |items| :: !Present(EMPTY, items[i].id);
    AbsentAreBuilt(EMPTY, size, items);
    assert LookInside(0);
    assert "" + Build(items) == Build(items);
  }

  // ---------------------------------------------------------------- the builder object

  /** i16_t */
  function Signed16(v: int): (r: int)
    requires 0 <= v < 0x1_0000
    ensures -0x8000 <= r < 0x8000 && (r - v) % 0x1_0000 == 0
  {
    if v < 0x8000 then v else v - 0x1_0000
  }

  class HttpObject {
    const objBuf: array<char>
    var dataLen: nat
    const status: array<bv8>
    const hdrSet: array<int>
    const hdrLenSet: array<int>

    ghost predicate Valid()
      reads this, status
    {
      && dataLen <= objBuf.Length
      && status.Length == 2
      && hdrSet.Length == HDR_NUM && hdrLenSet.Length == HDR_NUM && hdrSet != hdrLenSet
      && MessageOk(Message("", status[..]))
    }

    ghost function State(): Message
      requires Valid()
      reads this, objBuf, status
    {
      Message(objBuf[..dataLen], status[..])
    }

    /** The object for a buffer that http_object_create settles on. */
    constructor (buf: array<char>)
      requires buf.Length > HO_MIN_BUF_SZ
      ensures Valid() && State() == EMPTY && objBuf == buf
      ensures fresh(status) && fresh(hdrSet) && fresh(hdrLenSet)
    {
      objBuf := buf;
      dataLen := 0;
      status := new bv8[2](_ => 0);
      hdrSet := new int[HDR_NUM](_ => -1);
      hdrLenSet := new int[HDR_NUM](_ => 0);
      new;
      assert status[..] == [0, 0];
    }

    /** http_object_create.  A buffer of the caller's has to be above the limit; without one a small size
        is replaced by the default, and of all sizes the limit itself is refused. */
    static method Create(own: array?<char>, bufSz: nat) returns (obj: HttpObject?)
      requires own != null ==> own.Length == bufSz
      ensures obj == null <==> bufSz == 64 || (own != null && bufSz < 64)
      ensures obj != null ==>
                && fresh(obj) && fresh(obj.status) && fresh(obj.hdrSet) && fresh(obj.hdrLenSet)
                && obj.Valid() && obj.State() == EMPTY
                && (if own != null then obj.objBuf == own else fresh(obj.objBuf))
                && obj.objBuf.Length == if bufSz < 64 then 2048 else bufSz
    {
      if own != null {
        if bufSz > HO_MIN_BUF_SZ {
          obj := new HttpObject(own);
        } else {
          obj := null;
        }
      } else if bufSz == HO_MIN_BUF_SZ {
        obj := null;
      } else {
        var size := if bufSz < HO_MIN_BUF_SZ then HO_DFT_BUF_SZ else bufSz;
        var buf := new char[size](_ => '\0');
        obj := new HttpObject(buf);
      }
    }

    /** http_object_reset */
    method Reset()
      requires Valid()
      modifies this`dataLen, objBuf, status, hdrSet, hdrLenSet
      ensures Valid() && State() == EMPTY
      ensures forall i | 0 <= i < HDR_NUM :: hdrSet[i] == -1 && hdrLenSet[i] == 0
    {
      forall i | 0 <= i < dataLen { objBuf[i] := '\0'; }
      dataLen := 0;
      forall i | 0 <= i < HDR_NUM { hdrSet[i] := -1; }
      forall i | 0 <= i < HDR_NUM { hdrLenSet[i] := 0; }
      forall i | 0 <= i < 2 { status[i] := 0; }
      assert status[..] == [0, 0];
    }

    /** memcpy behind what is there */
    method Append(bytes: string)
      requires dataLen + |bytes| <= objBuf.Length
      modifies this`dataLen, objBuf
      ensures dataLen == old(dataLen) + |bytes|
      ensures objBuf[..dataLen] == old(objBuf[..dataLen]) + bytes
    {
      forall i | 0 <= i < |bytes| { objBuf[dataLen + i] := bytes[i]; }
      dataLen := dataLen + |bytes|;
    }

    /** Lines 166 to 177: prefix, value and line end, and where the value is. */
    method StoreLine(id: nat, prefix: string, header: string)
      requires hdrSet.Length == HDR_NUM && hdrLenSet.Length == HDR_NUM && hdrSet != hdrLenSet
      requires id < HDR_NUM && |header| < 0x1_0000 && dataLen + |prefix| + |header| + 2 <= objBuf.Length
      modifies this`dataLen, objBuf, hdrSet, hdrLenSet
      ensures dataLen == old(dataLen) + |prefix| + |header| + 2
      ensures objBuf[..dataLen] == old(objBuf[..dataLen]) + (prefix + header + CRLF)
      ensures hdrLenSet[id] == Signed16(|header|) && hdrSet[id] == old(dataLen) + |prefix|
      ensures objBuf[hdrSet[id]..hdrSet[id] + |header|] == header
      ensures forall i | 0 <= i < HDR_NUM && i != id :: hdrSet[i] == old(hdrSet[i]) && hdrLenSet[i] == old(hdrLenSet[i])
    {
      ghost var before := objBuf[..dataLen];
      Append(prefix);
      hdrSet[id] := dataLen;
      hdrLenSet[id] := Signed16(|header|);
      Append(header);
      ghost var end := dataLen;
      assert objBuf[..end] == before + prefix + header;
      Append(CRLF);
      assert objBuf[..end] == objBuf[..dataLen][..end];
      assert objBuf[hdrSet[id]..end] == objBuf[..end][hdrSet[id]..];
    }

    /** http_object_add_header */
    method AddHeader(id: nat, header: string) returns (result: Status)
      requires Valid() && |header| < 0x1_0000
      modifies this`dataLen, objBuf, status, hdrSet, hdrLenSet
      ensures Valid()
      ensures State() == AddLine(old(State()), objBuf.Length, id, header)
      ensures result == Ok <==> Accepts(old(State()), objBuf.Length, id, header)
      ensures result == Ok ==>
                && hdrLenSet[id] == Signed16(|header|)
                && 0 <= hdrSet[id] && hdrSet[id] + |header| <= dataLen
                && objBuf[hdrSet[id]..hdrSet[id] + |header|] == header
      ensures forall i | 0 <= i < HDR_NUM && (i != id || result == Err) ::
                hdrSet[i] == old(hdrSet[i]) && hdrLenSet[i] == old(hdrLenSet[i])
    {
      if id >= HDR_NUM {
        return Err;
      }
      if BitValue(status[id / 8], id % 8) == 1 {
        return Err;
      }
      var prefix := Prefix(id);
      if dataLen + |header| + 2 + |prefix| >= objBuf.Length {
        return Err;
      }
      StoreLine(id, prefix, header);
      assert id == 8 || id == 9 || id / 8 == 0;
      status[id / 8] := SetBit(status[id / 8], id % 8);
      return Ok;
    }
  }
}
