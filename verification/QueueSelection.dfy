/** How an event's source address picks a worker queue (f1g_server.c). */
module QueueSelection {
  type int8 = c: int | -128 <= c < 128
  type uint32 = w: int | 0 <= w < 0x1_0000_0000

  /** The hash before wrap-around: the bytes as digits in base 32, most significant first. */
  function Digits(key: seq<int8>): int {
    if key == [] then 0 else Digits(key[..|key| - 1]) * 32 + key[|key| - 1]
  }

  function Wrap32(x: int): (w: uint32)
    ensures exists k: int :: x == k * 0x1_0000_0000 + w
  {
    var w := x % 0x1_0000_0000;
    assert x == (x / 0x1_0000_0000) * 0x1_0000_0000 + w;
    w
  }

  lemma WrapStep(x: int, c: int)
    ensures Wrap32(Wrap32(Wrap32(x) * 32) + c) == Wrap32(x * 32 + c)
  {
    var q := x / 0x1_0000_0000;
    var y := Wrap32(x) * 32;
    assert x * 32 + c == y + c + (q * 32) * 0x1_0000_0000;
    var p := y / 0x1_0000_0000;
    assert y + c == Wrap32(y) + c + p * 0x1_0000_0000;
    WrapShift(Wrap32(y) + c, p);
    WrapShift(y + c, q * 32);
  }

  lemma WrapShift(x: int, k: int)
    ensures Wrap32(x + k * 0x1_0000_0000) == Wrap32(x)
  {
    var q, w := x / 0x1_0000_0000, x % 0x1_0000_0000;
    assert x + k * 0x1_0000_0000 == (q + k) * 0x1_0000_0000 + w;
    RemainderUnique(x + k * 0x1_0000_0000, q + k, w);
  }

  lemma RemainderUnique(x: int, q: int, w: int)
    requires 0 <= w < 0x1_0000_0000 && x == q * 0x1_0000_0000 + w
    ensures x % 0x1_0000_0000 == w
  {
  }

  /** dig_hash: the per-byte wrap-around of unsigned arithmetic amounts to one wrap at the end. */
  method DigHash(key: seq<int8>) returns (val: uint32)
    ensures val == Wrap32(Digits(key))
  {
    val := 0;
    for i := 0 to |key|
      invariant val == Wrap32(Digits(key[..i]))
    {
      assert key[..i + 1][..i] == key[..i];
      WrapStep(Digits(key[..i]), key[i]);
      val := Wrap32(Wrap32(val * 32) + key[i]);
    }
    assert key[..|key|] == key;
  }

  /** The bytes of an address in memory, lowest first, read as signed characters. */
  function AddressBytes(ip: uint32): (bytes: seq<int8>)
    ensures |bytes| == 4
  {
    [Signed(ip % 0x100), Signed(ip / 0x100 % 0x100), Signed(ip / 0x1_0000 % 0x100), Signed(ip / 0x100_0000 % 0x100)]
  }

  function Signed(b: int): int8
    requires 0 <= b < 256
  {
    if b < 128 then b else b - 256
  }

  function SelQue(ip: uint32, queNum: nat): (sel: nat)
    requires queNum > 0
    ensures sel < queNum
  {
    Wrap32(Digits(AddressBytes(ip))) % queNum
  }

  /** sel_que_by_ip: a queue index that exists and depends on the address alone. */
  method SelQueByIp(ip: uint32, queNum: nat) returns (sel: nat)
    requires 0 < queNum < 0x8000_0000
    ensures sel < queNum && sel == SelQue(ip, queNum)
  {
    var h := DigHash(AddressBytes(ip));
    sel := h % queNum;
  }

  lemma BytesOfAddress(ip: uint32, b0: int, b1: int, b2: int, b3: int)
    requires 0 <= b0 < 256 && 0 <= b1 < 256 && 0 <= b2 < 256 && 0 <= b3 < 256
    requires ip == b0 + 0x100 * b1 + 0x1_0000 * b2 + 0x100_0000 * b3
    ensures ip % 0x100 == b0 && ip / 0x100 % 0x100 == b1 && ip / 0x1_0000 % 0x100 == b2
    ensures ip / 0x100_0000 % 0x100 == b3
  {
    assert ip / 0x100 == b1 + 0x100 * (b2 + 0x100 * b3);
    assert ip / 0x1_0000 == b2 + 0x100 * b3;
    assert ip / 0x100_0000 == b3;
  }

  lemma FourDigits(c0: int8, c1: int8, c2: int8, c3: int8)
    ensures Digits([c0, c1, c2, c3]) == 32768 * c0 + 1024 * c1 + 32 * c2 + c3
  {
    var key := [c0, c1, c2, c3];
    assert key[..3] == [c0, c1, c2] && key[..3][..2] == [c0, c1] && [c0, c1][..1] == [c0] && [c0][..0] == [];
    assert Digits([c0]) == c0;
    assert Digits([c0, c1]) == 32 * c0 + c1;
    assert Digits([c0, c1, c2]) == 1024 * c0 + 32 * c1 + c2;
  }

  lemma SameByte(b: int, c: int8)
    requires 0 <= b < 256 && (b - c) % 256 == 0
    ensures Signed(b) == c
  {
  }

  /** The queue of an address that is stored as the bytes `b0` to `b3`, read as the signed characters
      `c0` to `c3`: the first one counts most. */
  lemma QueueOfAddress(b0: int, b1: int, b2: int, b3: int, c0: int8, c1: int8, c2: int8, c3: int8, queNum: nat)
    requires 0 <= b0 < 256 && 0 <= b1 < 256 && 0 <= b2 < 256 && 0 <= b3 < 256 && queNum > 0
    requires (b0 - c0) % 256 == 0 && (b1 - c1) % 256 == 0 && (b2 - c2) % 256 == 0 && (b3 - c3) % 256 == 0
    ensures SelQue(b0 + 0x100 * b1 + 0x1_0000 * b2 + 0x100_0000 * b3, queNum) ==
            (32768 * c0 + 1024 * c1 + 32 * c2 + c3) % 0x1_0000_0000 % queNum
  {
    var ip: uint32 := b0 + 0x100 * b1 + 0x1_0000 * b2 + 0x100_0000 * b3;
    BytesOfAddress(ip, b0, b1, b2, b3);
    SameByte(b0, c0);
    SameByte(b1, c1);
    SameByte(b2, c2);
    SameByte(b3, c3);
    FourDigits(c0, c1, c2, c3);
    assert AddressBytes(ip) == [c0, c1, c2, c3];
  }
}
