/** The ones'-complement checksums of f1g_net_forge.c against section 1 of RFC 1071: `sum` is a signed
    32-bit accumulator that is folded only at the end. */
module Checksum {
  import opened Common

  newtype i32 = x: int | -0x8000_0000 <= x < 0x8000_0000
  newtype u16 = x: int | 0 <= x < 0x1_0000

  const M := 65535

  // ---------------------------------------------------------------- the two sums

  /** A word as a little-endian machine loads it. */
  function Word(lo: byte, hi: byte): (r: nat)
    ensures r <= M
  {
    lo + 256 * hi
  }

  /** The plain sum of the 16-bit words; a last odd byte is a word of its own. */
  function Sum(s: seq<byte>): (r: nat)
    ensures 2 * r <= M * |s| + M && (|s| % 2 == 0 ==> 2 * r <= M * |s|)
    ensures |s| < 0x1_0000 ==> r < 0x8000_0000
  {
    if |s| == 0 then 0 else if |s| == 1 then s[0] else Word(s[0], s[1]) + Sum(s[2..])
  }

  /** Ones'-complement addition of two words: the carry comes back at the other end. */
  function Plus(a: nat, b: nat): (r: nat)
    requires a <= M && b <= M
    ensures r <= M
  {
    if a + b > M then a + b - M else a + b
  }

  /** The sum of RFC 1071, section 1: every word is added with its end-around carry. */
  function OnesSum(s: seq<byte>): (r: nat)
    ensures r <= M
  {
    if |s| == 0 then 0 else if |s| == 1 then s[0] else Plus(Word(s[0], s[1]), OnesSum(s[2..]))
  }

  function Checksum(s: seq<byte>): (r: nat)
    ensures r <= M
  {
    M - OnesSum(s)
  }

  /** Lines 37 to 39: two folds, and the cut to 16 bits. */
  function Fold(sum: nat): nat {
    var once := sum / 65536 + sum % 65536;
    (once + once / 65536) % 65536
  }

  // ---------------------------------------------------------------- congruence

  /** Congruent modulo 65535, and zero together; seen through only where LookInside is mentioned. */
  ghost predicate Alike(x: nat, y: nat) {
    forall z: int :: LookInside(z) ==> x % M == y % M && (x == 0 <==> y == 0)
  }

  lemma AlikePlus(x: nat, y: nat, u: nat, v: nat, p: nat, q: nat)
    requires Alike(x, y) && Alike(u, v) && p == x + u && q == y + v
    ensures Alike(p, q)
  {
    assert LookInside(0);
    PlusMod(x, u);
    PlusMod(y, v);
  }

  lemma PlusMod(x: nat, u: nat)
    ensures (x + u) % M == (x % M + u % M) % M
  {
    assert x + u == x % M + u % M + M * (x / M + u / M);
  }

  lemma AlikeMoved(x: nat, y: nat, k: int)
    requires x == y + M * k && (x == 0 <==> y == 0)
    ensures Alike(x, y)
  {
  }

  lemma AlikeTrans(x: nat, y: nat, z: nat)
    requires Alike(x, y) && (Alike(y, z) || Alike(z, y))
    ensures Alike(x, z) && Alike(y, x)
  {
    assert LookInside(0);
  }

  /** A word that stands for a sum: there is exactly one. */
  ghost predicate StandsFor(f: nat, sum: nat) {
    f <= M && Alike(f, sum)
  }

  lemma StandsForOne(f: nat, g: nat, sum: nat, other: nat)
    requires StandsFor(f, sum) && StandsFor(g, other)
    ensures f == g <==> Alike(sum, other)
  {
    assert LookInside(0);
  }

  lemma FoldStandsFor(sum: nat)
    requires sum < 0x8000_0000
    ensures StandsFor(Fold(sum), sum)
  {
    var hi, lo := sum / 65536, sum % 65536;
    var once := hi + lo;
    if once >= 65536 {
      assert once / 65536 == 1;
      AlikeMoved(Fold(sum), sum, -hi - 1);
    } else {
      AlikeMoved(Fold(sum), sum, -hi);
    }
  }

  lemma {:induction false} OnesSumStandsFor(s: seq<byte>)
    ensures StandsFor(OnesSum(s), Sum(s))
  {
    if |s| <= 1 {
      AlikeMoved(OnesSum(s), Sum(s), 0);
    } else {
      OnesSumStandsFor(s[2..]);
      PlusStandsFor(Word(s[0], s[1]), OnesSum(s[2..]), Sum(s[2..]));
    }
  }

  lemma PlusStandsFor(w: nat, f: nat, sum: nat)
    requires w <= M && StandsFor(f, sum)
    ensures StandsFor(Plus(w, f), w + sum)
  {
    AlikeMoved(w, w, 0);
    AlikePlus(w, w, f, sum, w + f, w + sum);
    AlikeMoved(Plus(w, f), w + f, if w + f > M then -1 else 0);
    AlikeTrans(Plus(w, f), w + f, w + sum);
  }

  /** Adding first and folding twice at the end is ones'-complement addition word by word, for every
      length that fits 16 bits. */
  lemma TwoFoldsSuffice(s: seq<byte>)
    requires |s| < 0x1_0000
    ensures Fold(Sum(s)) == OnesSum(s)
  {
    FoldStandsFor(Sum(s));
    OnesSumStandsFor(s);
    AlikeMoved(Sum(s), Sum(s), 0);
    StandsForOne(Fold(Sum(s)), OnesSum(s), Sum(s), Sum(s));
  }

  /** Which data a checksum of 0 certifies. */
  lemma ZeroChecksum(s: seq<byte>)
    ensures Checksum(s) == 0 <==> Sum(s) != 0 && Sum(s) % M == 0
  {
    OnesSumStandsFor(s);
    FullWord(OnesSum(s), Sum(s));
  }

  lemma FullWord(f: nat, sum: nat)
    requires StandsFor(f, sum)
    ensures f == M <==> sum != 0 && sum % M == 0
  {
    assert LookInside(0);
  }

  // ---------------------------------------------------------------- concatenation

  lemma {:induction false} SumConcat(a: seq<byte>, b: seq<byte>)
    requires |a| % 2 == 0
    ensures Sum(a + b) == Sum(a) + Sum(b)
  {
    if a == [] {
      assert a + b == b;
    } else {
      assert (a + b)[2..] == a[2..] + b;
      SumConcat(a[2..], b);
    }
  }

  /** Behind an odd number of bytes every byte of `b` changes its place in its word. */
  lemma {:induction false} OddConcat(a: seq<byte>, b: seq<byte>)
    requires |a| % 2 == 1
    ensures Alike(Sum(a + b), Sum(a) + 256 * Sum(b))
  {
    if |a| > 1 {
      var w := Word(a[0], a[1]);
      assert (a + b)[2..] == a[2..] + b;
      OddConcat(a[2..], b);
      AlikeMoved(w, w, 0);
      AlikePlus(w, w, Sum(a[2..] + b), Sum(a[2..]) + 256 * Sum(b), Sum(a + b), Sum(a) + 256 * Sum(b));
    } else {
      Shifted(a[0], b);
      assert a + b == [a[0]] + b;
    }
  }

  lemma {:induction false} Shifted(x: byte, b: seq<byte>)
    ensures Alike(Sum([x] + b), x + 256 * Sum(b))
    decreases |b|
  {
    var s := [x] + b;
    if |b| <= 1 {
      assert |b| == 1 ==> s[2..] == [];
      AlikeMoved(Sum(s), x + 256 * Sum(b), 0);
    } else {
      assert s[2..] == [b[1]] + b[2..];
      Shifted(b[1], b[2..]);
      ShiftedWord(x, b[0], b[1], Sum(b[2..]), Sum(s[2..]), Sum(s), x + 256 * Sum(b));
    }
  }

  lemma ShiftedWord(x: byte, b0: byte, b1: byte, r: nat, t: nat, whole: nat, shifted: nat)
    requires Alike(t, b1 + 256 * r)
    requires whole == Word(x, b0) + t && shifted == x + 256 * (Word(b0, b1) + r)
    ensures Alike(whole, shifted)
  {
    var w, y, carry: int := Word(x, b0), b1 + 256 * r, b1;
    AlikeMoved(w, w, 0);
    AlikePlus(w, w, t, y, whole, w + y);
    AlikeMoved(w + y, shifted, -carry);
    AlikeTrans(whole, w + y, shifted);
  }

  /** Folding chk_sum2(a) + chk_sum2(b) gives the checksum of `a` followed by `b` exactly when `a` has
      even length, or the sum of `b` does not feel a swap of its bytes. */
  lemma PartialSumsCompose(a: seq<byte>, b: seq<byte>, parts: nat)
    requires |a| + |b| < 0x1_0000 && parts == Sum(a) + Sum(b)
    ensures M - Fold(parts) == Checksum(a + b) <==> |a| % 2 == 0 || Sum(b) % 257 == 0
  {
    var whole := Sum(a + b);
    FoldsAgree(a, b, parts, whole);
    PartsAndWhole(a, b, parts, whole);
  }

  lemma PartsAndWhole(a: seq<byte>, b: seq<byte>, parts: nat, whole: nat)
    requires parts == Sum(a) + Sum(b) && whole == Sum(a + b)
    ensures Alike(parts, whole) <==> |a| % 2 == 0 || Sum(b) % 257 == 0
  {
    if |a| % 2 == 0 {
      SumConcat(a, b);
      AlikeMoved(parts, whole, 0);
    } else {
      OddConcat(a, b);
      SwapIsFelt(Sum(a), Sum(b), parts, whole);
    }
  }

  lemma FewBytes(x: byte, y: byte, z: byte)
    ensures Sum([x]) == x && Sum([y, z]) == Word(y, z) && OnesSum([x, y, z]) == Plus(Word(x, y), z)
  {
    assert [y, z][2..] == [] && [x, y, z][2..] == [z];
  }

  /** Concretely: behind one byte, the partial sums of [0] and [1, 0] do not give the checksum. */
  lemma OddPartsDiffer()
    ensures M - Fold(Sum([0]) + Sum([1, 0])) == 65534 && Checksum([0] + [1, 0]) == 65279
  {
    FewBytes(0, 1, 0);
    assert [0] + [1, 0] == [0, 1, 0];
  }

  lemma FoldsAgree(a: seq<byte>, b: seq<byte>, parts: nat, whole: nat)
    requires |a| + |b| < 0x1_0000 && parts == Sum(a) + Sum(b) && whole == Sum(a + b)
    ensures M - Fold(parts) == Checksum(a + b) <==> Alike(parts, whole)
  {
    SumsFit(a, b);
    FoldStandsFor(parts);
    OnesSumStandsFor(a + b);
    StandsForOne(Fold(parts), OnesSum(a + b), parts, whole);
  }

  lemma SumsFit(a: seq<byte>, b: seq<byte>)
    requires |a| + |b| < 0x1_0000
    ensures Sum(a) + Sum(b) < 0x8000_0000
  {
    if |a| % 2 == 1 && |b| % 2 == 1 {
      OddSum(a);
      OddSum(b);
    }
  }

  lemma {:induction false} OddSum(s: seq<byte>)
    requires |s| % 2 == 1
    ensures 2 * Sum(s) <= M * (|s| - 1) + 510
  {
    if |s| > 1 {
      OddSum(s[2..]);
    }
  }

  lemma SwapIsFelt(x: nat, y: nat, t: nat, z: nat)
    requires Alike(z, x + 256 * y) && t == x + y
    ensures Alike(t, z) <==> y % 257 == 0
  {
    assert LookInside(0);
    var q, r := y / 257, y % 257;
    assert x + 256 * y == t + (M * q + 255 * r);
    SmallStep(t, q, 255 * r);
  }

  lemma SmallStep(t: nat, q: nat, d: nat)
    requires d < M
    ensures (t + (M * q + d)) % M == t % M <==> d == 0
  {
    assert t + (M * q + d) == t % M + d + M * (q + t / M);
  }

  // ---------------------------------------------------------------- byte order

  function Swapped(s: seq<byte>): seq<byte> {
    if |s| <= 1 then s else [s[1], s[0]] + Swapped(s[2..])
  }

  /** RFC 1071, section 2 (B): on even-length data a machine of the other byte order computes the same
      checksum bytes. */
  lemma ByteOrderIndependent(s: seq<byte>)
    requires |s| % 2 == 0
    ensures Checksum(Swapped(s)) == Checksum(s) % 256 * 256 + Checksum(s) / 256
  {
    SwappedSum(s);
    OnesSumStandsFor(s);
    OnesSumStandsFor(Swapped(s));
    var f := OnesSum(s);
    SwapWord(f, Sum(s));
    StandsForOne(OnesSum(Swapped(s)), f % 256 * 256 + f / 256, Sum(Swapped(s)), 256 * Sum(s));
    SwapComplement(f);
  }

  lemma SwapComplement(f: nat)
    requires f <= M
    ensures M - (f % 256 * 256 + f / 256) == (M - f) % 256 * 256 + (M - f) / 256
  {
    assert M - f == (255 - f / 256) * 256 + (255 - f % 256);
  }

  lemma SwapWord(f: nat, sum: nat)
    requires StandsFor(f, sum)
    ensures StandsFor(f % 256 * 256 + f / 256, 256 * sum)
  {
    var g := f % 256 * 256 + f / 256;
    AlikeMoved(g, 256 * f, -(f / 256));
    Alike256(f, sum);
    AlikeTrans(g, 256 * f, 256 * sum);
  }

  lemma Alike256(x: nat, y: nat)
    requires Alike(x, y)
    ensures Alike(256 * x, 256 * y)
  {
    assert LookInside(0);
    AlikeMoved(256 * x, 256 * y, 256 * (x / M - y / M));
  }

  lemma {:induction false} SwappedSum(s: seq<byte>)
    requires |s| % 2 == 0
    ensures Alike(Sum(Swapped(s)), 256 * Sum(s))
  {
    if s == [] {
      AlikeMoved(Sum(Swapped(s)), 256 * Sum(s), 0);
    } else {
      var t, w, v := Swapped(s), Word(s[0], s[1]), Word(s[1], s[0]);
      assert t[2..] == Swapped(s[2..]);
      SwappedSum(s[2..]);
      var carry: int := s[1];
      AlikeMoved(v, 256 * w, -carry);
      AlikePlus(v, 256 * w, Sum(t[2..]), 256 * Sum(s[2..]), Sum(t), 256 * Sum(s));
    }
  }

  // ---------------------------------------------------------------- a checksum in its place

  /** The 16-bit word at index `at` set to `w`, low byte first. */
  function WithWord(s: seq<byte>, at: nat, w: nat): (r: seq<byte>)
    requires at + 1 < |s| && w <= M
    ensures |r| == |s|
  {
    s[at := w % 256][at + 1 := w / 256]
  }

  lemma {:induction false} SumWithWord(s: seq<byte>, at: nat, w: nat)
    requires at % 2 == 0 && at + 1 < |s| && w <= M
    ensures Sum(WithWord(s, at, w)) == Sum(WithWord(s, at, 0)) + w
  {
    var a, b := WithWord(s, at, w), WithWord(s, at, 0);
    assert w == w % 256 + 256 * (w / 256);
    if at == 0 {
      assert a[2..] == b[2..];
    } else {
      assert a[2..] == WithWord(s[2..], at - 2, w) && b[2..] == WithWord(s[2..], at - 2, 0);
      SumWithWord(s[2..], at - 2, w);
    }
  }

  /** A header whose zeroed checksum word is filled with the checksum has checksum 0: RFC 791,
      section 3.1. */
  lemma FilledHeaderVerifies(s: seq<byte>, at: nat)
    requires at % 2 == 0 && at + 1 < |s|
    ensures Checksum(WithWord(s, at, Checksum(WithWord(s, at, 0)))) == 0
  {
    var zeroed := WithWord(s, at, 0);
    OnesSumStandsFor(zeroed);
    SumWithWord(s, at, Checksum(zeroed));
    CancelsOut(Sum(zeroed), OnesSum(zeroed));
    ZeroChecksum(WithWord(s, at, Checksum(zeroed)));
  }

  lemma CancelsOut(sum: nat, f: nat)
    requires StandsFor(f, sum)
    ensures sum + (M - f) != 0 && (sum + (M - f)) % M == 0
  {
    assert LookInside(0);
  }

  // ---------------------------------------------------------------- the operations

  lemma SumFront(s: seq<byte>, w: nat)
    requires w + 1 < |s|
    ensures Sum(s[w..]) == Word(s[w], s[w + 1]) + Sum(s[w + 2..])
  {
    assert s[w..][2..] == s[w + 2..];
  }

  /** *w */
  method Load(addr: array<byte>, w: nat) returns (x: i32)
    requires w + 1 < addr.Length
    ensures x as int == Word(addr[w], addr[w + 1])
  {
    x := addr[w] as i32 + 256 * addr[w + 1] as i32;
  }

  /** Lines 27 to 35 and 55 to 63: the loop that both functions share.  No step leaves the range of
      the 32-bit accumulator. */
  method Accumulate(addr: array<byte>, len: u16) returns (sum: i32)
    requires len as int <= addr.Length
    ensures sum as int == Sum(addr[..len])
  {
    ghost var s := addr[..len];
    var w, nleft := 0, len as i32;
    sum := 0;
    while nleft > 1
      invariant 0 <= nleft && w + nleft as int == |s| && 0 <= w
      invariant 0 <= sum && sum as int + Sum(s[w..]) == Sum(s)
    {
      SumFront(s, w);
      var x := Load(addr, w);
      sum := sum + x;
      w, nleft := w + 2, nleft - 2;
    }
    if nleft == 1 {
      sum := sum + addr[w] as i32;
    }
  }

  method FoldTwice(total: i32) returns (sum: i32)
    requires 0 <= total
    ensures 0 <= sum && sum as int % 65536 == Fold(total as int)
  {
    sum := total / 65536 + total % 65536;
    sum := sum + sum / 65536;
  }

  /** answer = ~sum, cut to 16 bits */
  method Complement(sum: i32) returns (answer: u16)
    requires 0 <= sum
    ensures answer as int == M - sum as int % 65536
  {
    answer := (65535 - sum % 65536) as u16;
  }

  /** chk_sum */
  method ChkSum(addr: array?<byte>, len: u16) returns (answer: u16)
    requires addr != null ==> len as int <= addr.Length
    ensures answer as int == if addr == null then M else Checksum(addr[..len])
  {
    if addr == null {
      return 65535;
    }
    var sum := Accumulate(addr, len);
    sum := FoldTwice(sum);
    answer := Complement(sum);
    TwoFoldsSuffice(addr[..len]);
  }

  /** chk_sum2 */
  method ChkSum2(addr: array?<byte>, len: u16) returns (sum: i32)
    requires addr != null ==> len as int <= addr.Length
    ensures sum as int == if addr == null then -1 else Sum(addr[..len])
  {
    if addr == null {
      return -1;
    }
    sum := Accumulate(addr, len);
  }

  /** Lines 107 to 117: the check word of the IP header is zero, then filled. */
  method FillIpCheck(hdr: array<byte>, at: nat)
    requires at % 2 == 0 && at + 1 < hdr.Length < 0x1_0000
    modifies hdr
    ensures Checksum(hdr[..]) == 0
    ensures forall i | 0 <= i < hdr.Length && i != at && i != at + 1 :: hdr[i] == old(hdr[i])
  {
    ghost var s := hdr[..];
    hdr[at], hdr[at + 1] := 0, 0;
    assert hdr[..] == WithWord(s, at, 0);
    assert hdr[..hdr.Length] == hdr[..];
    var check := ChkSum(hdr, hdr.Length as u16);
    hdr[at], hdr[at + 1] := (check % 256) as byte, (check / 256) as byte;
    assert hdr[..] == WithWord(s, at, check as int);
    FilledHeaderVerifies(s, at);
  }

  // ---------------------------------------------------------------- TCP

  /** What the pseudo header of RFC 793, section 3.1, holds. */
  datatype Addresses = Addresses(src: seq<byte>, dst: seq<byte>, proto: byte, length: u16) {
    predicate Ok() {
      |src| == 4 && |dst| == 4
    }
  }

  /** As the standard has it: 12 bytes. */
  function PseudoHeader(a: Addresses): (r: seq<byte>)
    requires a.Ok()
    ensures |r| == 12
  {
    a.src + a.dst + [0, a.proto] + [(a.length / 256) as byte, (a.length % 256) as byte]
  }

  /** As psuedo_hdr_t has it: two bytes of padding in front of a 32-bit length.  No line of the code
      sets the padding, so it is a parameter. */
  function StructBytes(a: Addresses, pad: (byte, byte)): (r: seq<byte>)
    requires a.Ok()
    ensures |r| == 16
  {
    a.src + a.dst + [0, a.proto] + [pad.0, pad.1] + [(a.length / 256) as byte, (a.length % 256) as byte, 0, 0]
  }

  lemma StructSum(a: Addresses, pad: (byte, byte))
    requires a.Ok()
    ensures Sum(StructBytes(a, pad)) == Sum(PseudoHeader(a)) + (pad.0 + 256 * pad.1)
  {
    var hi, lo := (a.length / 256) as byte, (a.length % 256) as byte;
    var front := a.src + a.dst + [0, a.proto];
    assert StructBytes(a, pad) == front + ([pad.0, pad.1] + [hi, lo, 0, 0]);
    SumConcat(front, [pad.0, pad.1] + [hi, lo, 0, 0]);
    SumConcat([pad.0, pad.1], [hi, lo, 0, 0]);
    SumConcat(front, [hi, lo]);
    TwoWords(hi, lo);
  }

  lemma TwoWords(x: byte, y: byte)
    ensures Sum([x, y, 0, 0]) == Sum([x, y])
  {
    assert [x, y, 0, 0][2..] == [0, 0] && [0, 0][2..] == [] && [x, y][2..] == [];
  }

  /** As numbers in network byte order: the standard sums the halves of the two addresses, the protocol and the
      length, and the struct the padding too. */
  lemma PseudoHeaderWords(a: Addresses, pad: (byte, byte), src: int, dst: int)
    requires a.Ok()
    requires src == 0x100_0000 * a.src[0] as int + 0x1_0000 * a.src[1] as int + 0x100 * a.src[2] as int + a.src[3]
    requires dst == 0x100_0000 * a.dst[0] as int + 0x1_0000 * a.dst[1] as int + 0x100 * a.dst[2] as int + a.dst[3]
    ensures Sum(Swapped(PseudoHeader(a))) ==
            src / 0x1_0000 + src % 0x1_0000 + dst / 0x1_0000 + dst % 0x1_0000 + a.proto + a.length as int
    ensures Sum(Swapped(StructBytes(a, pad))) == Sum(Swapped(PseudoHeader(a))) + 0x100 * pad.0 as int + pad.1
  {
    var hi, lo := (a.length / 256) as byte, (a.length % 256) as byte;
    var front := a.src + a.dst + [0, a.proto];
    NetworkFour(a.src, src);
    NetworkFour(a.dst, dst);
    NetworkTwo(0, a.proto);
    NetworkTwo(hi, lo);
    NetworkConcat(a.src, a.dst);
    NetworkConcat(a.src + a.dst, [0, a.proto]);
    NetworkConcat(front, [hi, lo]);
    PaddedWords(front, pad, hi, lo);
    assert StructBytes(a, pad) == front + [pad.0, pad.1] + [hi, lo] + [0, 0];
  }

  lemma PaddedWords(front: seq<byte>, pad: (byte, byte), hi: byte, lo: byte)
    requires |front| == 10
    ensures Sum(Swapped(front + [pad.0, pad.1] + [hi, lo] + [0, 0])) ==
            Sum(Swapped(front)) + (256 * pad.0 as int + pad.1) + Sum(Swapped([hi, lo]))
  {
    NetworkTwo(pad.0, pad.1);
    NetworkTwo(0, 0);
    NetworkConcat(front, [pad.0, pad.1]);
    NetworkConcat(front + [pad.0, pad.1], [hi, lo]);
    NetworkConcat(front + [pad.0, pad.1] + [hi, lo], [0, 0]);
  }

  lemma NetworkTwo(x: byte, y: byte)
    ensures Sum(Swapped([x, y])) == 256 * x as int + y
  {
    assert [x, y][2..] == [] && Swapped([x, y]) == [y, x] && [y, x][2..] == [];
  }

  lemma NetworkFour(s: seq<byte>, n: int)
    requires |s| == 4 && n == 0x100_0000 * s[0] as int + 0x1_0000 * s[1] as int + 0x100 * s[2] as int + s[3]
    ensures Sum(Swapped(s)) == n / 0x1_0000 + n % 0x1_0000
  {
    assert s == [s[0], s[1]] + [s[2], s[3]];
    NetworkConcat([s[0], s[1]], [s[2], s[3]]);
    NetworkTwo(s[0], s[1]);
    NetworkTwo(s[2], s[3]);
    HalvesOf(n, 256 * s[0] as int + s[1], 256 * s[2] as int + s[3]);
  }

  lemma HalvesOf(n: int, hi: int, lo: int)
    requires n == 0x1_0000 * hi + lo && 0 <= lo < 0x1_0000
    ensures n / 0x1_0000 == hi && n % 0x1_0000 == lo
  {
  }

  lemma {:induction false} NetworkConcat(x: seq<byte>, y: seq<byte>)
    requires |x| % 2 == 0
    ensures Sum(Swapped(x + y)) == Sum(Swapped(x)) + Sum(Swapped(y))
  {
    if x == [] {
      assert x + y == y;
    } else {
      assert (x + y)[2..] == x[2..] + y;
      NetworkConcat(x[2..], y);
      assert Swapped(x + y)[2..] == Swapped(x[2..] + y) && Swapped(x)[2..] == Swapped(x[2..]);
    }
  }

  /** What tcp_chk_sum answers: two sums that are complemented already are added and complemented
      again, so the answer stands for the sum itself and not for its complement. */
  function TcpAnswer(s: nat, t: nat): (r: nat)
    ensures r <= M && r % M == (s + t) % M
  {
    if s != 0 && t != 0 && s % M == 0 && t % M == 0 then M else (s + t) % M
  }

  lemma TwiceComplemented(s: nat, t: nat, f: nat, g: nat)
    requires StandsFor(f, s) && StandsFor(g, t)
    ensures M - Fold((M - f) + (M - g)) == TcpAnswer(s, t)
  {
    FoldStandsFor((M - f) + (M - g));
    ComplementOfComplements(f, g, Fold((M - f) + (M - g)));
    AnswerOf(f, g, s, t);
  }

  lemma AnswerOf(f: nat, g: nat, s: nat, t: nat)
    requires StandsFor(f, s) && StandsFor(g, t)
    ensures (if f == M && g == M then M else (f + g) % M) == TcpAnswer(s, t)
  {
    AlikePlus(f, s, g, t, f + g, s + t);
    FullWord(f, s);
    FullWord(g, t);
    assert LookInside(0);
  }

  lemma ComplementOfComplements(f: nat, g: nat, h: nat)
    requires f <= M && g <= M && StandsFor(h, (M - f) + (M - g))
    ensures M - h == if f == M && g == M then M else (f + g) % M
  {
    assert LookInside(0);
    var x := (M - f) + (M - g);
    assert h == if x == 0 then 0 else if x <= M then x else if x < 2 * M then x - M else M;
  }

  /** tcp_chk_sum; a missing packet counts as an empty one. */
  method TcpChkSum(a: Addresses, packet: array?<byte>, pad: (byte, byte)) returns (answer: u16)
    requires a.Ok() && (packet != null ==> a.length as int <= packet.Length)
    ensures answer as int == TcpAnswer(Sum(StructBytes(a, pad)), if packet == null then 0 else Sum(packet[..a.length]))
  {
    var bytes := StructBytes(a, pad);
    var psdHdr := new byte[16](i requires 0 <= i < 16 => bytes[i]);
    assert psdHdr[..16] == bytes;
    var first := ChkSum(psdHdr, 16);
    var second := ChkSum(packet, a.length);
    var sum := first as i32 + second as i32;
    sum := FoldTwice(sum);
    answer := Complement(sum);
    ghost var data: seq<byte> := if packet == null then [] else packet[..a.length];
    OnesSumStandsFor(bytes);
    OnesSumStandsFor(data);
    TwiceComplemented(Sum(bytes), Sum(data), OnesSum(bytes), OnesSum(data));
  }

  /** How a receiver checks a segment. */
  predicate Accepted(a: Addresses, segment: seq<byte>)
    requires a.Ok()
  {
    Checksum(PseudoHeader(a) + segment) == 0
  }

  /** A segment whose zeroed check word is filled with the answer of tcp_chk_sum passes exactly when
      twice its sum, plus the padding, is a multiple of 65535; a sum of zero never passes. */
  lemma TcpSegmentAccepted(a: Addresses, pad: (byte, byte), s: seq<byte>, at: nat)
    requires a.Ok() && at % 2 == 0 && at + 1 < |s|
    ensures
      var zeroed := WithWord(s, at, 0);
      var sum := Sum(PseudoHeader(a)) + Sum(zeroed);
      Accepted(a, WithWord(s, at, TcpAnswer(Sum(StructBytes(a, pad)), Sum(zeroed)))) <==>
        sum != 0 && (2 * sum + (pad.0 + 256 * pad.1)) % M == 0
  {
    var zeroed := WithWord(s, at, 0);
    var answer := TcpAnswer(Sum(StructBytes(a, pad)), Sum(zeroed));
    var filled := WithWord(s, at, answer);
    var sum, p := Sum(PseudoHeader(a)) + Sum(zeroed), pad.0 + 256 * pad.1;
    StructSum(a, pad);
    SumWithWord(s, at, answer);
    SumConcat(PseudoHeader(a), filled);
    ZeroChecksum(PseudoHeader(a) + filled);
    AnswerAdded(sum, p, Sum(StructBytes(a, pad)), Sum(zeroed), answer);
  }

  lemma AnswerAdded(sum: nat, p: nat, x: nat, y: nat, answer: nat)
    requires x + y == sum + p && answer == TcpAnswer(x, y) && p <= M
    ensures sum + answer != 0 && (sum + answer) % M == 0 <==> sum != 0 && (2 * sum + p) % M == 0
  {
    MovedMod(sum + answer, 2 * sum + p, answer / M - (sum + p) / M);
    if sum == 0 {
      SmallAnswer(x, y);
    }
  }

  lemma MovedMod(a: nat, b: nat, k: int)
    requires a == b + M * k
    ensures a % M == b % M
  {
  }

  lemma SmallAnswer(x: nat, y: nat)
    requires x + y <= M
    ensures TcpAnswer(x, y) < M
  {
  }

  lemma {:induction false} ZerosSum(n: nat)
    ensures Sum(seq(n, _ => 0)) == 0
  {
    var s: seq<byte> := seq(n, _ => 0);
    if n > 1 {
      assert s[2..] == seq(n - 2, _ => 0);
      ZerosSum(n - 2);
    }
  }

  /** Concretely: a TCP header of zeros between zero addresses, with its check word at 16 filled by
      tcp_chk_sum, is rejected when the padding happens to be zero. */
  lemma SegmentIsRejected()
    ensures
      var a, s: seq<byte> := Addresses([0, 0, 0, 0], [0, 0, 0, 0], 6, 20), seq(20, _ => 0);
      !Accepted(a, WithWord(s, 16, TcpAnswer(Sum(StructBytes(a, (0, 0))), Sum(s))))
  {
    var a, s: seq<byte> := Addresses([0, 0, 0, 0], [0, 0, 0, 0], 6, 20), seq(20, _ => 0);
    assert WithWord(s, 16, 0) == s;
    ZerosSum(20);
    var front, back: seq<byte> := seq(8, _ => 0), [0, 6, 0, 20];
    assert PseudoHeader(a) == front + back;
    ZerosSum(8);
    SumConcat(front, back);
    assert back[2..] == [0, 20] && back[2..][2..] == [];
    assert Sum(PseudoHeader(a)) == 6656;
    TcpSegmentAccepted(a, (0, 0), s, 16);
  }

  /** With padding that happens to be zero, only segments whose proper checksum is zero pass. */
  lemma ZeroPadding(a: Addresses, s: seq<byte>, at: nat)
    requires a.Ok() && at % 2 == 0 && at + 1 < |s|
    ensures
      var zeroed := WithWord(s, at, 0);
      Accepted(a, WithWord(s, at, TcpAnswer(Sum(StructBytes(a, (0, 0))), Sum(zeroed)))) <==>
        Checksum(PseudoHeader(a) + zeroed) == 0
  {
    var zeroed := WithWord(s, at, 0);
    TcpSegmentAccepted(a, (0, 0), s, at);
    SumConcat(PseudoHeader(a), zeroed);
    ZeroChecksum(PseudoHeader(a) + zeroed);
    Halve(Sum(PseudoHeader(a)) + Sum(zeroed));
  }

  lemma Halve(x: nat)
    ensures 2 * x % M == 0 <==> x % M == 0
  {
    var r := x % M;
    assert 2 * x == 2 * r + M * (2 * (x / M));
  }

  /** The checksum that the standard asks for makes every segment pass. */
  lemma StandardSegmentAccepted(a: Addresses, s: seq<byte>, at: nat)
    requires a.Ok() && at % 2 == 0 && at + 1 < |s|
    ensures Accepted(a, WithWord(s, at, Checksum(PseudoHeader(a) + WithWord(s, at, 0))))
  {
    var h := PseudoHeader(a);
    var check := Checksum(h + WithWord(s, at, 0));
    assert WithWord(h + s, 12 + at, 0) == h + WithWord(s, at, 0);
    assert WithWord(h + s, 12 + at, check) == h + WithWord(s, at, check);
    FilledHeaderVerifies(h + s, 12 + at);
  }
}
