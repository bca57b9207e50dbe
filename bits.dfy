/** Integer helpers shared by the rbyd decoder: Python's clamping
    slices, the padded little-endian word read, bitwise exclusive or on
    naturals, and the bit count whose low bit is the per-tag parity.
    Python's integers are unbounded and so are Dafny's; the 32-bit
    registers of the decoder are naturals below 2^32. */
module Bits {

  /** A byte as Python sees one: an integer below 256. */
  type byte = x: int | 0 <= x < 0x100

  function Min(a: nat, b: nat): nat {
    if a <= b then a else b
  }

  /** Python's `data[a:b]` for `a <= b`: both ends clamp to the length. */
  function Slice(data: seq<byte>, a: nat, b: nat): (r: seq<byte>)
    requires a <= b
  {
    if a >= |data| then [] else if b >= |data| then data[a..] else data[a..b]
  }

  /** Python's `data[a:]`. */
  function Drop(data: seq<byte>, a: nat): (r: seq<byte>)
  {
    if a >= |data| then [] else data[a..]
  }

  /** Byte `k` of `s`, or the zero that `ljust(4, b'\0')` pads with. */
  function PaddedByte(s: seq<byte>, k: nat): byte {
    if k < |s| then s[k] else 0
  }

  /** `struct.unpack('<I', s.ljust(4, b'\0'))`: a little-endian word
      whose missing high bytes read as zero. */
  function LeU32(s: seq<byte>): (r: nat)
    ensures r < 0x1_0000_0000
  {
    PaddedByte(s, 0) + 0x100 * PaddedByte(s, 1) + 0x1_0000 * PaddedByte(s, 2) + 0x100_0000 * PaddedByte(s, 3)
  }

  /** The four bytes a writer stores for a 32-bit `w`, low byte first. */
  function LeBytes(w: nat): (r: seq<byte>)
    requires w < 0x1_0000_0000
    ensures |r| == 4
  {
    [w % 0x100, (w / 0x100) % 0x100, (w / 0x1_0000) % 0x100, w / 0x100_0000]
  }

  /** Reading back the stored little-endian bytes gives the word. */
  lemma LeU32OfLeBytes(w: nat)
    requires w < 0x1_0000_0000
    ensures LeU32(LeBytes(w)) == w
  {
    var s := LeBytes(w);
    assert PaddedByte(s, 0) == w % 0x100;
    assert PaddedByte(s, 1) == (w / 0x100) % 0x100;
    assert PaddedByte(s, 2) == (w / 0x1_0000) % 0x100;
    assert PaddedByte(s, 3) == w / 0x100_0000;
  }

  /** `a ^ b` on naturals, bit by bit from the low end. */
  function Xor(a: nat, b: nat): nat
    decreases a + b
  {
    if a == 0 then b
    else if b == 0 then a
    else (a % 2 + b % 2) % 2 + 2 * Xor(a / 2, b / 2)
  }

  /** Exclusive or with the same value twice is the identity. */
  lemma {:induction false} XorXor(a: nat, b: nat)
    ensures Xor(Xor(a, b), b) == a
    decreases a + b
  {
    var x := Xor(a, b);
    if a == 0 {
      XorSelf(b);
    } else if b != 0 {
      if x == 0 {
        XorSelfZero(a, b);
      } else {
        XorHalves(a, b);
        XorXor(a / 2, b / 2);
        assert Xor(x, b) == (x % 2 + b % 2) % 2 + 2 * Xor(x / 2, b / 2);
        LowBitBack(a % 2, b % 2);
      }
    }
  }

  lemma LowBitBack(p: nat, q: nat)
    requires p < 2 && q < 2
    ensures ((p + q) % 2 + q) % 2 == p
  {
  }

  lemma {:induction false} XorSelf(a: nat)
    ensures Xor(a, a) == 0
    decreases a
  {
    if a != 0 {
      XorSelf(a / 2);
    }
  }

  /** A zero exclusive or means equal operands. */
  lemma {:induction false} XorSelfZero(a: nat, b: nat)
    requires Xor(a, b) == 0
    ensures a == b
    decreases a + b
  {
    if a != 0 && b != 0 {
      XorSelfZero(a / 2, b / 2);
    }
  }

  /** The low bit and the upper bits of an exclusive or. */
  lemma XorHalves(a: nat, b: nat)
    requires a != 0 && b != 0
    ensures Xor(a, b) % 2 == (a % 2 + b % 2) % 2
    ensures Xor(a, b) / 2 == Xor(a / 2, b / 2)
  {
  }

  /** 2^k. */
  function Pow2(k: nat): (r: nat)
    ensures r >= 1
  {
    if k == 0 then 1 else 2 * Pow2(k - 1)
  }

  /** Exclusive or of two k-bit values is a k-bit value. */
  lemma {:induction false} XorBound(a: nat, b: nat, k: nat)
    requires a < Pow2(k) && b < Pow2(k)
    ensures Xor(a, b) < Pow2(k)
    decreases k
  {
    if a != 0 && b != 0 {
      XorBound(a / 2, b / 2, k - 1);
    }
  }

  lemma {:induction false} Pow2Add(i: nat, k: nat)
    ensures Pow2(i + k) == Pow2(i) * Pow2(k)
    decreases i
  {
    if i > 0 {
      Pow2Add(i - 1, k);
    }
  }

  lemma Pow2Of32()
    ensures Pow2(32) == 0x1_0000_0000
  {
    assert Pow2(4) == 16;
    Pow2Add(4, 4);
    Pow2Add(8, 8);
    Pow2Add(16, 16);
  }

  lemma XorBound32(a: nat, b: nat)
    requires a < 0x1_0000_0000 && b < 0x1_0000_0000
    ensures Xor(a, b) < 0x1_0000_0000
  {
    Pow2Of32();
    XorBound(a, b, 32);
  }

  /** `bin(x).count('1')`: the number of set bits of `x`. */
  function Popc(x: nat): (r: nat)
    ensures r <= x
    ensures r == 0 <==> x == 0
  {
    if x == 0 then 0 else x % 2 + Popc(x / 2)
  }

  /** A `k`-bit value has at most `k` set bits. */
  lemma {:induction false} PopcBound(x: nat, k: nat)
    requires x < Pow2(k)
    ensures Popc(x) <= k
    decreases k
  {
    if x > 0 {
      PopcBound(x / 2, k - 1);
    }
  }

  /** `popc(x) & 1`: the parity every tag's stored bit must match. */
  function Parity(x: nat): (r: nat)
    ensures r < 2
  {
    Popc(x) % 2
  }
}
