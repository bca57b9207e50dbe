/** CRC-32C (Castagnoli), the checksum of section 12.1 of RFC 3720,
    computed bit by bit over the reflected polynomial as `crc32c` in
    scripts/dbgrbyd.py does, on Python integers. The running checksum
    of an rbyd block is chained through this function, so the property
    everything else relies on is that checksumming `a + b` equals
    checksumming `b` starting from the checksum of `a`. */
module Castagnoli {
  import opened Bits

  /** The reversed Castagnoli polynomial. */
  const Poly: nat := 0x82f63b78

  /** All 32 bits set: the register is inverted on entry and on exit. */
  const Mask: nat := 0xffff_ffff

  /** One shift of the reflected register:
      `(crc >> 1) ^ ((crc & 1) * 0x82f63b78)`. */
  function CrcBit(c: nat): nat {
    Xor(c / 2, (c % 2) * Poly)
  }

  /** `n` shifts of the register. */
  function CrcBits(c: nat, n: nat): nat {
    if n == 0 then c else CrcBit(CrcBits(c, n - 1))
  }

  /** Folding one byte into the (already inverted) register. */
  function CrcByte(c: nat, b: byte): nat {
    CrcBits(Xor(c, b), 8)
  }

  /** Folding a byte string into the register, first byte first. */
  function Fold(c: nat, data: seq<byte>): nat
    decreases |data|
  {
    if |data| == 0 then c else Fold(CrcByte(c, data[0]), data[1..])
  }

  /** `crc32c(data, crc)`. */
  function Crc(data: seq<byte>, crc: nat): nat {
    Xor(Mask, Fold(Xor(crc, Mask), data))
  }

  lemma {:induction false} FoldAppend(s: nat, a: seq<byte>, b: seq<byte>)
    ensures Fold(s, a + b) == Fold(Fold(s, a), b)
    decreases |a|
  {
    if |a| == 0 {
      assert a + b == b;
    } else {
      assert (a + b)[0] == a[0];
      assert (a + b)[1..] == a[1..] + b;
      FoldAppend(CrcByte(s, a[0]), a[1..], b);
    }
  }

  lemma FoldOne(s: nat, b: byte)
    ensures Fold(s, [b]) == CrcByte(s, b)
  {
    assert [b][1..] == [];
  }

  lemma XorComm(a: nat, b: nat)
    ensures Xor(a, b) == Xor(b, a)
    decreases a + b
  {
    if a != 0 && b != 0 {
      XorComm(a / 2, b / 2);
    }
  }

  /** Checksumming in pieces: the running checksum of a block may be
      carried from one slice of the block to the next. */
  lemma CrcChain(a: seq<byte>, b: seq<byte>, c: nat)
    ensures Crc(a + b, c) == Crc(b, Crc(a, c))
  {
    var r := Fold(Xor(c, Mask), a);
    FoldAppend(Xor(c, Mask), a, b);
    XorComm(Mask, r);
    XorXor(r, Mask);
  }

  /** Folding nothing leaves the checksum unchanged. */
  lemma CrcEmpty(c: nat)
    ensures Crc([], c) == c
  {
    XorComm(Mask, Xor(c, Mask));
    XorXor(c, Mask);
  }

  /** The register stays a 32-bit value through every shift. */
  lemma {:induction false} CrcBitsBound(c: nat, n: nat)
    requires c < 0x1_0000_0000
    ensures CrcBits(c, n) < 0x1_0000_0000
  {
    if n > 0 {
      CrcBitsBound(c, n - 1);
      XorBound32(CrcBits(c, n - 1) / 2, (CrcBits(c, n - 1) % 2) * Poly);
    }
  }

  lemma {:induction false} FoldBound(s: nat, data: seq<byte>)
    requires s < 0x1_0000_0000
    ensures Fold(s, data) < 0x1_0000_0000
    decreases |data|
  {
    if |data| > 0 {
      XorBound32(s, data[0]);
      CrcBitsBound(Xor(s, data[0]), 8);
      FoldBound(CrcByte(s, data[0]), data[1..]);
    }
  }

  /** The checksum of a 32-bit seed is a 32-bit value. */
  lemma CrcBound(data: seq<byte>, c: nat)
    requires c < 0x1_0000_0000
    ensures Crc(data, c) < 0x1_0000_0000
  {
    XorBound32(c, Mask);
    FoldBound(Xor(c, Mask), data);
    XorBound32(Mask, Fold(Xor(c, Mask), data));
  }

  /** The eight-step inner loop of `crc32c` for one byte. */
  method FoldByte(crc0: nat, b: byte) returns (crc: nat)
    ensures crc == CrcByte(crc0, b)
  {
    crc := Xor(crc0, b);
    ghost var start := crc;
    for j := 0 to 8
      invariant crc == CrcBits(start, j)
    {
      crc := Xor(crc / 2, (crc % 2) * Poly);
    }
  }

  /** `crc32c(data, crc)` as the loop it is. */
  method Crc32c(data: seq<byte>, crc0: nat) returns (crc: nat)
    ensures crc == Crc(data, crc0)
  {
    crc := Xor(crc0, Mask);
    for i := 0 to |data|
      invariant crc == Fold(Xor(crc0, Mask), data[..i])
    {
      var b := data[i];
      ghost var before := crc;
      crc := FoldByte(crc, b);
      FoldAppend(Xor(crc0, Mask), data[..i], [b]);
      FoldOne(before, b);
      assert data[..i + 1] == data[..i] + [b];
    }
    assert data[..|data|] == data;
    crc := Xor(Mask, crc);
  }
}
