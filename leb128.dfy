/** The little-endian base-128 varint of `fromleb128` in
    scripts/dbgrbyd.py (the unsigned LEB128 of section 7.6 of DWARF
    version 4): seven payload bits per byte, least significant group
    first, the high bit of a byte set when another byte follows. The
    decoder keeps only the low 32 bits of the value, and a varint that
    runs off the end of the input consumes all of it.

    Values are integers here. Each payload group lands on bits no earlier
    group occupies, so OR-ing it in is adding it, and masking with
    0xffffffff is reducing modulo 2^32. */
module Leb128 {
  import opened Bits

  /** 2^32: `& 0xffffffff` keeps a value modulo this. */
  const Modulus: nat := 0x1_0000_0000

  /** A decoded varint: its 32-bit value and the number of bytes read. */
  datatype Leb = Leb(value: nat, len: nat)

  /** The high bit (0x80): another byte follows. */
  predicate Continues(b: byte) {
    b >= 0x80
  }

  /** `b & 0x7f`: the seven payload bits of a byte. */
  function Digit(b: byte): (r: nat)
    ensures r < 0x80
  {
    b % 0x80
  }

  /** 128^i, the weight of payload group `i` (`<< 7*i`). */
  function Weight(i: nat): (r: nat)
    ensures r >= 1
  {
    if i == 0 then 1 else 0x80 * Weight(i - 1)
  }

  /** The value of a varint's bytes by Horner's rule, most significant
      group innermost, reduced modulo 2^32 at every step. */
  function LebValue(s: seq<byte>): (r: nat)
    ensures r < Modulus
    decreases |s|
  {
    if |s| == 0 then 0 else (Digit(s[0]) + 0x80 * LebValue(s[1..])) % Modulus
  }

  /** How many bytes a varint at the start of `data` occupies: up to and
      including the first byte without the high bit, or all of `data`. */
  function LebLength(data: seq<byte>): (r: nat)
    ensures r <= |data|
    ensures r == 0 <==> |data| == 0
    decreases |data|
  {
    if |data| == 0 then 0
    else if !Continues(data[0]) then 1
    else 1 + LebLength(data[1..])
  }

  /** The varint ends at the first byte without the high bit: every byte
      before its last continues, and its last byte stops or is the last
      byte of the input. */
  lemma {:induction false} LebLengthStops(data: seq<byte>)
    ensures var r := LebLength(data);
      (forall k :: 0 <= k < r - 1 ==> Continues(data[k])) && (r == |data| || !Continues(data[r - 1]))
    decreases |data|
  {
    if |data| > 0 && Continues(data[0]) {
      LebLengthStops(data[1..]);
    }
  }

  /** `fromleb128(data)`. */
  function Decode(data: seq<byte>): (r: Leb)
    ensures r.len == LebLength(data) && r.value < Modulus
    ensures |data| == 0 ==> r == Leb(0, 0)
  {
    var n := LebLength(data);
    Leb(LebValue(data[..n]), n)
  }

  /** The four properties in `LebLength`'s contract pin the length down:
      any `n` with them is the length. */
  lemma {:induction false} LebLengthUnique(data: seq<byte>, n: nat)
    requires n <= |data|
    requires n == 0 <==> |data| == 0
    requires forall k :: 0 <= k < n - 1 ==> Continues(data[k])
    requires n == |data| || !Continues(data[n - 1])
    ensures LebLength(data) == n
    decreases n
  {
    if n > 1 {
      assert Continues(data[0]);
      LebLengthUnique(data[1..], n - 1);
    }
  }

  /** Adding a multiple of the modulus changes nothing modulo it. */
  lemma ModAddMultiple(u: int, q: int)
    ensures (u + q * Modulus) % Modulus == u % Modulus
  {
  }

  /** Reducing an inner term first changes nothing modulo 2^32. */
  lemma ModInner(a: int, c: int, x: int)
    ensures (a + c * (x % Modulus)) % Modulus == (a + c * x) % Modulus
  {
    var q := x / Modulus;
    assert x == q * Modulus + x % Modulus;
    assert a + c * x == a + c * (x % Modulus) + (c * q) * Modulus;
    ModAddMultiple(a + c * (x % Modulus), c * q);
  }

  /** Appending a byte adds its payload at its position: the Horner
      value agrees with the decoder's left-to-right accumulation. */
  lemma {:induction false} LebValueSnoc(p: seq<byte>, b: byte)
    ensures LebValue(p + [b]) == (LebValue(p) + Digit(b) * Weight(|p|)) % Modulus
    decreases |p|
  {
    if |p| == 0 {
      assert ([] + [b])[1..] == [];
      assert ([] + [b])[0] == b;
    } else {
      var d0 := Digit(p[0]);
      var v := LebValue(p[1..]);
      var e := Digit(b) * Weight(|p| - 1);
      assert (p + [b])[0] == p[0];
      assert (p + [b])[1..] == p[1..] + [b];
      LebValueSnoc(p[1..], b);
      HornerStep(d0, v, e);
      WeightStep(Digit(b), |p|);
    }
  }

  /** One Horner step commutes with adding a term one place further up. */
  lemma HornerStep(d0: int, v: int, e: int)
    ensures (d0 + 0x80 * ((v + e) % Modulus)) % Modulus
         == ((d0 + 0x80 * v) % Modulus + 0x80 * e) % Modulus
  {
    ModInner(d0, 0x80, v + e);
    ModInner(0x80 * e, 1, d0 + 0x80 * v);
    assert d0 + 0x80 * (v + e) == 0x80 * e + 1 * (d0 + 0x80 * v);
  }

  lemma WeightStep(d: nat, i: nat)
    requires i > 0
    ensures 0x80 * (d * Weight(i - 1)) == d * Weight(i)
  {
  }

  /** The first `|s|` groups of a varint occupy only the bits below
      group `|s|`: the next group's OR touches no bit already set. */
  lemma {:induction false} LebValueBelow(s: seq<byte>)
    ensures LebValue(s) < Weight(|s|)
    decreases |s|
  {
    if |s| > 0 {
      var rest := LebValue(s[1..]);
      LebValueBelow(s[1..]);
      assert Digit(s[0]) + 0x80 * rest < 0x80 * Weight(|s| - 1);
    }
  }

  /** `fromleb128(data)` as the loop it is. */
  method FromLeb128(data: seq<byte>) returns (value: nat, len: nat)
    ensures Leb(value, len) == Decode(data)
  {
    value := 0;
    var i := 0;
    while i < |data|
      invariant i <= |data|
      invariant value == LebValue(data[..i])
      // the bits read so far lie below group i, so adding the digit
      // at weight 128^i sets only clear bits, as the OR does
      invariant value < Weight(i)
      invariant forall k :: 0 <= k < i ==> Continues(data[k])
    {
      var b := data[i];
      LebValueSnoc(data[..i], b);
      assert data[..i + 1] == data[..i] + [b];
      LebValueBelow(data[..i + 1]);
      value := (value + Digit(b) * Weight(i)) % Modulus;
      if !Continues(b) {
        LebLengthUnique(data, i + 1);
        return value, i + 1;
      }
      i := i + 1;
    }
    LebLengthUnique(data, |data|);
    assert data[..|data|] == data;
    len := |data|;
  }

  /** The shortest encoding of a value, as a writer emits it. */
  function Encode(w: nat): (r: seq<byte>)
    ensures 1 <= |r|
  {
    if w < 0x80 then [w] else [w % 0x80 + 0x80] + Encode(w / 0x80)
  }

  /** Encoding then decoding gives a 32-bit value back, and the decoder
      stops exactly at the end of the encoding whatever follows it. */
  lemma DecodeEncode(w: nat, rest: seq<byte>)
    requires w < Modulus
    ensures Decode(Encode(w) + rest) == Leb(w, |Encode(w)|)
  {
    var e := Encode(w);
    EncodeLength(w, rest);
    assert (e + rest)[..|e|] == e;
    EncodeValue(w);
  }

  lemma {:induction false} EncodeLength(w: nat, rest: seq<byte>)
    ensures LebLength(Encode(w) + rest) == |Encode(w)|
  {
    var s := Encode(w) + rest;
    if w >= 0x80 {
      assert s[0] == w % 0x80 + 0x80;
      assert s[1..] == Encode(w / 0x80) + rest;
      EncodeLength(w / 0x80, rest);
    }
  }

  lemma {:induction false} EncodeValue(w: nat)
    requires w < Modulus
    ensures LebValue(Encode(w)) == w
  {
    var e := Encode(w);
    if w < 0x80 {
      assert e[1..] == [];
    } else {
      assert e[1..] == Encode(w / 0x80);
      EncodeValue(w / 0x80);
      assert Digit(e[0]) == w % 0x80;
    }
  }
}
