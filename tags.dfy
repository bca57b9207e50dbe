/** Tag headers and their classification, as `fromtag` and `tagrepr` in
    scripts/dbgrbyd.py read them. A tag header is two varints: the tag
    word, whose low bit is the parity bit, and the size. The low seven
    bits of the tag are its type, bits 7..14 a subtype and bits 15..30 an
    id; `tagrepr` names the tag from these fields. Here the name is a
    datatype instead of a string. */
module Tags {
  import opened Bits
  import opened Leb128

  datatype Option<T> = None | Some(value: T)

  /** `fromtag(data)`: parity bit, tag, size, and header length. */
  datatype TagHeader = TagHeader(parity: nat, tag: nat, size: nat, delta: nat)

  /** `word & 1`: the parity bit stored in the low bit of a raw tag word. */
  function LowBit(w: nat): (r: nat)
    ensures r < 2
  {
    w % 2
  }

  /** `word >> 1`: the tag proper, without its parity bit. */
  function Untag(w: nat): (r: nat)
    requires w < Modulus
    ensures r < 0x8000_0000
  {
    w / 2
  }

  /** `fromtag(data)`. */
  function FromTag(data: seq<byte>): (r: TagHeader)
    ensures r.delta <= |data|
    ensures r.delta == 0 <==> |data| == 0
    ensures r.parity < 2 && r.tag < 0x8000_0000 && r.size < Modulus
  {
    var t := Decode(data);
    var s := Decode(Drop(data, t.len));
    TagHeader(LowBit(t.value), Untag(t.value), s.value, t.len + s.len)
  }

  /** The bytes a writer stores for a tag header. */
  function EncodeTag(parity: nat, tag: nat, size: nat): seq<byte>
    requires parity < 2
  {
    Encode(Retag(parity, tag)) + Encode(size)
  }

  /** The raw tag word: the tag shifted up past the parity bit. */
  function Retag(parity: nat, tag: nat): nat
    requires parity < 2
  {
    2 * tag + parity
  }

  /** Reading a stored tag header back gives its parity, tag and size,
      and the header's length, whatever bytes follow it. */
  lemma FromTagEncodeTag(parity: nat, tag: nat, size: nat, rest: seq<byte>)
    requires parity < 2 && tag < 0x8000_0000 && size < Modulus
    ensures FromTag(EncodeTag(parity, tag, size) + rest)
         == TagHeader(parity, tag, size, |EncodeTag(parity, tag, size)|)
  {
    var a := Encode(Retag(parity, tag));
    var b := Encode(size);
    var data := EncodeTag(parity, tag, size) + rest;
    assert data == a + (b + rest);
    DecodeEncode(Retag(parity, tag), b + rest);
    assert Drop(data, |a|) == b + rest;
    DecodeEncode(size, rest);
  }

  /** `tag & 0x7f`, `(tag >> 7) & 0xff` and `(tag >> 15) & 0xffff`. */
  function Type1(tag: nat): nat { tag % 0x80 }
  function Type2(tag: nat): nat { (tag / 0x80) % 0x100 }
  function Id(tag: nat): nat { (tag / 0x8000) % 0x1_0000 }

  /** The three fields hold all of a tag's bits. */
  lemma TagFields(tag: nat)
    requires tag < 0x8000_0000
    ensures Type1(tag) + Type2(tag) * 0x80 + Id(tag) * 0x8000 == tag
  {
    var q1 := tag / 0x80;
    var q2 := q1 / 0x100;
    assert tag == Type1(tag) + 0x80 * q1;
    assert q1 == Type2(tag) + 0x100 * q2;
    assert tag / 0x8000 == q2;
  }

  /** The four kinds of tag that belong to an id. */
  datatype EntryKind = Create | Delete | Struct | UAttr

  /** What `tagrepr` shows for a tag. The size of a weak (`~`) tag is
      not shown, so it is `None` here. */
  datatype TagView =
    | Entry(kind: EntryKind, weak: bool, type2: nat, id: nat, shown: Option<nat>)
    | Tail(weak: bool, type2: nat, shown: Option<nat>)
    | GState(weak: bool, type2: nat, shown: Option<nat>)
    | CrcTag(crcKind: nat, type2: nat, size: nat)
    | Fcrc(type2: nat, size: nat)
    | Alt(red: bool, gt: bool, key: nat, target: nat)
    | Other(type1: nat, type2: nat, id: nat, size: nat)

  /** `type1 & 0x7e`: the type without its weak bit. */
  function Family(tag: nat): nat { Type1(tag) / 2 * 2 }

  /** `type1 & 0x1`: a weak (`~`) tag. */
  predicate Weak(tag: nat) { tag % 2 == 1 }

  /** The size as shown: only for tags that are not weak. */
  function Shown(tag: nat, size: nat): (r: Option<nat>)
    ensures r.None? <==> Weak(tag)
  {
    if Weak(tag) then None else Some(size)
  }

  /** `0xffffffff & (off - size)`: where an alt at `off` points. */
  function AltTarget(off: nat, size: nat): (r: nat)
    ensures r < Modulus
    ensures (r + size - off) % Modulus == 0
  {
    (off - size) % Modulus
  }

  /** `tagrepr(tag, size, off)`, the branches tried in the same order. */
  function Classify(tag: nat, size: nat, off: nat): (r: TagView)
    ensures r.Alt? ==> r.key % 8 == 0 && r.key <= tag < r.key + 8
    ensures r.Alt? ==> r.target < Modulus && (r.target + size - off) % Modulus == 0
    ensures r.Other? ==> !IsAlt(tag) && !IsCrc(tag) && r.type1 == Type1(tag)
  {
    var f := Family(tag);
    if f == 0x40 then Entry(Create, Weak(tag), Type2(tag), Id(tag), Shown(tag, size))
    else if f == 0x48 then Entry(Delete, Weak(tag), Type2(tag), Id(tag), Shown(tag, size))
    else if f == 0x50 then Entry(Struct, Weak(tag), Type2(tag), Id(tag), Shown(tag, size))
    else if f == 0x60 then Entry(UAttr, Weak(tag), Type2(tag), Id(tag), Shown(tag, size))
    else if f == 0x08 then Tail(Weak(tag), Type2(tag), Shown(tag, size))
    else if f == 0x10 then GState(Weak(tag), Type2(tag), Shown(tag, size))
    else if f == 0x02 then CrcTag(CrcKind(tag), Type2(tag), size)
    else if Type1(tag) == 0x0a then Fcrc(Type2(tag), size)
    else if IsAlt(tag) then Alt(Red(tag), Gt(tag), AltKey(tag), AltTarget(off, size))
    else Other(Type1(tag), Type2(tag), Id(tag), size)
  }

  /** `type1 >> 3`, the crc tag's kind. */
  function CrcKind(tag: nat): nat { Type1(tag) / 8 }

  /** `tag & 0x4`: an alt (a branch of the tree) rather than a record. */
  predicate IsAlt(tag: nat) { (tag / 4) % 2 == 1 }

  /** `(tag & 0x7e) == 0x2`: a checksum that seals a commit. */
  predicate IsCrc(tag: nat) { Family(tag) == 0x02 }

  /** `type1 & 1` and `type1 & 2` of an alt: its colour and direction. */
  predicate Red(tag: nat) { tag % 2 == 1 }
  predicate Gt(tag: nat) { (tag / 2) % 2 == 1 }

  /** `tag & ~0x7`: the key an alt compares against. */
  function AltKey(tag: nat): (r: nat)
    ensures r % 8 == 0 && r <= tag < r + 8
  {
    tag - tag % 8
  }

  /** None of the families tried before the alt branch has bit 2 set. */
  lemma FamiliesClearBit2(tag: nat)
    ensures Family(tag) in {0x40, 0x48, 0x50, 0x60, 0x08, 0x10, 0x02} ==> !IsAlt(tag)
    ensures Type1(tag) == 0x0a ==> !IsAlt(tag)
  {
    Bit2OfType1(tag);
  }

  /** Bit 2 of a tag is bit 2 of its type. */
  lemma Bit2OfType1(tag: nat)
    ensures IsAlt(tag) <==> (Type1(tag) / 4) % 2 == 1
  {
    var q := tag / 0x80;
    var r := Type1(tag);
    assert tag == 0x80 * q + r;
    assert r == 4 * (r / 4) + r % 4;
    assert tag == 4 * (0x20 * q + r / 4) + r % 4;
    assert tag / 4 == 0x20 * q + r / 4;
    assert (0x20 * q + r / 4) % 2 == (r / 4) % 2;
  }

  /** A crc tag is never an alt. */
  lemma CrcNotAlt(tag: nat)
    ensures IsCrc(tag) ==> !IsAlt(tag)
  {
    FamiliesClearBit2(tag);
  }

  /** How the tag walks treat a tag: an alt has a header only, a crc
      tag's payload is a stored checksum, and every other tag's payload
      is folded into the running checksum. */
  datatype StepKind = Branch | Seal | Record

  function KindOf(tag: nat): (k: StepKind)
    ensures k == Branch <==> IsAlt(tag)
    ensures k == Seal <==> IsCrc(tag)
  {
    CrcNotAlt(tag);
    if IsAlt(tag) then Branch else if IsCrc(tag) then Seal else Record
  }

  /** `tagrepr` names a tag an alt exactly when the tag walk treats it
      as one (`tag & 0x4`), so the two never disagree. */
  lemma ClassifyAlt(tag: nat, size: nat, off: nat)
    ensures Classify(tag, size, off).Alt? <==> IsAlt(tag)
  {
    FamiliesClearBit2(tag);
  }

  /** `tagrepr` names a tag a crc exactly when the tag walk checks a
      checksum for it. */
  lemma ClassifyCrc(tag: nat, size: nat, off: nat)
    ensures Classify(tag, size, off).CrcTag? <==> IsCrc(tag)
  {
  }

  /** Weak records (`~`) are shown without a size, the others with it. */
  lemma ClassifyWeak(tag: nat, size: nat, off: nat)
    ensures var v := Classify(tag, size, off);
      (v.Entry? || v.Tail? || v.GState?) ==> (v.shown == None <==> Weak(tag)) && (v.shown != None ==> v.shown.value == size)
  {
  }
}
