/** Byte codecs (util/coding.h, util/coding.cc) and checksums (util/crc32c.h).

    Unsigned machine words are naturals below their width; shifts and masks are divisions and remainders by powers
    of two. */
module Coding {
  import opened InternalKeys

  const TWO32: nat := 0x1_0000_0000
  const TWO64: nat := 0x1_0000_0000_0000_0000

  type Word32 = x: nat | x < 0x1_0000_0000
  type Word64 = x: nat | x < 0x1_0000_0000_0000_0000

  // --- Fixed-width little-endian integers ---

  function EncodeFixed(v: nat, n: nat): (b: Bytes)
    ensures |b| == n
  {
    if n == 0 then [] else [v % 256] + EncodeFixed(v / 256, n - 1)
  }

  function DecodeFixed(b: Bytes): nat {
    if b == [] then 0 else b[0] + 256 * DecodeFixed(b[1..])
  }

  function Pow256(n: nat): nat {
    if n == 0 then 1 else 256 * Pow256(n - 1)
  }

  function Pow2(n: nat): (r: nat)
    ensures r > 0
  {
    if n == 0 then 1 else 2 * Pow2(n - 1)
  }

  lemma {:induction false} FixedRoundTrip(v: nat, n: nat)
    requires v < Pow256(n)
    ensures DecodeFixed(EncodeFixed(v, n)) == v
  {
    if n > 0 {
      FixedRoundTrip(v / 256, n - 1);
      assert EncodeFixed(v, n)[1..] == EncodeFixed(v / 256, n - 1);
    }
  }

  lemma {:induction false} DecodeFixedBound(b: Bytes)
    ensures DecodeFixed(b) < Pow256(|b|)
  {
    if b != [] {
      DecodeFixedBound(b[1..]);
    }
  }

  function EncodeFixed32(v: Word32): Bytes { EncodeFixed(v, 4) }

  function EncodeFixed64(v: Word64): Bytes { EncodeFixed(v, 8) }

  lemma Fixed32RoundTrip(v: Word32)
    ensures DecodeFixed(EncodeFixed32(v)) == v
  {
    assert Pow256(4) == 256 * (256 * (256 * (256 * Pow256(0))));
    FixedRoundTrip(v, 4);
  }

  lemma Fixed64RoundTrip(v: Word64)
    ensures DecodeFixed(EncodeFixed64(v)) == v
  {
    assert Pow256(4) == TWO32;
    assert Pow256(8) == 256 * (256 * (256 * (256 * Pow256(4))));
    FixedRoundTrip(v, 8);
  }

  // The least significant byte comes first.
  lemma LittleEndian(b0: Byte, b1: Byte, b2: Byte, b3: Byte)
    ensures EncodeFixed32(b0 + 0x100 * b1 + 0x1_0000 * b2 + 0x100_0000 * b3) == [b0, b1, b2, b3]
  {
    var v := b0 + 0x100 * b1 + 0x1_0000 * b2 + 0x100_0000 * b3;
    assert v % 256 == b0 && v / 256 == b1 + 0x100 * b2 + 0x1_0000 * b3;
    assert EncodeFixed(b3, 1) == [b3];
    assert EncodeFixed(b2 + 0x100 * b3, 2) == [b2] + EncodeFixed(b3, 1);
    assert EncodeFixed(b1 + 0x100 * b2 + 0x1_0000 * b3, 3) == [b1] + EncodeFixed(b2 + 0x100 * b3, 2);
  }

  // --- Varints ---

  function EncodeVarint(v: nat): (b: Bytes)
    ensures b != []
  {
    if v < 128 then [v] else [v % 128 + 128] + EncodeVarint(v / 128)
  }

  datatype Parsed<+T> = Bad | Good(value: T, rest: Bytes)

  // At most n bytes, least significant group first.
  function ParseVarint(s: Bytes, n: nat): Parsed<nat> {
    if n == 0 || s == [] then Bad
    else if s[0] < 128 then Good(s[0], s[1..])
    else
      match ParseVarint(s[1..], n - 1)
      case Bad => Bad
      case Good(v, rest) => Good(s[0] - 128 + 128 * v, rest)
  }

  lemma {:induction false} ParseShrinks(s: Bytes, n: nat)
    ensures ParseVarint(s, n).Good? ==> |ParseVarint(s, n).rest| < |s|
    decreases n
  {
    if n > 0 && s != [] {
      ParseShrinks(s[1..], n - 1);
    }
  }

  function Zeros(n: nat): (b: Bytes)
    ensures |b| == n
  {
    seq(n, _ => 0)
  }

  // GetVarint32: five bytes at most, the value truncated to 32 bits.
  function GetVarint32(s: Bytes): Parsed<Word32> {
    match ParseVarint(s, 5)
    case Bad => Bad
    case Good(v, rest) => Good(v % TWO32, rest)
  }

  function GetVarint64(s: Bytes): Parsed<Word64> {
    match ParseVarint(s, 10)
    case Bad => Bad
    case Good(v, rest) => Good(v % TWO64, rest)
  }

  function Pow128(n: nat): nat {
    if n == 0 then 1 else 128 * Pow128(n - 1)
  }

  lemma Pow128Values()
    ensures Pow128(5) >= TWO32 && Pow128(10) >= TWO64
  {
    assert Pow128(2) == 0x4000;
    assert Pow128(4) == 128 * (128 * Pow128(2));
    assert Pow128(6) == 128 * (128 * Pow128(4));
    assert Pow128(8) == 128 * (128 * Pow128(6));
    assert Pow128(10) == 128 * (128 * Pow128(8));
  }

  lemma {:induction false} VarintRoundTrip(v: nat, n: nat, rest: Bytes)
    requires n > 0 && v < Pow128(n)
    ensures ParseVarint(EncodeVarint(v) + rest, n) == Good(v, rest)
    decreases n
  {
    var s := EncodeVarint(v) + rest;
    if v < 128 {
      assert s[1..] == rest;
    } else {
      NextGroup(v, n);
      VarintRoundTrip(v / 128, n - 1, rest);
      assert s[1..] == EncodeVarint(v / 128) + rest;
    }
  }

  lemma NextGroup(v: nat, n: nat)
    requires n > 0 && 128 <= v < Pow128(n)
    ensures n > 1 && v / 128 < Pow128(n - 1)
  {
  }

  lemma Truncated(s: Bytes, v: nat, rest: Bytes)
    ensures ParseVarint(s, 5) == Good(v, rest) && v < TWO32 ==> GetVarint32(s) == Good(v, rest)
    ensures ParseVarint(s, 10) == Good(v, rest) && v < TWO64 ==> GetVarint64(s) == Good(v, rest)
  {
  }

  lemma Varint32RoundTrip(v: Word32, rest: Bytes)
    ensures GetVarint32(EncodeVarint(v) + rest) == Good(v, rest)
  {
    Pow128Values();
    VarintRoundTrip(v, 5, rest);
    Truncated(EncodeVarint(v) + rest, v, rest);
  }

  lemma Varint64RoundTrip(v: Word64, rest: Bytes)
    ensures GetVarint64(EncodeVarint(v) + rest) == Good(v, rest)
  {
    Pow128Values();
    VarintRoundTrip(v, 10, rest);
    Truncated(EncodeVarint(v) + rest, v, rest);
  }

  // The loop of EncodeVarint64 (util/coding.cc 55-64).
  method PutVarint64(dst: Bytes, value: Word64) returns (out: Bytes)
    ensures out == dst + EncodeVarint(value)
  {
    out := dst;
    var v: nat := value;
    while v >= 128
      invariant out + EncodeVarint(v) == dst + EncodeVarint(value)
      decreases v
    {
      out := out + [v % 128 + 128];
      v := v / 128;
    }
    out := out + [v];
  }

  // The value of a run of 7-bit groups, least significant first.
  ghost function Groups(b: Bytes): nat {
    if b == [] then 0
    else
      var n := |b| - 1;
      Groups(b[..n]) + b[n] % 128 * Pow128(n)
  }

  lemma {:induction false} GroupsFront(a: Byte, b: Bytes)
    ensures Groups([a] + b) == a % 128 + 128 * Groups(b)
  {
    if b == [] {
      assert ([a] + b)[..0] == [];
    } else {
      var n := |b| - 1;
      GroupsFront(a, b[..n]);
      assert ([a] + b)[..n + 1] == [a] + b[..n];
      assert b[n] % 128 * Pow128(n + 1) == 128 * (b[n] % 128 * Pow128(n));
    }
  }

  lemma NoGroups()
    ensures Groups([]) == 0
  {
  }

  // One group more.
  lemma GroupsMore(b: Bytes, p: nat)
    requires p < |b|
    ensures Groups(b[..p + 1]) == Groups(b[..p]) + b[p] % 128 * Pow128(p)
    ensures Pow128(p + 1) == Pow128(p) * 128
  {
    hide Pow128;
    assert b[..p + 1][..p] == b[..p];
    PowerMore(p);
  }

  lemma PowerMore(p: nat)
    ensures Pow128(p + 1) == 128 * Pow128(p)
  {
  }

  lemma {:induction false} ParseIsGroups(s: Bytes, p: nat, n: nat)
    requires p < n && p < |s| && s[p] < 128 && forall i :: 0 <= i < p ==> s[i] >= 128
    ensures ParseVarint(s, n) == Good(Groups(s[..p + 1]), s[p + 1..])
    decreases p
  {
    hide Groups, Pow128;
    var t := s[1..];
    if p > 0 {
      ParseIsGroups(t, p - 1, n - 1);
      assert t[..p - 1 + 1] == s[1..p + 1] && t[p - 1 + 1..] == s[p + 1..];
    } else {
      assert t[..0] == [] && s[1..p + 1] == [];
      NoGroups();
    }
    GroupsFront(s[0], s[1..p + 1]);
    assert s[..p + 1] == [s[0]] + s[1..p + 1];
  }

  lemma {:induction false} ParseFails(s: Bytes, n: nat)
    requires forall i :: 0 <= i < |s| && i < n ==> s[i] >= 128
    ensures ParseVarint(s, n).Bad?
    decreases n
  {
    if n > 0 && s != [] {
      ParseFails(s[1..], n - 1);
    }
  }

  // The loop of GetVarint64Ptr and GetVarint32PtrFallback (util/coding.cc 79-96, 116-131): `limit` groups at most,
  // `scale` is 1 << shift.
  method ReadVarint(input: Bytes, limit: nat) returns (r: Parsed<nat>)
    ensures r == ParseVarint(input, limit)
  {
    hide Groups, ParseVarint;
    NoGroups();
    var p: nat, scale: nat, result: nat := 0, 1, 0;
    while p < limit && p < |input|
      invariant p <= |input| && p <= limit && scale == Pow128(p) && result == Groups(input[..p])
      invariant forall i :: 0 <= i < p ==> input[i] >= 128
    {
      var byte := input[p];
      GroupsMore(input, p);
      if byte < 128 {
        ParseIsGroups(input, p, limit);
        return Good(result + byte * scale, input[p + 1..]);
      }
      result := result + (byte - 128) * scale;
      scale := scale * 128;
      p := p + 1;
    }
    ParseFails(input, limit);
    return Bad;
  }

  // --- Length-prefixed slices ---

  function PutLengthPrefixed(value: Bytes): Bytes
  {
    EncodeVarint(|value|) + value
  }

  function GetLengthPrefixed(s: Bytes): Parsed<Bytes> {
    match GetVarint32(s)
    case Bad => Bad
    case Good(len, rest) => if |rest| >= len then Good(rest[..len], rest[len..]) else Bad
  }

  lemma LengthPrefixedRoundTrip(value: Bytes, rest: Bytes)
    requires |value| < TWO32
    ensures GetLengthPrefixed(PutLengthPrefixed(value) + rest) == Good(value, rest)
  {
    Varint32RoundTrip(|value|, value + rest);
    assert PutLengthPrefixed(value) + rest == EncodeVarint(|value|) + (value + rest);
  }

  // All bytes of a varint but the last announce another one, so that a varint cut short is not read.
  lemma {:induction false} VarintContinues(v: nat, i: nat)
    requires i + 1 < |EncodeVarint(v)|
    ensures EncodeVarint(v)[i] >= 128
    decreases v
  {
    if v >= 128 && i > 0 {
      VarintContinues(v / 128, i - 1);
      assert EncodeVarint(v)[i] == EncodeVarint(v / 128)[i - 1];
    }
  }

  lemma VarintCut(v: nat, c: nat, n: nat)
    requires c < |EncodeVarint(v)|
    ensures ParseVarint(EncodeVarint(v)[..c], n).Bad?
    ensures GetVarint32(EncodeVarint(v)[..c]).Bad? && GetVarint64(EncodeVarint(v)[..c]).Bad?
  {
    hide ParseVarint, EncodeVarint;
    forall i | 0 <= i < c ensures EncodeVarint(v)[..c][i] >= 128 {
      VarintContinues(v, i);
    }
    ParseFails(EncodeVarint(v)[..c], n);
    ParseFails(EncodeVarint(v)[..c], 5);
    ParseFails(EncodeVarint(v)[..c], 10);
  }

  lemma SliceCut(value: Bytes, c: nat)
    requires |value| < TWO32 && c < |PutLengthPrefixed(value)|
    ensures GetLengthPrefixed(PutLengthPrefixed(value)[..c]).Bad?
  {
    hide EncodeVarint, GetVarint32;
    var head := EncodeVarint(|value|);
    var s := PutLengthPrefixed(value)[..c];
    if c < |head| {
      assert s == head[..c];
      VarintCut(|value|, c, 5);
    } else {
      assert s == head + value[..c - |head|];
      Varint32RoundTrip(|value|, value[..c - |head|]);
    }
  }

  // --- CRC32C (section 12.1 of RFC 3720), one byte at a time ---

  function Xor(a: nat, b: nat): nat
    decreases a + b
  {
    if a == 0 && b == 0 then 0 else (a % 2 + b % 2) % 2 + 2 * Xor(a / 2, b / 2)
  }

  function CrcBit(x: nat): nat {
    if x % 2 == 1 then Xor(x / 2, 0x82F6_3B78) else x / 2
  }

  // One table step on the register; the register is the complement (xor 0xffffffff) of the running checksum.
  function CrcByte(crc: Word32, b: Byte): Word32 {
    var register := TWO32 - 1 - crc;
    var x := Xor(register % 256, b);
    var entry := CrcBit(CrcBit(CrcBit(CrcBit(CrcBit(CrcBit(CrcBit(CrcBit(x))))))));
    TWO32 - 1 - Xor(entry, register / 256) % TWO32
  }

  function Fold(step: (Word32, Byte) -> Word32, crc: Word32, data: Bytes): Word32 {
    if data == [] then crc else step(Fold(step, crc, data[..|data| - 1]), data[|data| - 1])
  }

  lemma {:induction false} FoldAppend(step: (Word32, Byte) -> Word32, crc: Word32, a: Bytes, b: Bytes)
    ensures Fold(step, crc, a + b) == Fold(step, Fold(step, crc, a), b)
  {
    if b == [] {
      assert a + b == a;
    } else {
      var n := |b| - 1;
      FoldAppend(step, crc, a, b[..n]);
      assert (a + b)[..|a + b| - 1] == a + b[..n];
    }
  }

  // Complementing at the start and the end of a run, as the source does, is complementing around every byte.
  function Extend(crc: Word32, data: Bytes): Word32 {
    Fold(CrcByte, crc, data)
  }

  function CrcValue(data: Bytes): Word32 {
    Extend(0, data)
  }

  // Extending the checksum of a prefix gives the checksum of the whole.
  lemma ExtendAppend(crc: Word32, a: Bytes, b: Bytes)
    ensures Extend(crc, a + b) == Extend(Extend(crc, a), b)
  {
    FoldAppend(CrcByte, crc, a, b);
  }

  const MASK_DELTA: Word32 := 0xA282_EAD8

  // Rotate right by 15 bits and add a constant.
  function Mask(crc: Word32): Word32 {
    (crc / 0x8000 + crc % 0x8000 * 0x2_0000 + MASK_DELTA) % TWO32
  }

  function Unmask(masked: Word32): Word32 {
    var rot := (masked + TWO32 - MASK_DELTA) % TWO32;
    rot / 0x2_0000 + rot % 0x2_0000 * 0x8000
  }

  lemma MaskRoundTrip(crc: Word32)
    ensures Unmask(Mask(crc)) == crc
  {
    var hi, lo := crc / 0x8000, crc % 0x8000;
    var r := hi + lo * 0x2_0000;
    assert hi < 0x2_0000 && r < TWO32;
    assert (Mask(crc) + TWO32 - MASK_DELTA) % TWO32 == r;
    assert r / 0x2_0000 == lo && r % 0x2_0000 == hi;
  }

  lemma UnmaskRoundTrip(masked: Word32)
    ensures Mask(Unmask(masked)) == masked
  {
    var rot := (masked + TWO32 - MASK_DELTA) % TWO32;
    var crc := Unmask(masked);
    assert crc / 0x8000 == rot % 0x2_0000 && crc % 0x8000 == rot / 0x2_0000;
    assert crc / 0x8000 + crc % 0x8000 * 0x2_0000 == rot;
    assert (rot + MASK_DELTA) % TWO32 == masked;
  }

  lemma {:induction false} FixedReencodes(b: Bytes)
    ensures EncodeFixed(DecodeFixed(b), |b|) == b
  {
    if b != [] {
      FixedReencodes(b[1..]);
      assert DecodeFixed(b) % 256 == b[0] && DecodeFixed(b) / 256 == DecodeFixed(b[1..]);
      assert b == [b[0]] + b[1..];
    }
  }
}
