/** CRC32C as polynomial division, and the fast form of util/crc32c.cc that folds sixteen bytes at a time.

    The tables of the fast form are represented by what their entries are: remainders of shifted bytes. */
module Checksums {
  import opened InternalKeys
  import opened Coding

  // --- Exclusive or on natural numbers of any width ---

  lemma {:induction false} XorZero(a: nat)
    ensures Xor(a, 0) == a
  {
    if a != 0 {
      XorZero(a / 2);
    }
  }

  lemma {:induction false} XorSelf(a: nat)
    ensures Xor(a, a) == 0
  {
    if a != 0 {
      XorSelf(a / 2);
    }
  }

  lemma {:induction false} XorCommutes(a: nat, b: nat)
    ensures Xor(a, b) == Xor(b, a)
    decreases a + b
  {
    if a != 0 || b != 0 {
      XorCommutes(a / 2, b / 2);
    }
  }

  lemma XorDigits(a: nat, b: nat)
    ensures Xor(a, b) % 2 == (a % 2 + b % 2) % 2 && Xor(a, b) / 2 == Xor(a / 2, b / 2)
  {
  }

  lemma {:induction false} XorAssociates(a: nat, b: nat, c: nat)
    ensures Xor(Xor(a, b), c) == Xor(a, Xor(b, c))
    decreases a + b + c
  {
    hide Xor;
    if a == 0 && b == 0 && c == 0 {
      XorSelf(0);
    } else {
      XorAssociates(a / 2, b / 2, c / 2);
      SameHalves(a, b, c);
      SameParities(a, b, c);
    }
  }

  lemma SameHalves(a: nat, b: nat, c: nat)
    ensures Xor(Xor(a, b), c) / 2 == Xor(Xor(a / 2, b / 2), c / 2) && Xor(a, Xor(b, c)) / 2 == Xor(a / 2, Xor(b / 2, c / 2))
  {
    hide Xor;
    XorDigits(a, b);
    XorDigits(b, c);
    XorDigits(Xor(a, b), c);
    XorDigits(a, Xor(b, c));
  }

  lemma SameParities(a: nat, b: nat, c: nat)
    ensures Xor(Xor(a, b), c) % 2 == Xor(a, Xor(b, c)) % 2
  {
    hide Xor;
    XorDigits(a, b);
    XorDigits(b, c);
    XorDigits(Xor(a, b), c);
    XorDigits(a, Xor(b, c));
    Parities(a % 2, b % 2, c % 2);
  }

  lemma Parities(a: nat, b: nat, c: nat)
    ensures ((a + b) % 2 + c) % 2 == (a + (b + c) % 2) % 2
  {
  }

  lemma {:induction false} XorFits(a: nat, b: nat, n: nat)
    requires a < Pow2(n) && b < Pow2(n)
    ensures Xor(a, b) < Pow2(n)
  {
    if n > 0 {
      XorFits(a / 2, b / 2, n - 1);
    }
  }

  // Disjoint bits add up.
  lemma {:induction false} XorDisjoint(a: nat, z: nat, n: nat)
    requires a < Pow2(n)
    ensures Xor(a, Pow2(n) * z) == a + Pow2(n) * z
  {
    if n == 0 {
      XorZero(z);
      XorCommutes(0, z);
    } else {
      XorDisjoint(a / 2, z, n - 1);
      Pow2Doubles(n, z);
      DisjointStep(a, Pow2(n - 1) * z);
    }
  }

  lemma Pow2Doubles(n: nat, z: nat)
    requires n > 0
    ensures Pow2(n) * z == 2 * (Pow2(n - 1) * z)
  {
  }

  lemma DisjointStep(a: nat, high: nat)
    requires Xor(a / 2, high) == a / 2 + high
    ensures Xor(a, 2 * high) == a + 2 * high
  {
    hide Xor;
    XorDigits(a, 2 * high);
  }

  // Xor with all ones is the complement.
  lemma {:induction false} XorOnes(a: nat, n: nat)
    requires a < Pow2(n)
    ensures Xor(a, Pow2(n) - 1) == Pow2(n) - 1 - a
  {
    if n == 0 {
      XorSelf(0);
    } else {
      var half := Pow2(n - 1);
      assert (Pow2(n) - 1) / 2 == half - 1 && (Pow2(n) - 1) % 2 == 1;
      XorOnes(a / 2, n - 1);
      hide Xor, Pow2;
      XorDigits(a, Pow2(n) - 1);
    }
  }

  lemma Widths()
    ensures Pow2(8) == 0x100 && Pow2(16) == 0x1_0000 && Pow2(24) == 0x100_0000 && Pow2(32) == TWO32
  {
    assert Pow2(4) == 16;
    assert Pow2(8) == 16 * Pow2(4);
    assert Pow2(12) == 16 * Pow2(8);
    assert Pow2(16) == 16 * Pow2(12);
    assert Pow2(20) == 16 * Pow2(16);
    assert Pow2(24) == 16 * Pow2(20);
    assert Pow2(28) == 16 * Pow2(24);
    assert Pow2(32) == 16 * Pow2(28);
  }

  lemma XorCancels(a: nat, b: nat)
    ensures Xor(Xor(a, b), b) == a
  {
    XorAssociates(a, b, b);
    XorSelf(b);
    XorZero(a);
  }

  // Two pairs may be taken in the other order.
  lemma XorSwaps(a: nat, b: nat, c: nat, d: nat)
    ensures Xor(Xor(a, b), Xor(c, d)) == Xor(Xor(a, c), Xor(b, d))
  {
    XorAssociates(a, b, Xor(c, d));
    XorAssociates(b, c, d);
    XorCommutes(b, c);
    XorAssociates(c, b, d);
    XorAssociates(a, c, Xor(b, d));
  }

  // --- Division by the polynomial, a bit at a time ---

  // The register after n zero bits.
  function Divide(n: nat, x: nat): nat {
    if n == 0 then x else Divide(n - 1, CrcBit(x))
  }

  const POLYNOMIAL: nat := 0x82F6_3B78

  lemma BitIsXor(x: nat)
    ensures CrcBit(x) == Xor(x / 2, if x % 2 == 1 then POLYNOMIAL else 0)
  {
    hide Xor;
    XorZero(x / 2);
  }

  lemma BitLinear(a: nat, b: nat)
    ensures CrcBit(Xor(a, b)) == Xor(CrcBit(a), CrcBit(b))
  {
    hide Xor, CrcBit;
    BitIsXor(a);
    BitIsXor(b);
    BitIsXor(Xor(a, b));
    XorDigits(a, b);
    var x, y := if a % 2 == 1 then POLYNOMIAL else 0, if b % 2 == 1 then POLYNOMIAL else 0;
    XorSwaps(a / 2, x, b / 2, y);
    XorSelf(x);
    XorZero(x);
    XorCommutes(0, y);
    XorZero(y);
  }

  lemma {:induction false} DivideLinear(n: nat, a: nat, b: nat)
    ensures Divide(n, Xor(a, b)) == Xor(Divide(n, a), Divide(n, b))
  {
    if n > 0 {
      BitLinear(a, b);
      DivideLinear(n - 1, CrcBit(a), CrcBit(b));
    }
  }

  lemma {:induction false} DivideMore(m: nat, n: nat, x: nat)
    ensures Divide(n, Divide(m, x)) == Divide(m + n, x)
  {
    if m > 0 {
      DivideMore(m - 1, n, CrcBit(x));
    }
  }

  lemma Doubled(n: nat, z: nat)
    requires n > 0
    ensures CrcBit(Pow2(n) * z) == Pow2(n - 1) * z
  {
    hide Xor;
    Pow2Doubles(n, z);
  }

  lemma {:induction false} DivideShifted(n: nat, z: nat)
    ensures Divide(n, Pow2(n) * z) == z
  {
    hide Xor, CrcBit;
    if n > 0 {
      Doubled(n, z);
      DivideShifted(n - 1, z);
    }
  }

  lemma {:induction false} DivideFits(n: nat, x: nat)
    requires x < TWO32
    ensures Divide(n, x) < TWO32
  {
    if n > 0 {
      Widths();
      XorFits(x / 2, POLYNOMIAL, 32);
      DivideFits(n - 1, CrcBit(x));
    }
  }

  // Low bits are divided, the bits above n are only shifted.
  lemma DivideSplit(n: nat, low: nat, high: nat)
    requires low < Pow2(n)
    ensures Divide(n, low + Pow2(n) * high) == Xor(Divide(n, low), high)
  {
    hide Xor, Divide, Pow2;
    XorDisjoint(low, high, n);
    DivideLinear(n, low, Pow2(n) * high);
    DivideShifted(n, high);
  }

  // --- What the checksum of a string is ---

  function Flip(crc: Word32): (r: Word32)
    ensures r == Xor(crc, 0xFFFF_FFFF)
  {
    Widths();
    XorOnes(crc, 32);
    TWO32 - 1 - crc
  }

  lemma FlipFlip(crc: Word32)
    ensures Flip(Flip(crc)) == crc
  {
  }

  // STEP1 of the source, a table entry and a shift, is eight bits of division.
  lemma ByteStep(crc: Word32, b: Byte)
    ensures Flip(CrcByte(crc, b)) == Divide(8, Xor(Flip(crc), b))
  {
    hide Xor, Divide, Pow2, CrcBit;
    var low, high := Flip(crc) % 256, Flip(crc) / 256;
    var x := Xor(low, b);
    EightBits(x);
    Widths();
    XorFits(low, b, 8);
    TopFits(x, high);
    XorDisjoint(low, high, 8);
    XorDisjoint(x, high, 8);
    XorMoves(low, 256 * high, b);
    DivideSplit(8, x, high);
  }

  lemma TopFits(x: nat, high: nat)
    requires x < TWO32 && high < TWO32
    ensures Xor(Divide(8, x), high) < TWO32
  {
    hide Xor, Divide, Pow2;
    DivideFits(8, x);
    Widths();
    XorFits(Divide(8, x), high, 32);
  }

  lemma EightBits(x: nat)
    ensures Divide(8, x) == CrcBit(CrcBit(CrcBit(CrcBit(CrcBit(CrcBit(CrcBit(CrcBit(x))))))))
  {
    hide CrcBit;
    var y := CrcBit(CrcBit(CrcBit(CrcBit(x))));
    TwoBits(6, x);
    TwoBits(4, CrcBit(CrcBit(x)));
    TwoBits(2, y);
    TwoBits(0, CrcBit(CrcBit(y)));
  }

  lemma TwoBits(n: nat, x: nat)
    ensures Divide(n + 2, x) == Divide(n, CrcBit(CrcBit(x)))
    ensures n == 0 ==> Divide(n + 2, x) == CrcBit(CrcBit(x))
  {
    hide CrcBit;
    assert Divide(n + 2, x) == Divide(n + 1, CrcBit(x));
  }

  lemma XorMoves(a: nat, b: nat, c: nat)
    ensures Xor(Xor(a, b), c) == Xor(Xor(a, c), b)
  {
    XorAssociates(a, b, c);
    XorCommutes(b, c);
    XorAssociates(a, c, b);
  }

  lemma {:induction false} Wider(m: nat, n: nat)
    ensures Pow2(m + n) == Pow2(m) * Pow2(n)
  {
    if m > 0 {
      Wider(m - 1, n);
    }
  }

  lemma {:induction false} Bytewise(n: nat)
    ensures Pow256(n) == Pow2(8 * n)
  {
    if n > 0 {
      Bytewise(n - 1);
      Wider(8, 8 * (n - 1));
      Widths();
    }
  }

  lemma Shift256(n: nat, b: Byte)
    requires n > 0
    ensures 256 * (Pow256(n - 1) * b) == Pow256(n) * b
  {
  }

  lemma {:induction false} DecodeLast(b: Bytes)
    requires b != []
    ensures DecodeFixed(b) == DecodeFixed(b[..|b| - 1]) + Pow256(|b| - 1) * b[|b| - 1]
  {
    if |b| > 1 {
      DecodeLast(b[1..]);
      assert b[1..][..|b| - 2] == b[..|b| - 1][1..];
      Shift256(|b| - 1, b[|b| - 1]);
    }
  }

  // The register after a string is the remainder of the whole string read as one number.
  lemma {:induction false} IsRemainder(crc: Word32, data: Bytes)
    ensures Flip(Extend(crc, data)) == Divide(8 * |data|, Xor(Flip(crc), DecodeFixed(data)))
  {
    if data == [] {
      XorZero(Flip(crc));
    } else {
      var n := |data| - 1;
      IsRemainder(crc, data[..n]);
      LastByte(crc, data, Extend(crc, data[..n]));
    }
  }

  lemma LastByte(crc: Word32, data: Bytes, before: Word32)
    requires data != [] && var n := |data| - 1;
             Flip(before) == Divide(8 * n, Xor(Flip(crc), DecodeFixed(data[..n])))
    ensures Flip(CrcByte(before, data[|data| - 1])) == Divide(8 * |data|, Xor(Flip(crc), DecodeFixed(data)))
  {
    hide Xor, Divide, Pow2, Pow256, DecodeFixed, CrcByte, Flip;
    var n := |data| - 1;
    var b, d, register := data[n], DecodeFixed(data[..n]), Flip(crc);
    ByteStep(before, b);
    DecodeLast(data);
    Bytewise(n);
    DecodeFixedBound(data[..n]);
    XorDisjoint(d, b, 8 * n);
    DivideShifted(8 * n, b);
    DivideLinear(8 * n, Xor(register, d), Pow2(8 * n) * b);
    XorAssociates(register, d, Pow2(8 * n) * b);
    DivideMore(8 * n, 8, Xor(register, DecodeFixed(data)));
  }

  // --- Damage ---

  lemma XorOfDifferent(a: nat, b: nat)
    requires Xor(a, b) == 0
    ensures a == b
  {
    XorCancels(a, b);
    XorZero(b);
    XorCommutes(0, b);
  }

  lemma {:induction false} DivideKeeps(n: nat, x: nat)
    requires x < TWO32 && Divide(n, x) == 0
    ensures x == 0
  {
    if n > 0 {
      DivideFits(1, x);
      DivideKeeps(n - 1, CrcBit(x));
      BitIsXor(x);
      if x % 2 == 1 {
        XorOfDifferent(x / 2, POLYNOMIAL);
      } else {
        XorZero(x / 2);
      }
    }
  }

  // Registers that differ still differ after the same string.
  lemma {:induction false} ExtendInjective(crc: Word32, crc': Word32, data: Bytes)
    requires Extend(crc, data) == Extend(crc', data)
    ensures crc == crc'
  {
    var a, b, d, n := Flip(crc), Flip(crc'), DecodeFixed(data), 8 * |data|;
    IsRemainder(crc, data);
    IsRemainder(crc', data);
    hide Xor, Divide, DecodeFixed;
    DivideLinear(n, Xor(a, d), Xor(b, d));
    XorSelf(Divide(n, Xor(a, d)));
    XorSwaps(a, d, b, d);
    XorSelf(d);
    XorZero(Xor(a, b));
    Widths();
    XorFits(a, b, 32);
    DivideKeeps(n, Xor(a, b));
    XorOfDifferent(a, b);
  }

  lemma {:induction false} DecodeInjective(w: Bytes, w': Bytes)
    requires |w| == |w'| && DecodeFixed(w) == DecodeFixed(w')
    ensures w == w'
  {
    if w != [] {
      DecodeInjective(w[1..], w'[1..]);
      assert w == [w[0]] + w[1..] && w' == [w'[0]] + w'[1..];
    }
  }

  // Damage within four neighbouring bytes changes the checksum.
  lemma BurstIsDetected(crc: Word32, before: Bytes, w: Bytes, w': Bytes, after: Bytes)
    requires |w| == |w'| <= 4 && w != w'
    ensures Extend(crc, before + w + after) != Extend(crc, before + w' + after)
  {
    if Extend(crc, before + w + after) == Extend(crc, before + w' + after) {
      var c := Extend(crc, before);
      ExtendAppend(crc, before + w, after);
      ExtendAppend(crc, before + w', after);
      ExtendAppend(crc, before, w);
      ExtendAppend(crc, before, w');
      ExtendInjective(Extend(c, w), Extend(c, w'), after);
      IsRemainder(c, w);
      IsRemainder(c, w');
      WordsDiffer(Flip(c), w, w');
    }
  }

  lemma WordsDiffer(register: Word32, w: Bytes, w': Bytes)
    requires |w| == |w'| <= 4
    requires Divide(8 * |w|, Xor(register, DecodeFixed(w))) == Divide(8 * |w|, Xor(register, DecodeFixed(w')))
    ensures w == w'
  {
    var a, b, n := DecodeFixed(w), DecodeFixed(w'), 8 * |w|;
    FitsWord(w);
    FitsWord(w');
    Widths();
    SameNumber(w, w');
    hide Xor, Divide, DecodeFixed;
    DivideLinear(n, Xor(register, a), Xor(register, b));
    XorSelf(Divide(n, Xor(register, a)));
    XorSwaps(register, a, register, b);
    XorSelf(register);
    XorZero(Xor(a, b));
    XorCommutes(0, Xor(a, b));
    XorFits(a, b, 32);
    DivideKeeps(n, Xor(a, b));
    XorOfDifferent(a, b);
  }

  lemma SameNumber(w: Bytes, w': Bytes)
    requires |w| == |w'|
    ensures DecodeFixed(w) == DecodeFixed(w') ==> w == w'
  {
    if DecodeFixed(w) == DecodeFixed(w') {
      DecodeInjective(w, w');
    }
  }

  lemma FitsWord(w: Bytes)
    requires |w| <= 4
    ensures DecodeFixed(w) < TWO32
  {
    DecodeFixedBound(w);
    assert Pow256(1) == 256;
    assert Pow256(2) == 256 * Pow256(1);
    assert Pow256(3) == 256 * Pow256(2);
    assert Pow256(4) == 256 * Pow256(3);
  }

  // --- The fast form: four interleaved registers, sixteen bytes at a time ---

  // kByteExtensionTable
  function ByteTable(b: Byte): Word32 {
    DivideFits(8, b);
    Divide(8, b)
  }

  // kStrideExtensionTable0 to kStrideExtensionTable3
  function StrideTable(k: nat, b: Byte): Word32
    requires k < 4
  {
    DivideFits(104 + 8 * k, b);
    Divide(104 + 8 * k, b)
  }

  // The entry of the top bit is the polynomial; linearity and the shift give the others.
  lemma TopEntry()
    ensures ByteTable(128) == 0x82F6_3B78
  {
    Widths();
    assert Pow2(4) == 16;
    assert Pow2(7) == 128;
    DivideShifted(7, 1);
    DivideMore(7, 1, 128);
    BitIsXor(1);
    ZeroSteps(CrcBit(1));
    XorCommutes(0, POLYNOMIAL);
    XorZero(POLYNOMIAL);
  }

  // STEP1
  method Step1(l: Word32, b: Byte) returns (l': Word32)
    ensures l' == Divide(8, Xor(l, b))
  {
    hide Divide, Pow2, Xor;
    var low, high := l % 256, l / 256;
    Widths();
    XorFits(low, b, 8);
    var c := Xor(low, b);
    XorDisjoint(low, high, 8);
    XorDisjoint(c, high, 8);
    XorMoves(low, 256 * high, b);
    DivideSplit(8, c, high);
    TopFits(c, high);
    l' := Xor(ByteTable(c), high);
  }

  // STEP4W: a word passes through the byte table.
  method FoldWord(l: Word32, word: Word32) returns (l': Word32)
    ensures l' == Divide(32, Xor(word, l))
  {
    hide Divide, Pow2;
    Widths();
    XorFits(word, l, 32);
    ghost var start := Xor(word, l);
    var w: Word32 := Xor(word, l);
    ZeroSteps(start);
    for i := 0 to 4
      invariant w == Divide(8 * i, start)
    {
      OneByte(w);
      DivideMore(8 * i, 8, start);
      w := Xor(w / 256, ByteTable(w % 256));
    }
    l' := w;
  }

  lemma ZeroSteps(x: nat)
    ensures Divide(0, x) == x
  {
  }

  lemma OneByte(x: Word32)
    ensures Xor(x / 256, ByteTable(x % 256)) == Divide(8, x) < TWO32
  {
    hide Divide, Pow2, Xor;
    Widths();
    DivideSplit(8, x % 256, x / 256);
    XorCommutes(x / 256, Divide(8, x % 256));
    DivideFits(8, x);
  }

  // What the four registers stand for.
  ghost function Joined(c0: nat, c1: nat, c2: nat, c3: nat): nat {
    Xor(Xor(Divide(128, c0), Divide(96, c1)), Xor(Divide(64, c2), Divide(32, c3)))
  }

  // Four more bytes advance the oldest register by sixteen bytes and make it the newest.
  lemma Advance(c0: nat, c1: nat, c2: nat, c3: nat, w: nat)
    ensures Divide(32, Xor(Joined(c0, c1, c2, c3), w)) == Joined(c1, c2, c3, Xor(w, Divide(128, c0)))
  {
    hide Divide, Xor;
    var a, b, c, d := Divide(128, c0), Divide(96, c1), Divide(64, c2), Divide(32, c3);
    DivideLinear(32, Joined(c0, c1, c2, c3), w);
    DivideLinear(32, Xor(a, b), Xor(c, d));
    DivideLinear(32, a, b);
    DivideLinear(32, c, d);
    DivideLinear(32, w, a);
    DivideMore(128, 32, c0);
    DivideMore(96, 32, c1);
    DivideMore(64, 32, c2);
    DivideMore(32, 32, c3);
    Rotates(Divide(160, c0), Divide(128, c1), Divide(96, c2), Divide(64, c3), Divide(32, w));
  }

  lemma Rotates(a: nat, b: nat, c: nat, d: nat, w: nat)
    ensures Xor(Xor(Xor(a, b), Xor(c, d)), w) == Xor(Xor(b, c), Xor(d, Xor(w, a)))
  {
    hide Xor;
    XorAssociates(a, b, Xor(c, d));
    XorCommutes(a, Xor(b, Xor(c, d)));
    XorAssociates(Xor(b, Xor(c, d)), a, w);
    XorCommutes(a, w);
    XorAssociates(b, c, d);
    XorAssociates(Xor(b, c), d, Xor(w, a));
  }

  lemma FirstWord(c: nat)
    ensures Divide(32, c) == Joined(0, 0, 0, c)
  {
    hide Divide, Xor;
    DivideZero(128);
    DivideZero(96);
    DivideZero(64);
    XorZero(0);
    XorCommutes(0, Divide(32, c));
    XorZero(Divide(32, c));
  }

  lemma {:induction false} DivideZero(n: nat)
    ensures Divide(n, 0) == 0
  {
    if n > 0 {
      DivideZero(n - 1);
    }
  }

  // The closing STEP4W of each register, oldest first.
  lemma Closing(c0: nat, c1: nat, c2: nat, c3: nat)
    ensures Divide(32, Xor(c3, Divide(32, Xor(c2, Divide(32, Xor(c1, Divide(32, c0))))))) == Joined(c0, c1, c2, c3)
  {
    hide Divide, Xor;
    var x := Divide(32, c0);
    var y := Divide(32, Xor(c1, x));
    DivideLinear(32, c1, x);
    DivideMore(32, 32, c0);
    var z := Divide(32, Xor(c2, y));
    DivideLinear(32, c2, y);
    DivideLinear(32, Divide(32, c1), Divide(64, c0));
    DivideMore(32, 32, c1);
    DivideMore(64, 32, c0);
    DivideLinear(32, c3, z);
    var p, q := Divide(64, c1), Divide(96, c0);
    DivideLinear(32, Divide(32, c2), Xor(p, q));
    DivideLinear(32, p, q);
    DivideMore(32, 32, c2);
    DivideMore(64, 32, c1);
    DivideMore(96, 32, c0);
    Reverses(Divide(32, c3), Divide(64, c2), Divide(96, c1), Divide(128, c0));
  }

  lemma Reverses(d: nat, c: nat, b: nat, a: nat)
    ensures Xor(d, Xor(c, Xor(b, a))) == Xor(Xor(a, b), Xor(c, d))
  {
    hide Xor;
    XorAssociates(d, c, Xor(b, a));
    XorCommutes(c, d);
    XorCommutes(b, a);
    XorCommutes(Xor(c, d), Xor(a, b));
  }

  // The tables part of STEP4: a register moves on by sixteen bytes.
  method Stride(c: Word32) returns (r: Word32)
    ensures r == Divide(128, c)
  {
    hide Divide, Pow2, Xor;
    SplitWord(c);
    var b0: Byte, b1: Byte, b2: Byte, b3: Byte := c % 256, c / 0x100 % 256, c / 0x1_0000 % 256, c / 0x100_0000;
    FourBytes(b0, b1, b2, b3);
    DivideFits(128, c);
    r := Xor(Xor(Xor(StrideTable(3, b0), StrideTable(2, b1)), StrideTable(1, b2)), StrideTable(0, b3));
  }

  lemma SplitWord(c: Word32)
    ensures c / 0x100_0000 < 256
    ensures c == c % 256 + 0x100 * (c / 0x100 % 256) + 0x1_0000 * (c / 0x1_0000 % 256) + 0x100_0000 * (c / 0x100_0000)
  {
    var x, y := c / 0x100, c / 0x1_0000;
    assert x / 0x100 == y && y / 0x100 == c / 0x100_0000;
  }

  lemma FourBytes(b0: Byte, b1: Byte, b2: Byte, b3: Byte)
    ensures Divide(128, b0 + 0x100 * b1 + 0x1_0000 * b2 + 0x100_0000 * b3)
            == Xor(Xor(Xor(Divide(128, b0), Divide(120, b1)), Divide(112, b2)), Divide(104, b3))
  {
    hide Divide, Xor, Pow2;
    Widths();
    Shifted(8, 0x100, b0, b1);
    Shifted(16, 0x1_0000, b0 + 0x100 * b1, b2);
    Shifted(24, 0x100_0000, b0 + 0x100 * b1 + 0x1_0000 * b2, b3);
  }

  // Adding a byte above the bits of x.
  lemma Shifted(n: nat, p: nat, x: nat, b: Byte)
    requires n <= 24 && p == Pow2(n) && x < p
    ensures Divide(128, x + p * b) == Xor(Divide(128, x), Divide(128 - n, b))
  {
    hide Divide, Xor, Pow2;
    XorDisjoint(x, b, n);
    DivideLinear(128, x, p * b);
    DivideShifted(n, b);
    DivideMore(n, 128 - n, p * b);
  }

  // ReadUint32LE
  function ReadWord(data: Bytes, p: nat): Word32
    requires p + 4 <= |data|
  {
    FitsWord(data[p..p + 4]);
    DecodeFixed(data[p..p + 4])
  }

  // The register of the simple form after p bytes.
  ghost function Register(crc: Word32, data: Bytes, p: nat): Word32
    requires p <= |data|
  {
    Flip(Extend(crc, data[..p]))
  }

  lemma NextByte(crc: Word32, data: Bytes, p: nat)
    requires p < |data|
    ensures Register(crc, data, p + 1) == Divide(8, Xor(Register(crc, data, p), data[p]))
  {
    hide Divide, Xor, CrcByte;
    assert data[..p + 1][..p] == data[..p];
    ByteStep(Extend(crc, data[..p]), data[p]);
  }

  lemma NextWord(crc: Word32, data: Bytes, p: nat)
    requires p + 4 <= |data|
    ensures Register(crc, data, p + 4) == Divide(32, Xor(Register(crc, data, p), ReadWord(data, p)))
  {
    hide Divide, Xor, DecodeFixed;
    var w := data[p..p + 4];
    assert data[..p + 4] == data[..p] + w;
    ExtendAppend(crc, data[..p], w);
    IsRemainder(Extend(crc, data[..p]), w);
  }

  // Extend with its fast path; `lead` bytes come before the first aligned address.
  method ExtendByStrides(crc: Word32, data: Bytes, lead: nat) returns (r: Word32)
    requires lead < 4
    ensures r == Extend(crc, data)
  {
    hide Divide, Xor, DecodeFixed, Extend;
    var l := Flip(crc);
    var p := 0;
    EmptyExtend(crc, data);
    if lead <= |data| {
      l := BytesUpTo(crc, data, l, p, lead);
      p := lead;
    }
    if |data| - p >= 16 {
      l, p := Strides(crc, data, l, p);
    }
    l := BytesUpTo(crc, data, l, p, |data|);
    assert data[..|data|] == data;
    r := Flip(l);
  }

  lemma EmptyExtend(crc: Word32, data: Bytes)
    ensures Register(crc, data, 0) == Flip(crc)
  {
  }

  method BytesUpTo(ghost crc: Word32, data: Bytes, l: Word32, p: nat, end: nat) returns (l': Word32)
    requires p <= end <= |data| && l == Register(crc, data, p)
    ensures l' == Register(crc, data, end)
  {
    hide Divide, Xor, Register;
    l' := l;
    for i := p to end
      invariant l' == Register(crc, data, i)
    {
      NextByte(crc, data, i);
      l' := Step1(l', data[i]);
    }
  }

  // Four words at a time while sixteen bytes are left, then a word at a time, then the registers are combined.
  method Strides(ghost crc: Word32, data: Bytes, l: Word32, start: nat) returns (l': Word32, p: nat)
    requires start + 16 <= |data| && l == Register(crc, data, start)
    ensures start < p <= |data| && |data| - p < 4 && l' == Register(crc, data, p)
  {
    hide Divide, Xor, Register, Joined, ReadWord;
    p := start;
    var crc0 := Mixed(ReadWord(data, p), l);
    var crc1, crc2, crc3 := ReadWord(data, p + 4), ReadWord(data, p + 8), ReadWord(data, p + 12);
    Started(crc, data, p);
    p := p + 16;
    while |data| - p >= 16
      invariant start < p <= |data| && Register(crc, data, p) == Joined(crc0, crc1, crc2, crc3)
    {
      crc0 := Step4(crc, data, p, crc0, crc1, crc2, crc3);
      crc1 := Step4(crc, data, p + 4, crc1, crc2, crc3, crc0);
      crc2 := Step4(crc, data, p + 8, crc2, crc3, crc0, crc1);
      crc3 := Step4(crc, data, p + 12, crc3, crc0, crc1, crc2);
      p := p + 16;
    }
    while |data| - p >= 4
      invariant start < p <= |data| && Register(crc, data, p) == Joined(crc0, crc1, crc2, crc3)
    {
      crc0 := Step4(crc, data, p, crc0, crc1, crc2, crc3);
      crc0, crc1, crc2, crc3 := crc1, crc2, crc3, crc0;
      p := p + 4;
    }
    Closing(crc0, crc1, crc2, crc3);
    XorZero(crc0);
    l' := FoldWord(0, crc0);
    l' := FoldWord(l', crc1);
    l' := FoldWord(l', crc2);
    l' := FoldWord(l', crc3);
  }

  function Mixed(a: Word32, b: Word32): (r: Word32)
    ensures r == Xor(a, b)
  {
    Widths();
    XorFits(a, b, 32);
    Xor(a, b)
  }

  // STEP4: the oldest of the registers takes in the next word.
  method Step4(ghost crc: Word32, data: Bytes, p: nat, c0: Word32, ghost c1: Word32, ghost c2: Word32, ghost c3: Word32)
    returns (c0': Word32)
    requires p + 4 <= |data| && Register(crc, data, p) == Joined(c0, c1, c2, c3)
    ensures Register(crc, data, p + 4) == Joined(c1, c2, c3, c0')
  {
    hide Divide, Xor, Register, Joined, ReadWord;
    NextWord(crc, data, p);
    Advance(c0, c1, c2, c3, ReadWord(data, p));
    var moved := Stride(c0);
    c0' := Mixed(ReadWord(data, p), moved);
  }

  // The first sixteen bytes.
  lemma Started(crc: Word32, data: Bytes, p: nat)
    requires p + 16 <= |data|
    ensures Register(crc, data, p + 16)
            == Joined(Mixed(ReadWord(data, p), Register(crc, data, p)), ReadWord(data, p + 4), ReadWord(data, p + 8),
                      ReadWord(data, p + 12))
  {
    hide Divide, Xor, Register, Joined, ReadWord;
    var l, w0 := Register(crc, data, p), ReadWord(data, p);
    var w1, w2, w3 := ReadWord(data, p + 4), ReadWord(data, p + 8), ReadWord(data, p + 12);
    var c := Mixed(w0, l);
    NextWord(crc, data, p);
    NextWord(crc, data, p + 4);
    NextWord(crc, data, p + 8);
    NextWord(crc, data, p + 12);
    XorCommutes(w0, l);
    FirstWord(c);
    DivideZero(128);
    XorZero(w1);
    XorZero(w2);
    XorZero(w3);
    Advance(0, 0, 0, c, w1);
    Advance(0, 0, c, w1, w2);
    Advance(0, c, w1, w2, w3);
  }
}
