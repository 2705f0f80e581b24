/** Bloom filters (util/bloom.cc) and the filter block of a table (table/filter_block.cc).  The hash is any function. */
module Bloom {
  import opened InternalKeys
  import opened Coding

  // --- Bits of a byte array ---

  // b & (1 << k)
  predicate HasBit(b: nat, k: nat) {
    if k == 0 then b % 2 == 1 else HasBit(b / 2, k - 1)
  }

  // b | (1 << k)
  function SetBit(b: nat, k: nat): nat {
    if k == 0 then b - b % 2 + 1 else b % 2 + 2 * SetBit(b / 2, k - 1)
  }

  lemma {:induction false} SetBitBits(b: nat, k: nat, j: nat)
    ensures HasBit(SetBit(b, k), j) <==> j == k || HasBit(b, j)
    decreases k
  {
    var r := SetBit(b, k);
    if k == 0 {
      assert r / 2 == b / 2;
    } else {
      assert r / 2 == SetBit(b / 2, k - 1) && r % 2 == b % 2;
      if j > 0 {
        SetBitBits(b / 2, k - 1, j - 1);
      }
    }
  }

  lemma {:induction false} SetBitFits(b: nat, k: nat, n: nat)
    requires k < n && b < Pow2(n)
    ensures SetBit(b, k) < Pow2(n)
    decreases k
  {
    if k > 0 {
      SetBitFits(b / 2, k - 1, n - 1);
    }
  }

  function SetByte(b: Byte, k: nat): (r: Byte)
    requires k < 8
    ensures r == SetBit(b, k)
  {
    assert Pow2(8) == 256;
    SetBitFits(b, k, 8);
    SetBit(b, k)
  }

  predicate IsSet(bits: Bytes, bit: nat)
    requires bit < 8 * |bits|
  {
    HasBit(bits[bit / 8], bit % 8)
  }

  // array[bit / 8] |= 1 << (bit % 8)
  function Set(bits: Bytes, bit: nat): (r: Bytes)
    requires bit < 8 * |bits|
    ensures |r| == |bits|
  {
    bits[bit / 8 := SetByte(bits[bit / 8], bit % 8)]
  }

  lemma SetSets(bits: Bytes, bit: nat, other: nat)
    requires bit < 8 * |bits| && other < 8 * |bits|
    ensures IsSet(Set(bits, bit), other) <==> other == bit || IsSet(bits, other)
  {
    hide HasBit, SetBit;
    SetBitBits(bits[bit / 8], bit % 8, other % 8);
  }

  // --- Bloom filters ---

  // Rotate right 17 bits.
  function Delta(h: Word32): Word32 {
    h / 0x2_0000 + h % 0x2_0000 * 0x8000
  }

  // Rotating back by 17 bits to the left gives the hash again.
  lemma DeltaRotates(h: Word32)
    ensures Delta(h) % 0x8000 * 0x2_0000 + Delta(h) / 0x8000 == h
  {
    assert h / 0x2_0000 < 0x8000;
  }

  // Double hashing: the j-th hash value.
  function HashAt(h: Word32, j: nat): Word32 {
    if j == 0 then h else (HashAt(h, j - 1) + Delta(h)) % TWO32
  }

  lemma {:induction false} HashAtIs(h: Word32, j: nat)
    ensures HashAt(h, j) == (h + j * Delta(h)) % TWO32
  {
    hide Delta;
    if j > 0 {
      HashAtIs(h, j - 1);
      var before := h + (j - 1) * Delta(h);
      assert h + j * Delta(h) == before + Delta(h);
      WrapsOnce(before, Delta(h));
    }
  }

  lemma WrapsOnce(a: nat, b: nat)
    ensures (a % TWO32 + b) % TWO32 == (a + b) % TWO32
  {
  }

  ghost predicate ProbesSet(bits: Bytes, h: Word32, k: nat)
    requires bits != []
  {
    forall j :: 0 <= j < k ==> ProbeSet(bits, h, j)
  }

  predicate ProbeSet(bits: Bytes, h: Word32, j: nat)
    requires bits != []
  {
    IsSet(bits, HashAt(h, j) % (8 * |bits|))
  }

  // BloomFilterPolicy::KeyMayMatch
  ghost predicate MayMatch(hash: Bytes -> Word32, filter: Bytes, key: Bytes) {
    && |filter| >= 2
    && var n := |filter| - 1;
       filter[n] > 30 || ProbesSet(filter[..n], hash(key), filter[n])
  }

  method KeyMayMatch(hash: Bytes -> Word32, filter: Bytes, key: Bytes) returns (match': bool)
    ensures match' <==> MayMatch(hash, filter, key)
  {
    hide IsSet, Delta;
    if |filter| < 2 {
      return false;
    }
    var n := |filter| - 1;
    var k := filter[n];
    if k > 30 {
      return true;
    }
    var bits := filter[..n];
    var h := hash(key);
    var delta := Delta(h);
    for j := 0 to k
      invariant h == HashAt(hash(key), j)
      invariant forall i :: 0 <= i < j ==> ProbeSet(bits, hash(key), i)
    {
      if !IsSet(bits, h % (8 * |bits|)) {
        assert !ProbeSet(bits, hash(key), j);
        return false;
      }
      h := (h + delta) % TWO32;
    }
    return true;
  }

  // bits_per_key * n bits, at least 64, rounded up to bytes.
  function FilterBytes(n: nat, bitsPerKey: nat): (b: nat)
    ensures b >= 8 && 8 * b >= n * bitsPerKey && (b == 8 || 8 * b < n * bitsPerKey + 8)
  {
    (if n * bitsPerKey < 64 then 64 + 7 else n * bitsPerKey + 7) / 8
  }

  // One of the first k probes of h.
  ghost predicate ProbedBy(h: Word32, k: nat, bits: nat, bit: nat)
    requires bits > 0
  {
    exists j :: 0 <= j < k && ProbeAt(h, j, bits) == bit
  }

  function ProbeAt(h: Word32, j: nat, bits: nat): nat
    requires bits > 0
  {
    HashAt(h, j) % bits
  }

  ghost predicate Probed(hash: Bytes -> Word32, keys: seq<Bytes>, k: nat, bits: nat, bit: nat)
    requires bits > 0
  {
    exists i :: 0 <= i < |keys| && ProbedBy(hash(keys[i]), k, bits, bit)
  }

  // The filter of these keys: exactly the bits they probe are set, and the last byte is the number of probes.
  ghost predicate IsFilter(hash: Bytes -> Word32, keys: seq<Bytes>, filter: Bytes) {
    && |filter| >= 9
    && var n := |filter| - 1;
       forall bit :: 0 <= bit < 8 * n ==> (IsSet(filter[..n], bit) <==> Probed(hash, keys, filter[n], 8 * n, bit))
  }

  lemma FilterMatches(hash: Bytes -> Word32, keys: seq<Bytes>, filter: Bytes)
    requires IsFilter(hash, keys, filter)
    ensures forall i :: 0 <= i < |keys| ==> MayMatch(hash, filter, keys[i])
  {
    hide IsSet, HashAt;
    var n := |filter| - 1;
    forall i, j | 0 <= i < |keys| && 0 <= j < filter[n] ensures ProbeSet(filter[..n], hash(keys[i]), j) {
      var bit := ProbeAt(hash(keys[i]), j, 8 * n);
      assert ProbedBy(hash(keys[i]), filter[n], 8 * n, bit);
    }
  }

  // A key is let through by mistake exactly when the other keys happen to probe all of its bits.
  lemma FilterAnswersIff(hash: Bytes -> Word32, keys: seq<Bytes>, filter: Bytes, key: Bytes)
    requires IsFilter(hash, keys, filter) && filter[|filter| - 1] <= 30
    ensures MayMatch(hash, filter, key) <==> forall j :: 0 <= j < filter[|filter| - 1] ==> Taken(hash, keys, filter, key, j)
  {
    hide IsSet, HashAt, Probed;
    var n := |filter| - 1;
    forall j | 0 <= j < filter[n] ensures ProbeSet(filter[..n], hash(key), j) <==> Taken(hash, keys, filter, key, j) {
    }
  }

  // The keys probe the j-th bit of `key`.
  ghost predicate Taken(hash: Bytes -> Word32, keys: seq<Bytes>, filter: Bytes, key: Bytes, j: nat)
    requires |filter| >= 9
  {
    var n := |filter| - 1;
    Probed(hash, keys, filter[n], 8 * n, ProbeAt(hash(key), j, 8 * n))
  }

  // Sets the bits of the first k probes of h0 and no others.
  method AddProbes(bits: Bytes, h0: Word32, k: nat) returns (out: Bytes)
    requires bits != []
    ensures |out| == |bits|
    ensures forall bit :: 0 <= bit < 8 * |bits| ==> (IsSet(out, bit) <==> IsSet(bits, bit) || ProbedBy(h0, k, 8 * |bits|, bit))
  {
    hide IsSet, Delta, Set;
    out := bits;
    var h, delta := h0, Delta(h0);
    for j := 0 to k
      invariant h == HashAt(h0, j) && |out| == |bits|
      invariant forall bit :: 0 <= bit < 8 * |bits| ==> (IsSet(out, bit) <==> IsSet(bits, bit) || ProbedBy(h0, j, 8 * |bits|, bit))
    {
      var bit := h % (8 * |out|);
      forall other | 0 <= other < 8 * |out|
        ensures IsSet(Set(out, bit), other) <==> IsSet(bits, other) || ProbedBy(h0, j + 1, 8 * |bits|, other)
      {
        SetSets(out, bit, other);
        OneProbeMore(h0, j, 8 * |bits|, other);
      }
      out := Set(out, bit);
      h := (h + delta) % TWO32;
    }
  }

  lemma OneProbeMore(h: Word32, k: nat, bits: nat, bit: nat)
    requires bits > 0
    ensures ProbedBy(h, k + 1, bits, bit) <==> ProbedBy(h, k, bits, bit) || ProbeAt(h, k, bits) == bit
  {
  }

  lemma OneKeyMore(hash: Bytes -> Word32, keys: seq<Bytes>, i: nat, k: nat, bits: nat, bit: nat)
    requires bits > 0 && i < |keys|
    ensures Probed(hash, keys[..i + 1], k, bits, bit)
            <==> Probed(hash, keys[..i], k, bits, bit) || ProbedBy(hash(keys[i]), k, bits, bit)
  {
    hide ProbedBy;
    if Probed(hash, keys[..i], k, bits, bit) {
      var j :| 0 <= j < i && ProbedBy(hash(keys[..i][j]), k, bits, bit);
      assert keys[..i + 1][j] == keys[..i][j];
    }
    assert keys[..i + 1][i] == keys[i];
  }

  // CreateFilter; k is the number of probes, between 1 and 30.
  method CreateFilter(hash: Bytes -> Word32, keys: seq<Bytes>, bitsPerKey: nat, k: Byte) returns (filter: Bytes)
    ensures |filter| == FilterBytes(|keys|, bitsPerKey) + 1 && filter[|filter| - 1] == k
    ensures IsFilter(hash, keys, filter)
    ensures forall i :: 0 <= i < |keys| ==> MayMatch(hash, filter, keys[i])
  {
    hide IsSet, Probed, ProbedBy, MayMatch;
    var n := FilterBytes(|keys|, bitsPerKey);
    var bits := Zeros(n);
    NoProbes(hash, keys, k, n);
    for i := 0 to |keys|
      invariant |bits| == n
      invariant forall bit :: 0 <= bit < 8 * n ==> (IsSet(bits, bit) <==> Probed(hash, keys[..i], k, 8 * n, bit))
    {
      var more := AddProbes(bits, hash(keys[i]), k);
      forall bit | 0 <= bit < 8 * n ensures IsSet(more, bit) <==> Probed(hash, keys[..i + 1], k, 8 * n, bit) {
        OneKeyMore(hash, keys, i, k, 8 * n, bit);
      }
      bits := more;
    }
    assert keys[..|keys|] == keys;
    filter := bits + [k];
    assert filter[..|filter| - 1] == bits;
    FilterMatches(hash, keys, filter);
  }

  lemma NoProbes(hash: Bytes -> Word32, keys: seq<Bytes>, k: nat, n: nat)
    requires n > 0
    ensures forall bit :: 0 <= bit < 8 * n ==> !IsSet(Zeros(n), bit) && !Probed(hash, keys[..0], k, 8 * n, bit)
  {
    forall bit | 0 <= bit < 8 * n ensures !IsSet(Zeros(n), bit) {
      ZeroBits(bit % 8);
    }
  }

  lemma {:induction false} ZeroBits(k: nat)
    ensures !HasBit(0, k)
  {
    if k > 0 {
      ZeroBits(k - 1);
    }
  }
}
