/** Data blocks with prefix-compressed keys and restart points (table/block_builder.cc, table/block.cc).

    The comparator is given by a rank: every total order on byte strings embeds in the reals. */
module Blocks {
  import opened InternalKeys
  import opened Coding

  datatype Pair = Pair(key: Bytes, value: Bytes)

  // --- The format ---

  function Common(a: Bytes, b: Bytes): (n: nat)
    ensures n <= |a| && n <= |b| && a[..n] == b[..n]
  {
    if a == [] || b == [] || a[0] != b[0] then 0
    else
      var n := 1 + Common(a[1..], b[1..]);
      assert a[..n] == [a[0]] + a[1..][..n - 1] && b[..n] == [b[0]] + b[1..][..n - 1];
      n
  }

  // Nothing longer is shared.
  lemma {:induction false} CommonIsLongest(a: Bytes, b: Bytes)
    ensures var n := Common(a, b); n < |a| && n < |b| ==> a[n] != b[n]
  {
    if a != [] && b != [] && a[0] == b[0] {
      CommonIsLongest(a[1..], b[1..]);
    }
  }

  // Entry i is in restart block BlockOf(i) at place PlaceOf(i): the quotient and remainder by the interval.
  function PlaceOf(i: nat, interval: nat): (r: nat)
    requires interval > 0
    ensures r < interval
  {
    if i == 0 || PlaceOf(i - 1, interval) + 1 == interval then 0 else PlaceOf(i - 1, interval) + 1
  }

  function BlockOf(i: nat, interval: nat): nat
    requires interval > 0
  {
    if i == 0 then 0 else BlockOf(i - 1, interval) + if PlaceOf(i, interval) == 0 then 1 else 0
  }

  // The first entry of restart block j.
  function Start(j: nat, interval: nat): nat {
    if j == 0 then 0 else Start(j - 1, interval) + interval
  }

  lemma {:induction false} Places(i: nat, interval: nat)
    requires interval > 0
    ensures Start(BlockOf(i, interval), interval) + PlaceOf(i, interval) == i
    decreases i
  {
    if i > 0 {
      Places(i - 1, interval);
    }
  }

  lemma {:induction false} StartsGrow(j: nat, k: nat, interval: nat)
    requires interval > 0 && j <= k
    ensures Start(j, interval) <= Start(k, interval) && (j < k ==> Start(j, interval) + interval <= Start(k, interval))
    decreases k
  {
    if j < k {
      StartsGrow(j, k - 1, interval);
    }
  }

  lemma StartPlace(j: nat, interval: nat)
    requires interval > 0
    ensures BlockOf(Start(j, interval), interval) == j && PlaceOf(Start(j, interval), interval) == 0
  {
    var i := Start(j, interval);
    var b := BlockOf(i, interval);
    Places(i, interval);
    if b < j {
      StartsGrow(b, j, interval);
    } else if j < b {
      StartsGrow(j, b, interval);
    }
  }

  // How many bytes entry i shares with the key before it; entries at multiples of the interval share none.
  function Shared(pairs: seq<Pair>, interval: nat, i: nat): (n: nat)
    requires i < |pairs| && interval > 0
    ensures n <= |pairs[i].key|
    ensures n > 0 ==> i > 0 && PlaceOf(i, interval) != 0 && n <= |pairs[i - 1].key| && pairs[i - 1].key[..n] == pairs[i].key[..n]
  {
    if PlaceOf(i, interval) == 0 then 0 else Common(pairs[i - 1].key, pairs[i].key)
  }

  // Between restart points a key leaves out all it shares with the key before it.
  lemma SharesAll(pairs: seq<Pair>, interval: nat, i: nat)
    requires 0 < i < |pairs| && interval > 0 && PlaceOf(i, interval) != 0
    ensures var n := Shared(pairs, interval, i);
            n < |pairs[i - 1].key| && n < |pairs[i].key| ==> pairs[i - 1].key[n] != pairs[i].key[n]
  {
    CommonIsLongest(pairs[i - 1].key, pairs[i].key);
  }

  function EntryHeader(shared: nat, nonShared: nat, valueLength: nat): (b: Bytes)
    ensures |b| >= 3
  {
    EncodeVarint(shared) + (EncodeVarint(nonShared) + EncodeVarint(valueLength))
  }

  function EntryBytes(shared: nat, p: Pair): (b: Bytes)
    requires shared <= |p.key|
    ensures |b| >= 3
  {
    EntryHeader(shared, |p.key| - shared, |p.value|) + p.key[shared..] + p.value
  }

  function Data(pairs: seq<Pair>, interval: nat): Bytes
    requires interval > 0
  {
    if pairs == [] then []
    else
      var n := |pairs| - 1;
      Data(pairs[..n], interval) + EntryBytes(Shared(pairs, interval, n), pairs[n])
  }

  // The offset of entry i.
  function Offset(pairs: seq<Pair>, interval: nat, i: nat): nat
    requires interval > 0 && i <= |pairs|
  {
    |Data(pairs[..i], interval)|
  }

  function RestartCount(n: nat, interval: nat): (r: nat)
    requires interval > 0
    ensures r > 0
  {
    if n == 0 then 1 else BlockOf(n - 1, interval) + 1
  }

  function RestartArray(restarts: seq<nat>): (b: Bytes)
    ensures |b| == 4 * |restarts|
  {
    if restarts == [] then []
    else RestartArray(restarts[..|restarts| - 1]) + EncodeFixed(restarts[|restarts| - 1], 4)
  }

  lemma {:induction false} DataGrows(pairs: seq<Pair>, interval: nat, i: nat, j: nat)
    requires interval > 0 && i <= j <= |pairs|
    ensures Data(pairs[..i], interval) <= Data(pairs[..j], interval)
    ensures Offset(pairs, interval, i) + 3 * (j - i) <= Offset(pairs, interval, j)
    decreases j
  {
    hide EntryBytes, Shared;
    if i < j {
      DataGrows(pairs, interval, i, j - 1);
      assert pairs[..j][..j - 1] == pairs[..j - 1];
    }
  }

  // Entry i lies between its offset and the next.
  lemma EntryAt(pairs: seq<Pair>, interval: nat, i: nat)
    requires interval > 0 && i < |pairs|
    ensures var e := EntryBytes(Shared(pairs, interval, i), pairs[i]);
            && Offset(pairs, interval, i + 1) == Offset(pairs, interval, i) + |e| <= |Data(pairs, interval)|
            && Data(pairs, interval)[Offset(pairs, interval, i)..Offset(pairs, interval, i + 1)] == e
  {
    hide EntryBytes, Shared;
    var n := |pairs|;
    assert pairs[..n] == pairs;
    DataGrows(pairs, interval, i, n);
    DataGrows(pairs, interval, i + 1, n);
    assert pairs[..i + 1][..i] == pairs[..i];
    SharedLocal(pairs, interval, i);
  }

  lemma SharedLocal(pairs: seq<Pair>, interval: nat, i: nat)
    requires interval > 0 && i < |pairs|
    ensures Shared(pairs[..i + 1], interval, i) == Shared(pairs, interval, i)
  {
  }

  // --- DecodeEntry ---

  datatype Header = Header(shared: nat, nonShared: nat, valueLength: nat, size: nat)

  function ParseHeader(s: Bytes): Option<Header> {
    if |s| < 3 then None
    else
      match GetVarint32(s)
      case Bad => None
      case Good(shared, s1) =>
        match GetVarint32(s1)
        case Bad => None
        case Good(nonShared, s2) =>
          match GetVarint32(s2)
          case Bad => None
          case Good(valueLength, s3) =>
            if |s3| < (nonShared + valueLength) % TWO32 || |s3| > |s| then None
            else Some(Header(shared, nonShared, valueLength, |s| - |s3|))
  }

  lemma OneByte(s: Bytes)
    requires s != [] && s[0] < 128
    ensures GetVarint32(s) == Good(s[0], s[1..])
  {
    Truncated(s, s[0], s[1..]);
  }

  // The fast path for three one-byte values agrees with three varints.
  method DecodeEntry(s: Bytes) returns (h: Option<Header>)
    ensures h == ParseHeader(s)
  {
    hide GetVarint32;
    if |s| < 3 {
      return None;
    }
    if s[0] < 128 && s[1] < 128 && s[2] < 128 {
      OneByte(s);
      OneByte(s[1..]);
      OneByte(s[1..][1..]);
      if |s| - 3 < (s[1] + s[2]) % TWO32 {
        return None;
      }
      return Some(Header(s[0], s[1], s[2], 3));
    }
    h := ParseHeader(s);
  }

  lemma HeaderReadsBack(shared: nat, p: Pair, rest: Bytes)
    requires shared <= |p.key| && |p.key| + |p.value| < TWO32
    ensures ParseHeader(EntryBytes(shared, p) + rest)
            == Some(Header(shared, |p.key| - shared, |p.value|, |EntryHeader(shared, |p.key| - shared, |p.value|)|))
  {
    hide GetVarint32, EncodeVarint;
    var x, y := |p.key| - shared, |p.value|;
    var a, b, c := EncodeVarint(shared), EncodeVarint(x), EncodeVarint(y);
    var body := p.key[shared..] + p.value + rest;
    Varint32RoundTrip(shared, b + (c + body));
    Varint32RoundTrip(x, c + body);
    Varint32RoundTrip(y, body);
    assert EntryBytes(shared, p) + rest == a + (b + (c + body));
  }

  // --- Restart points ---

  lemma {:induction false} RestartSlice(restarts: seq<nat>, j: nat)
    requires j < |restarts|
    ensures RestartArray(restarts)[4 * j..4 * j + 4] == EncodeFixed(restarts[j], 4)
  {
    hide EncodeFixed;
    var n := |restarts| - 1;
    var init, last := RestartArray(restarts[..n]), EncodeFixed(restarts[n], 4);
    if j < n {
      RestartSlice(restarts[..n], j);
      assert (init + last)[4 * j..4 * j + 4] == init[4 * j..4 * j + 4];
    } else {
      assert (init + last)[4 * j..4 * j + 4] == last;
    }
  }

  // A restart point is the first entry of a restart block, within the entries.
  lemma RestartInRange(n: nat, interval: nat, j: nat)
    requires interval > 0 && j < RestartCount(n, interval)
    ensures Start(j, interval) <= n && (n > 0 ==> Start(j, interval) < n)
  {
    if n > 0 {
      Places(n - 1, interval);
      StartsGrow(j, BlockOf(n - 1, interval), interval);
    }
  }

  ghost predicate RestartsOk(pairs: seq<Pair>, interval: nat, restarts: seq<nat>)
    requires interval > 0
  {
    && |restarts| == RestartCount(|pairs|, interval)
    && forall j :: 0 <= j < |restarts| ==> IsRestart(pairs, interval, j, restarts[j])
  }

  // The bytes of a finished block.
  function BlockSize(pairs: seq<Pair>, interval: nat): nat
    requires interval > 0
  {
    |Data(pairs, interval)| + 4 * RestartCount(|pairs|, interval) + 4
  }

  ghost predicate IsRestart(pairs: seq<Pair>, interval: nat, j: nat, offset: nat)
    requires interval > 0
  {
    Start(j, interval) <= |pairs| && offset == Offset(pairs, interval, Start(j, interval))
  }

  lemma OffsetLocal(pairs: seq<Pair>, interval: nat, p: Pair, i: nat)
    requires interval > 0 && i <= |pairs|
    ensures Offset(pairs + [p], interval, i) == Offset(pairs, interval, i)
  {
    assert (pairs + [p])[..i] == pairs[..i];
  }

  // The entry of one pair more.
  lemma NextEntry(pairs: seq<Pair>, interval: nat, p: Pair)
    requires interval > 0
    ensures var more, n := pairs + [p], |pairs|;
            && Data(more, interval) == Data(pairs, interval) + EntryBytes(Shared(more, interval, n), p)
            && Shared(more, interval, n)
               == (if n == 0 || PlaceOf(n, interval) == 0 then 0 else Common(pairs[n - 1].key, p.key))
    ensures pairs == [] ==> Data(pairs, interval) == []
  {
    hide EntryBytes, Common;
    assert (pairs + [p])[..|pairs|] == pairs;
  }

  lemma RestartsGrow(pairs: seq<Pair>, interval: nat, restarts: seq<nat>, p: Pair)
    requires interval > 0 && RestartsOk(pairs, interval, restarts)
    ensures (|pairs| == 0 || PlaceOf(|pairs|, interval) != 0) ==> RestartsOk(pairs + [p], interval, restarts)
    ensures |pairs| > 0 && PlaceOf(|pairs|, interval) == 0 ==>
              RestartsOk(pairs + [p], interval, restarts + [|Data(pairs, interval)|])
  {
    hide Offset, Data;
    var n := |pairs|;
    var more := pairs + [p];
    Places(n, interval);
    forall j | 0 <= j < |restarts| ensures IsRestart(more, interval, j, restarts[j]) {
      assert IsRestart(pairs, interval, j, restarts[j]);
      OffsetLocal(pairs, interval, p, Start(j, interval));
    }
    WholeOffset(pairs, interval);
    OffsetLocal(pairs, interval, p, n);
  }

  lemma WholeOffset(pairs: seq<Pair>, interval: nat)
    requires interval > 0
    ensures Offset(pairs, interval, |pairs|) == |Data(pairs, interval)|
  {
    assert pairs[..|pairs|] == pairs;
  }

  // --- BlockBuilder ---

  // `block` is the finished block of the pairs.
  ghost predicate IsBlock(pairs: seq<Pair>, interval: nat, block: Bytes)
    requires interval > 0
  {
    exists restarts :: Finished(pairs, interval, restarts, block)
  }

  ghost predicate Finished(pairs: seq<Pair>, interval: nat, restarts: seq<nat>, block: Bytes)
    requires interval > 0
  {
    && RestartsOk(pairs, interval, restarts)
    && block == Data(pairs, interval) + RestartArray(restarts) + EncodeFixed(|restarts|, 4)
  }

  class BlockBuilder {
    const interval: nat
    var buffer: Bytes
    var restarts: seq<nat>
    var counter: nat
    var lastKey: Bytes
    ghost var pairs: seq<Pair>

    ghost predicate Valid()
      reads this
    {
      && interval > 0
      && buffer == Data(pairs, interval)
      && RestartsOk(pairs, interval, restarts)
      && counter == (if pairs == [] then 0 else PlaceOf(|pairs| - 1, interval) + 1)
      && lastKey == (if pairs == [] then [] else pairs[|pairs| - 1].key)
    }

    constructor (interval: nat)
      requires interval > 0
      ensures Valid() && pairs == [] && this.interval == interval
    {
      this.interval := interval;
      buffer, restarts, counter, lastKey, pairs := [], [0], 0, [], [];
      new;
      assert IsRestart([], interval, 0, 0);
    }

    method Reset()
      requires interval > 0
      modifies this
      ensures Valid() && pairs == []
    {
      buffer, restarts, counter, lastKey, pairs := [], [0], 0, [], [];
      assert IsRestart([], interval, 0, 0);
    }

    method IsEmpty() returns (empty: bool)
      requires Valid()
      ensures empty <==> pairs == []
    {
      empty := buffer == [];
      if pairs != [] {
        EntryAt(pairs, interval, 0);
      }
    }

    function CurrentSizeEstimate(): nat
      reads this
    {
      |buffer| + 4 * |restarts| + 4
    }

    lemma SizeIs()
      requires Valid()
      ensures CurrentSizeEstimate() == BlockSize(pairs, interval)
    {
    }

    // The loop that measures the shared prefix.
    static method SharedLength(last: Bytes, key: Bytes) returns (shared: nat)
      ensures shared == Common(last, key)
    {
      shared := 0;
      while shared < |last| && shared < |key| && last[shared] == key[shared]
        invariant shared <= |last| && shared <= |key|
        invariant shared + Common(last[shared..], key[shared..]) == Common(last, key)
      {
        assert last[shared..][1..] == last[shared + 1..] && key[shared..][1..] == key[shared + 1..];
        shared := shared + 1;
      }
    }

    method Add(key: Bytes, value: Bytes)
      requires Valid()
      modifies this
      ensures Valid() && pairs == old(pairs) + [Pair(key, value)]
    {
      hide EntryBytes, Data, Shared, RestartsOk, Common;
      ghost var n := |pairs|;
      ghost var p := Pair(key, value);
      NextEntry(pairs, interval, p);
      ghost var more := pairs + [p];
      RestartsGrow(pairs, interval, restarts, p);
      var shared := 0;
      if counter < interval {
        shared := SharedLength(lastKey, key);
      } else {
        restarts := restarts + [|buffer|];
        counter := 0;
      }
      assert shared == Shared(more, interval, n);
      AppendEntry(shared, key, value);
      pairs := more;
      lastKey := lastKey[..shared] + key[shared..];
      assert lastKey == key;
      counter := counter + 1;
    }

    method AppendEntry(shared: nat, key: Bytes, value: Bytes)
      requires shared <= |key|
      modifies this`buffer
      ensures buffer == old(buffer) + EntryBytes(shared, Pair(key, value))
    {
      hide EncodeVarint;
      var nonShared := |key| - shared;
      buffer := buffer + EncodeVarint(shared);
      buffer := buffer + EncodeVarint(nonShared);
      buffer := buffer + EncodeVarint(|value|);
      buffer := buffer + key[shared..];
      buffer := buffer + value;
      Join5(old(buffer), EncodeVarint(shared), EncodeVarint(nonShared), EncodeVarint(|value|), key[shared..], value);
    }

    // The finished block; the builder's own buffer is not used again before Reset.
    method Finish() returns (block: Bytes)
      requires Valid()
      ensures IsBlock(pairs, interval, block)
    {
      hide EncodeFixed;
      block := buffer;
      for i := 0 to |restarts|
        invariant block == buffer + RestartArray(restarts[..i])
      {
        assert restarts[..i + 1][..i] == restarts[..i];
        var b := EncodeFixed(restarts[i], 4);
        assert buffer + RestartArray(restarts[..i]) + b == buffer + (RestartArray(restarts[..i]) + b);
        block := block + b;
      }
      assert restarts[..|restarts|] == restarts;
      block := block + EncodeFixed(|restarts|, 4);
      assert Finished(pairs, interval, restarts, block);
    }
  }

  lemma Join5(o: Bytes, a: Bytes, b: Bytes, c: Bytes, d: Bytes, e: Bytes)
    ensures o + a + b + c + d + e == o + (a + (b + c) + d + e)
  {
  }
}
