/** Write batches (db/write_batch.cc) and log replay (db/db_impl.cc 427-462).

    A batch is a byte string: a sequence number, a count and the encoded operations. */
module WriteBatches {
  import opened InternalKeys
  import opened Coding
  import opened Log

  datatype Op = Put(key: Bytes, value: Bytes) | Delete(key: Bytes)

  // Lengths are stored in 32 bits.
  predicate OpOk(op: Op) {
    |op.key| < TWO32 && (op.Put? ==> |op.value| < TWO32)
  }

  predicate OpsOk(ops: seq<Op>) {
    forall i :: 0 <= i < |ops| ==> OpOk(ops[i])
  }

  const BATCH_HEADER: nat := 12

  function EncodeOp(op: Op): (b: Bytes)
    ensures b != []
  {
    match op
    case Put(key, value) => [1] + PutLengthPrefixed(key) + PutLengthPrefixed(value)
    case Delete(key) => [0] + PutLengthPrefixed(key)
  }

  function EncodeOps(ops: seq<Op>): Bytes {
    if ops == [] then [] else EncodeOps(ops[..|ops| - 1]) + EncodeOp(ops[|ops| - 1])
  }

  // The contents of a batch; the count wraps at 32 bits.
  function Rep(sequence: Word64, ops: seq<Op>): (b: Bytes)
    ensures |b| >= BATCH_HEADER
  {
    EncodeFixed64(sequence) + CountField(|ops|) + EncodeOps(ops)
  }

  function CountField(n: nat): (b: Bytes)
    ensures |b| == 4
  {
    EncodeFixed32(n % TWO32)
  }

  lemma {:induction false} EncodeOpsAppend(a: seq<Op>, b: seq<Op>)
    ensures EncodeOps(a + b) == EncodeOps(a) + EncodeOps(b)
  {
    hide EncodeOp;
    if b == [] {
      assert a + b == a;
    } else {
      var n := |b| - 1;
      EncodeOpsAppend(a, b[..n]);
      assert (a + b)[..|a + b| - 1] == a + b[..n];
      assert EncodeOps(a) + EncodeOps(b[..n]) + EncodeOp(b[n]) == EncodeOps(a) + (EncodeOps(b[..n]) + EncodeOp(b[n]));
    }
  }

  // --- Reading operations back ---

  // One operation from the front of the input.
  function ParseOp(s: Bytes): (r: Parsed<Op>)
    requires s != []
    ensures r.Good? ==> |r.rest| < |s|
  {
    if s[0] != 0 && s[0] != 1 then Bad
    else
      match Slice(s[1..])
      case Bad => Bad
      case Good(key, rest) =>
        if s[0] == 0 then Good(Delete(key), rest)
        else
          match Slice(rest)
          case Bad => Bad
          case Good(value, after) => Good(Put(key, value), after)
  }

  function Slice(s: Bytes): (r: Parsed<Bytes>)
    ensures r.Good? ==> |r.rest| <= |s|
  {
    SliceShrinks(s, 5);
    GetLengthPrefixed(s)
  }

  lemma {:induction false} SliceShrinks(s: Bytes, n: nat)
    ensures ParseVarint(s, n).Good? ==> |ParseVarint(s, n).rest| <= |s|
    decreases n
  {
    if n > 0 && s != [] {
      SliceShrinks(s[1..], n - 1);
    }
  }

  // The operations up to the first malformed one, and whether there is none.
  function ParseOps(s: Bytes): (seq<Op>, bool)
    decreases |s|
  {
    if s == [] then ([], true)
    else
      match ParseOp(s)
      case Bad => ([], false)
      case Good(op, rest) => var (ops, ok) := ParseOps(rest); ([op] + ops, ok)
  }

  lemma OpReadsBack(op: Op, rest: Bytes)
    requires OpOk(op)
    ensures ParseOp(EncodeOp(op) + rest) == Good(op, rest)
  {
    hide GetLengthPrefixed, PutLengthPrefixed;
    var s := EncodeOp(op) + rest;
    match op
    case Delete(key) =>
      assert s[1..] == PutLengthPrefixed(key) + rest;
      LengthPrefixedRoundTrip(key, rest);
    case Put(key, value) =>
      var after := PutLengthPrefixed(value) + rest;
      assert s[1..] == PutLengthPrefixed(key) + after;
      LengthPrefixedRoundTrip(key, after);
      LengthPrefixedRoundTrip(value, rest);
  }

  lemma {:induction false} OpsReadBack(ops: seq<Op>)
    requires OpsOk(ops)
    ensures ParseOps(EncodeOps(ops)) == (ops, true)
    decreases |ops|
  {
    hide ParseOp, EncodeOp;
    if ops != [] {
      var rest := ops[1..];
      assert ops == ops[..1] + rest && ops[..1][..0] == [];
      EncodeOpsAppend(ops[..1], rest);
      assert EncodeOps(ops[..1]) == [] + EncodeOp(ops[0]) == EncodeOp(ops[0]);
      OpReadsBack(ops[0], EncodeOps(rest));
      OpsReadBack(rest);
      assert EncodeOps(ops) == EncodeOp(ops[0]) + EncodeOps(rest) != [];
      assert [ops[0]] + rest == ops;
    }
  }

  // --- WriteBatch ---

  class WriteBatch {
    var rep: Bytes
    ghost var sequence: Word64
    ghost var ops: seq<Op>

    ghost predicate Valid()
      reads this
    {
      OpsOk(ops) && rep == Rep(sequence, ops)
    }

    constructor ()
      ensures Valid() && sequence == 0 && ops == []
    {
      new;
      Clear();
    }

    method Clear()
      modifies this
      ensures Valid() && sequence == 0 && ops == []
    {
      rep := seq(BATCH_HEADER, _ => 0);
      sequence, ops := 0, [];
      ZeroHeader();
    }

    method Count() returns (n: nat)
      requires Valid()
      ensures n == |ops| % TWO32
    {
      RepFields(sequence, ops);
      n := DecodeFixed(rep[8..12]);
    }

    method SetCount(n: nat)
      requires |rep| >= BATCH_HEADER
      modifies this`rep
      ensures rep == old(rep)[..8] + CountField(n) + old(rep)[12..]
    {
      rep := rep[..8] + CountField(n) + rep[12..];
    }

    method SetSequence(s: Word64)
      requires Valid()
      modifies this
      ensures Valid() && sequence == s && ops == old(ops)
    {
      hide EncodeFixed64, CountField, EncodeOps;
      RepFields(sequence, ops);
      rep := EncodeFixed64(s) + rep[8..];
      sequence := s;
      assert rep == Rep(s, ops);
    }

    // Appends the encoding of more operations after the count has been raised.
    method Extend(n: nat, bytes: Bytes, ghost more: seq<Op>)
      requires Valid() && OpsOk(more) && bytes == EncodeOps(more) && n % TWO32 == |more| % TWO32
      modifies this
      ensures Valid() && sequence == old(sequence) && ops == old(ops) + more
    {
      hide Rep, EncodeOps, CountField;
      var count := Count();
      CountsAdd(|ops|, |more|, n);
      RepLength(sequence, ops);
      SetCount(count + n);
      rep := rep + bytes;
      ghost var before := ops;
      ops := ops + more;
      RepGrows(sequence, before, more, count + n);
    }

    method Put(key: Bytes, value: Bytes)
      requires Valid() && |key| < TWO32 && |value| < TWO32
      modifies this
      ensures Valid() && sequence == old(sequence) && ops == old(ops) + [Op.Put(key, value)]
    {
      OneOp(Op.Put(key, value));
      Extend(1, [1] + PutLengthPrefixed(key) + PutLengthPrefixed(value), [Op.Put(key, value)]);
    }

    method Delete(key: Bytes)
      requires Valid() && |key| < TWO32
      modifies this
      ensures Valid() && sequence == old(sequence) && ops == old(ops) + [Op.Delete(key)]
    {
      OneOp(Op.Delete(key));
      Extend(1, [0] + PutLengthPrefixed(key), [Op.Delete(key)]);
    }

    method Append(source: WriteBatch)
      requires Valid() && source.Valid()
      modifies this
      ensures Valid() && sequence == old(sequence) && ops == old(ops) + old(source.ops)
    {
      hide Rep, EncodeOps, CountField;
      var n := source.Count();
      RepLength(source.sequence, source.ops);
      RepFields(source.sequence, source.ops);
      Extend(n, source.rep[12..], source.ops);
    }

    // Iterate with a handler that collects: what it is handed, and whether the batch is well formed.
    method Iterate() returns (handled: seq<Op>, ok: bool)
      ensures (handled, ok) == IterateRep(rep)
    {
      handled := [];
      if |rep| < BATCH_HEADER {
        return [], false;
      }
      hide ParseOp;
      var input := rep[BATCH_HEADER..];
      ghost var all := ParseOps(input);
      assert [] + all.0 == all.0;
      while input != []
        invariant (handled + ParseOps(input).0, ParseOps(input).1) == all
        decreases |input|
      {
        ghost var now := handled;
        match ParseOp(input) {
          case Bad =>
            assert handled + [] == handled;
            return handled, false;
          case Good(op, rest) =>
            handled := handled + [op];
            input := rest;
            assert now + ([op] + ParseOps(rest).0) == handled + ParseOps(rest).0;
        }
      }
      assert handled + [] == handled;
      ok := |handled| % TWO32 == DecodeFixed(rep[8..12]);
    }
  }

  function IterateRep(rep: Bytes): (seq<Op>, bool) {
    if |rep| < BATCH_HEADER then ([], false)
    else
      var (ops, ok) := ParseOps(rep[BATCH_HEADER..]);
      (ops, ok && |ops| % TWO32 == DecodeFixed(rep[8..12]))
  }

  lemma ZeroHeader()
    ensures Rep(0, []) == seq(BATCH_HEADER, _ => 0)
  {
    assert EncodeFixed(0, 4) == [0, 0, 0, 0];
    assert EncodeFixed(0, 8) == [0, 0, 0, 0] + EncodeFixed(0, 4);
  }

  lemma Layout(a: Bytes, b: Bytes, c: Bytes)
    requires |a| == 8 && |b| == 4
    ensures var s := a + b + c; s[..8] == a && s[8..12] == b && s[12..] == c && s[8..] == b + c
  {
    var s := a + b + c;
    assert s[..8] == a && s[8..12] == b && s[12..] == c && s[8..] == b + c;
  }

  lemma RepFields(sequence: Word64, ops: seq<Op>)
    ensures var rep := Rep(sequence, ops);
            && DecodeFixed(rep[..8]) == sequence && DecodeFixed(rep[8..12]) == |ops| % TWO32
            && rep[..8] == EncodeFixed64(sequence) && rep[12..] == EncodeOps(ops)
            && rep[8..] == CountField(|ops|) + EncodeOps(ops)
  {
    hide EncodeFixed, DecodeFixed, EncodeOps;
    Layout(EncodeFixed64(sequence), CountField(|ops|), EncodeOps(ops));
    Fixed64RoundTrip(sequence);
    Fixed32RoundTrip(|ops| % TWO32);
  }

  lemma RepGrows(sequence: Word64, ops: seq<Op>, more: seq<Op>, n: nat)
    requires n % TWO32 == (|ops| + |more|) % TWO32
    ensures var rep := Rep(sequence, ops);
            rep[..8] + CountField(n) + rep[12..] + EncodeOps(more) == Rep(sequence, ops + more)
  {
    hide CountField, DecodeFixed, EncodeOps, EncodeFixed64;
    RepFields(sequence, ops);
    EncodeOpsAppend(ops, more);
    SameCount(n, |ops + more|);
    Regroup(EncodeFixed64(sequence) + CountField(n), EncodeOps(ops), EncodeOps(more));
  }

  lemma SameCount(a: nat, b: nat)
    requires a % TWO32 == b % TWO32
    ensures CountField(a) == CountField(b)
  {
  }

  lemma Regroup(a: Bytes, b: Bytes, c: Bytes)
    ensures a + b + c == a + (b + c)
  {
  }

  lemma RepLength(sequence: Word64, ops: seq<Op>)
    ensures |Rep(sequence, ops)| >= BATCH_HEADER
  {
  }

  // Counts add up modulo 2^32.
  lemma CountsAdd(a: nat, b: nat, n: nat)
    requires n % TWO32 == b % TWO32
    ensures (a % TWO32 + n) % TWO32 == (a + b) % TWO32
  {
    var r := (a + b) % TWO32;
    var k := (a + b) / TWO32 - a / TWO32 - b / TWO32 + n / TWO32;
    assert a % TWO32 + n == TWO32 * k + r;
  }

  lemma OneOp(op: Op)
    ensures EncodeOps([op]) == EncodeOp(op)
  {
    assert [op][..0] == [];
  }

  // Iterate inverts any sequence of Put, Delete and Append.
  lemma IterateInverts(sequence: Word64, ops: seq<Op>)
    requires OpsOk(ops)
    ensures IterateRep(Rep(sequence, ops)) == (ops, true)
  {
    RepFields(sequence, ops);
    OpsReadBack(ops);
  }

  // --- Batches cut short ---

  lemma EncodeFront(ops: seq<Op>)
    requires ops != []
    ensures EncodeOps(ops) == EncodeOp(ops[0]) + EncodeOps(ops[1..])
  {
    hide EncodeOp;
    assert ops == ops[..1] + ops[1..] && ops[..1][..0] == [];
    EncodeOpsAppend(ops[..1], ops[1..]);
    assert EncodeOps(ops[..1]) == [] + EncodeOp(ops[0]) == EncodeOp(ops[0]);
  }

  // An operation cut anywhere inside is malformed.
  lemma OpCut(op: Op, c: nat)
    requires OpOk(op) && 0 < c < |EncodeOp(op)|
    ensures ParseOp(EncodeOp(op)[..c]).Bad?
  {
    hide GetLengthPrefixed, PutLengthPrefixed;
    match op
    case Delete(key) =>
      assert EncodeOp(op)[..c][1..] == PutLengthPrefixed(key)[..c - 1];
      SliceCut(key, c - 1);
    case Put(key, value) =>
      PutCut(key, value, c);
  }

  lemma PutCut(key: Bytes, value: Bytes, c: nat)
    requires |key| < TWO32 && |value| < TWO32 && 0 < c < |EncodeOp(Put(key, value))|
    ensures ParseOp(EncodeOp(Put(key, value))[..c]).Bad?
  {
    hide GetLengthPrefixed, PutLengthPrefixed;
    var k, v := PutLengthPrefixed(key), PutLengthPrefixed(value);
    var s := EncodeOp(Put(key, value))[..c];
    assert s[0] == 1 && s[1..] == (k + v)[..c - 1];
    TwoSlicesCut(key, value, c - 1);
  }

  lemma TwoSlicesCut(key: Bytes, value: Bytes, c: nat)
    requires |key| < TWO32 && |value| < TWO32 && c < |PutLengthPrefixed(key) + PutLengthPrefixed(value)|
    ensures var s := (PutLengthPrefixed(key) + PutLengthPrefixed(value))[..c];
            GetLengthPrefixed(s).Bad? || GetLengthPrefixed(GetLengthPrefixed(s).rest).Bad?
  {
    hide GetLengthPrefixed, PutLengthPrefixed;
    var k, v := PutLengthPrefixed(key), PutLengthPrefixed(value);
    if c < |k| {
      assert (k + v)[..c] == k[..c];
      SliceCut(key, c);
    } else {
      assert (k + v)[..c] == k + v[..c - |k|];
      LengthPrefixedRoundTrip(key, v[..c - |k|]);
      SliceCut(value, c - |k|);
    }
  }

  // k operations are whole in the first c bytes.
  ghost predicate WholeOps(ops: seq<Op>, c: nat, k: nat) {
    && k <= |ops| && |EncodeOps(ops[..k])| <= c
    && (k < |ops| ==> c < |EncodeOps(ops[..k + 1])|)
  }

  lemma {:induction false} OpsCut(ops: seq<Op>, c: nat) returns (k: nat)
    requires OpsOk(ops) && c <= |EncodeOps(ops)|
    ensures WholeOps(ops, c, k)
    ensures ParseOps(EncodeOps(ops)[..c]) == (ops[..k], c == |EncodeOps(ops[..k])|)
    decreases |ops|
  {
    hide ParseOp, EncodeOp, EncodeOps, OpOk;
    NoOps();
    assert ops[..0] == [];
    if ops == [] || c == 0 {
      k := 0;
      if ops != [] {
        FirstWhole(ops);
      }
    } else {
      EncodeFront(ops);
      var first, rest := EncodeOp(ops[0]), ops[1..];
      FirstWhole(ops);
      assert OpOk(ops[0]) && OpsOk(rest);
      if c < |first| {
        k := 0;
        assert EncodeOps(ops)[..c] == first[..c];
        OpCut(ops[0], c);
      } else {
        var m := OpsCut(rest, c - |first|);
        k := m + 1;
        assert EncodeOps(ops)[..c] == first + EncodeOps(rest)[..c - |first|];
        OpReadsBack(ops[0], EncodeOps(rest)[..c - |first|]);
        FrontOf(ops, k);
        if k < |ops| {
          FrontOf(ops, k + 1);
        }
        assert ops[..k] == [ops[0]] + rest[..m];
      }
    }
  }

  lemma NoOps()
    ensures EncodeOps([]) == [] && ParseOps([]) == ([], true)
  {
  }

  lemma FirstWhole(ops: seq<Op>)
    requires ops != []
    ensures EncodeOps(ops[..1]) == EncodeOp(ops[0]) != []
  {
    assert ops[..1][..0] == [];
    assert EncodeOps(ops[..1]) == [] + EncodeOp(ops[0]);
  }

  lemma FrontOf(ops: seq<Op>, k: nat)
    requires 0 < k <= |ops|
    ensures EncodeOps(ops[..k]) == EncodeOp(ops[0]) + EncodeOps(ops[1..][..k - 1])
  {
    EncodeFront(ops[..k]);
    assert ops[..k][1..] == ops[1..][..k - 1];
  }

  // A record that is neither a put nor a deletion ends the batch as malformed.
  lemma {:induction false} UnknownOpFails(ops: seq<Op>, kind: Byte, rest: Bytes)
    requires OpsOk(ops) && kind > 1
    ensures ParseOps(EncodeOps(ops) + ([kind] + rest)) == (ops, false)
    decreases |ops|
  {
    hide EncodeOp, EncodeOps, OpOk;
    NoOps();
    if ops == [] {
      assert EncodeOps(ops) + ([kind] + rest) == [kind] + rest;
    } else {
      EncodeFront(ops);
      assert OpOk(ops[0]) && OpsOk(ops[1..]);
      var more := EncodeOps(ops[1..]) + ([kind] + rest);
      assert EncodeOps(ops) + ([kind] + rest) == EncodeOp(ops[0]) + more;
      FirstWhole(ops);
      OpReadsBack(ops[0], more);
      UnknownOpFails(ops[1..], kind, rest);
      assert [ops[0]] + ops[1..] == ops;
    }
  }

  // A batch whose bytes are cut anywhere hands over its whole operations and is never taken for well formed.
  lemma CutBatchIsMalformed(sequence: Word64, ops: seq<Op>, c: nat) returns (k: nat)
    requires OpsOk(ops) && |ops| < TWO32 && c < |EncodeOps(ops)|
    ensures WholeOps(ops, c, k) && k < |ops|
    ensures IterateRep(Rep(sequence, ops)[..BATCH_HEADER + c]) == (ops[..k], false)
  {
    hide ParseOps, EncodeOps, DecodeFixed, Rep;
    RepFields(sequence, ops);
    var rep := Rep(sequence, ops);
    RepLength(sequence, ops);
    k := OpsCut(ops, c);
    assert ops[..|ops|] == ops;
    var cut := rep[..BATCH_HEADER + c];
    assert cut[BATCH_HEADER..] == EncodeOps(ops)[..c] && cut[8..12] == rep[8..12];
  }
}
