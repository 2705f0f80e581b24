/** The shared specification of an iterator over a sorted run (include/leveldb/iterator.h): a position in the run,
    where position |run| is the invalid state reached past either end. */
module Cursors {
  import opened InternalKeys

  // Seek: the first entry at or after the target.
  function SeekPos(run: seq<Entry>, target: IKey): (i: nat)
    ensures i <= |run|
    ensures i < |run| ==> !Less(run[i].key, target)
    ensures forall j :: 0 <= j < i ==> Less(run[j].key, target)
  {
    if run == [] then 0
    else if !Less(run[0].key, target) then 0
    else
      assert forall j :: 1 <= j < |run| ==> run[j] == run[1..][j - 1];
      1 + SeekPos(run[1..], target)
  }

  function FirstPos(run: seq<Entry>): nat { 0 }

  function LastPos(run: seq<Entry>): nat {
    if run == [] then 0 else |run| - 1
  }

  function NextPos(run: seq<Entry>, p: nat): nat
    requires p < |run|
  {
    p + 1
  }

  function PrevPos(run: seq<Entry>, p: nat): nat
    requires p < |run|
  {
    if p == 0 then |run| else p - 1
  }

  // --- A run of iterator calls, from a position ---

  datatype Op<T> = Seek(target: T) | SeekToFirst | SeekToLast | Next | Prev

  // What a cursor in a list of n rows does, when `seek` gives the first row at or after a target; Next and Prev are
  // calls a client makes on a valid iterator only.
  ghost function CursorStep<T>(n: nat, seek: T -> nat, p: nat, op: Op<T>): nat {
    match op
    case Seek(target) => seek(target)
    case SeekToFirst => 0
    case SeekToLast => if n == 0 then 0 else n - 1
    case Next => if p < n then p + 1 else p
    case Prev => if p < n then (if p == 0 then n else p - 1) else p
  }

  ghost function CursorRun<T>(n: nat, seek: T -> nat, p: nat, ops: seq<Op<T>>): nat {
    if ops == [] then p
    else CursorStep(n, seek, CursorRun(n, seek, p, ops[..|ops| - 1]), ops[|ops| - 1])
  }

  // Seeking in a sorted run.
  ghost function SeekIn(run: seq<Entry>): IKey -> nat {
    target => SeekPos(run, target)
  }

  // --- Lists cut into blocks ---

  function Flat<T>(blocks: seq<seq<T>>): seq<T> {
    if blocks == [] then [] else Flat(blocks[..|blocks| - 1]) + blocks[|blocks| - 1]
  }

  // The position where block j begins.
  function Base<T>(blocks: seq<seq<T>>, j: nat): nat
    requires j <= |blocks|
  {
    |Flat(blocks[..j])|
  }

  lemma {:induction false} FlatPrefix<T>(blocks: seq<seq<T>>, j: nat, k: nat)
    requires j <= k <= |blocks|
    ensures Flat(blocks[..j]) <= Flat(blocks[..k])
    decreases k
  {
    if j < k {
      FlatPrefix(blocks, j, k - 1);
      assert blocks[..k][..k - 1] == blocks[..k - 1];
    }
  }

  lemma BlockBase<T>(blocks: seq<seq<T>>, j: nat)
    requires j < |blocks|
    ensures Base(blocks, j + 1) == Base(blocks, j) + |blocks[j]|
  {
    assert blocks[..j + 1][..j] == blocks[..j];
  }

  lemma BaseOrder<T>(blocks: seq<seq<T>>, j: nat, k: nat)
    requires j <= k <= |blocks|
    ensures Base(blocks, j) <= Base(blocks, k) <= |Flat(blocks)| && Base(blocks, |blocks|) == |Flat(blocks)|
  {
    FlatPrefix(blocks, j, k);
    FlatPrefix(blocks, k, |blocks|);
    assert blocks[..|blocks|] == blocks;
  }

  lemma FlatAt<T>(blocks: seq<seq<T>>, j: nat, p: nat)
    requires j < |blocks| && p < |blocks[j]|
    ensures Base(blocks, j) + p < |Flat(blocks)| && Flat(blocks)[Base(blocks, j) + p] == blocks[j][p]
  {
    BlockBase(blocks, j);
    FlatPrefix(blocks, j + 1, |blocks|);
    assert blocks[..|blocks|] == blocks && blocks[..j + 1][..j] == blocks[..j];
  }

  // Every position lies in one block.
  lemma {:induction false} FlatFind<T>(blocks: seq<seq<T>>, q: nat) returns (j: nat, p: nat)
    requires q < |Flat(blocks)|
    ensures j < |blocks| && p < |blocks[j]| && q == Base(blocks, j) + p && Flat(blocks)[q] == blocks[j][p]
    decreases |blocks|
  {
    var n := |blocks| - 1;
    if q < |Flat(blocks[..n])| {
      j, p := FlatFind(blocks[..n], q);
      assert blocks[..n][..j] == blocks[..j];
    } else {
      j, p := n, q - |Flat(blocks[..n])|;
    }
  }
}
