/** The list of live snapshots (db/snapshot.h): a circular doubly linked list through a dummy head, oldest first.  The
    lists of the block cache (util/cache.cc) are linked and unlinked by the same stores. */
module Snapshots {
  import opened InternalKeys

  class SnapshotImpl {
    const sequence: SequenceNumber
    var prev: SnapshotImpl?
    var next: SnapshotImpl?

    constructor (sequence: SequenceNumber)
      ensures this.sequence == sequence
    {
      this.sequence, prev, next := sequence, null, null;
    }
  }

  // The nodes form a ring in this order.
  ghost predicate Ring(nodes: seq<SnapshotImpl>)
    reads nodes
  {
    && (forall i, j :: 0 <= i < j < |nodes| ==> nodes[i] != nodes[j])
    && (forall k :: 0 <= k < |nodes| ==> LinkOk(nodes, k))
  }

  ghost predicate LinkOk(nodes: seq<SnapshotImpl>, k: nat)
    requires k < |nodes|
    reads nodes[k]
  {
    nodes[k].next == nodes[After(k, |nodes|)] && nodes[k].prev == nodes[Before(k, |nodes|)]
  }

  class SnapshotList {
    const head: SnapshotImpl
    ghost var items: seq<SnapshotImpl>

    ghost predicate Valid()
      reads this, head, items
    {
      Ring([head] + items) && forall i, j :: 0 <= i < j < |items| ==> items[i].sequence <= items[j].sequence
    }

    constructor ()
      ensures Valid() && items == [] && fresh(head)
    {
      var h := new SnapshotImpl(0);
      head, items := h, [];
      new;
      h.prev, h.next := h, h;
    }

    method IsEmpty() returns (empty: bool)
      requires Valid()
      ensures empty <==> items == []
    {
      assert LinkOk([head] + items, 0);
      empty := head.next == head;
    }

    // The snapshot whose sequence number a compaction may not pass.
    method Oldest() returns (s: SnapshotImpl)
      requires Valid() && items != []
      ensures s in items && forall t :: t in items ==> s.sequence <= t.sequence
    {
      assert LinkOk([head] + items, 0);
      s := head.next;
      assert s == items[0];
    }

    // A snapshot at or after the newest one.
    method New(sequence: SequenceNumber) returns (s: SnapshotImpl)
      requires Valid() && forall t :: t in items ==> t.sequence <= sequence
      modifies this, head, items
      ensures Valid() && fresh(s) && s.sequence == sequence && items == old(items) + [s]
    {
      ghost var ring := [head] + items;
      s := new SnapshotImpl(sequence);
      assert LinkOk(ring, 0);
      s.next := head;
      s.prev := head.prev;
      s.prev.next := s;
      s.next.prev := s;
      items := items + [s];
      ghost var more := [head] + items;
      assert more == ring + [s];
      forall k | 0 <= k < |more| ensures LinkOk(more, k) {
        if k < |ring| {
          assert old(LinkOk(ring, k));
        }
      }
    }

    method Delete(s: SnapshotImpl)
      requires Valid() && s in items
      modifies this, head, items
      ensures Valid() && multiset(items) == multiset(old(items)) - multiset{s} && s !in items
    {
      hide LinkOk;
      ghost var i :| 0 <= i < |items| && items[i] == s;
      ghost var ring := [head] + items;
      assert forall k :: 0 <= k < |items| ==> items[k] == ring[k + 1];
      Removed(items, i);
      Unlink(s, i);
    }

    method Unlink(s: SnapshotImpl, ghost i: nat)
      requires Ring([head] + items) && i < |items| && items[i] == s
      modifies this, head, items
      ensures items == RemoveAt(old(items), i) && Ring([head] + items)
    {
      hide Ring, Nexts, Prevs;
      ghost var ring := [head] + items;
      RingApart(ring);
      Relink(s, ring, i + 1);
      items := RemoveAt(items, i);
      RemovedIsSkip(head, old(items), i);
      SkipIsRing(ring, i + 1);
    }

    // The two stores that take node k out of the ring.
    method Relink(s: SnapshotImpl, ghost ring: seq<SnapshotImpl>, ghost k: nat)
      requires Ring(ring) && 0 < k < |ring| && ring[k] == s
      modifies ring
      ensures forall j :: 0 <= j < |ring| ==> ring[j].next == Nexts(ring)[k - 1 := ring[After(k, |ring|)]][j]
      ensures forall j :: 0 <= j < |ring| ==> ring[j].prev == Prevs(ring)[After(k, |ring|) := ring[k - 1]][j]
    {
      hide Ring;
      RingApart(ring);
      RingLinks(ring);
      s.prev.next := s.next;
      s.next.prev := s.prev;
    }
  }

  // The pointers of the nodes of a ring.
  ghost function Nexts(ring: seq<SnapshotImpl>): (r: seq<SnapshotImpl?>)
    ensures |r| == |ring| && forall j :: 0 <= j < |ring| ==> r[j] == ring[After(j, |ring|)]
  {
    seq(|ring|, j requires 0 <= j < |ring| => ring[After(j, |ring|)])
  }

  ghost function Prevs(ring: seq<SnapshotImpl>): (r: seq<SnapshotImpl?>)
    ensures |r| == |ring| && forall j :: 0 <= j < |ring| ==> r[j] == ring[Before(j, |ring|)]
  {
    seq(|ring|, j requires 0 <= j < |ring| => ring[Before(j, |ring|)])
  }

  function After(k: nat, n: nat): nat {
    if k + 1 < n then k + 1 else 0
  }

  function Before(k: nat, n: nat): nat
    requires n > 0
  {
    if k > 0 then k - 1 else n - 1
  }

  function Skip<T>(s: seq<T>, k: nat): (r: seq<T>)
    requires k < |s|
    ensures |r| == |s| - 1 && forall j :: 0 <= j < |r| ==> r[j] == s[if j < k then j else j + 1]
  {
    s[..k] + s[k + 1..]
  }

  // The pointers of the nodes of a ring, as values.
  ghost predicate Links(nodes: seq<SnapshotImpl>, nexts: seq<SnapshotImpl?>, prevs: seq<SnapshotImpl?>) {
    && |nexts| == |prevs| == |nodes|
    && (forall k :: 0 <= k < |nodes| ==> nexts[k] == nodes[After(k, |nodes|)])
    && (forall k :: 0 <= k < |nodes| ==> prevs[k] == nodes[Before(k, |nodes|)])
  }

  lemma RingLinks(nodes: seq<SnapshotImpl>)
    requires Ring(nodes)
    ensures forall k :: 0 <= k < |nodes| ==> nodes[k].next == nodes[After(k, |nodes|)]
    ensures forall k :: 0 <= k < |nodes| ==> nodes[k].prev == nodes[Before(k, |nodes|)]
  {
    forall k | 0 <= k < |nodes|
      ensures nodes[k].next == nodes[After(k, |nodes|)] && nodes[k].prev == nodes[Before(k, |nodes|)]
    {
      assert LinkOk(nodes, k);
    }
  }

  lemma RemovedIsSkip(head: SnapshotImpl, items: seq<SnapshotImpl>, i: nat)
    requires i < |items|
    ensures [head] + RemoveAt(items, i) == Skip([head] + items, i + 1)
  {
  }

  // After the two stores the other nodes are a ring.
  lemma SkipIsRing(ring: seq<SnapshotImpl>, k: nat)
    requires 0 < k < |ring|
    requires forall i, j :: 0 <= i < |ring| && 0 <= j < |ring| && i != j ==> ring[i] != ring[j]
    requires forall j :: 0 <= j < |ring| ==> ring[j].next == Nexts(ring)[k - 1 := ring[After(k, |ring|)]][j]
    requires forall j :: 0 <= j < |ring| ==> ring[j].prev == Prevs(ring)[After(k, |ring|) := ring[k - 1]][j]
    ensures Ring(Skip(ring, k))
  {
    hide Ring;
    var n := |ring|;
    var nexts, prevs := Nexts(ring), Prevs(ring);
    Unlinked(ring, nexts, prevs, k);
    LinksRing(Skip(ring, k), Skip(nexts[k - 1 := ring[After(k, n)]], k), Skip(prevs[After(k, n) := ring[k - 1]], k));
  }

  lemma LinksRing(nodes: seq<SnapshotImpl>, nexts: seq<SnapshotImpl?>, prevs: seq<SnapshotImpl?>)
    requires Links(nodes, nexts, prevs)
    requires forall i, j :: 0 <= i < j < |nodes| ==> nodes[i] != nodes[j]
    requires forall k :: 0 <= k < |nodes| ==> nodes[k].next == nexts[k] && nodes[k].prev == prevs[k]
    ensures Ring(nodes)
  {
  }

  // Leaving out node k.
  lemma Unlinked(nodes: seq<SnapshotImpl>, nexts: seq<SnapshotImpl?>, prevs: seq<SnapshotImpl?>, k: nat)
    requires Links(nodes, nexts, prevs) && 0 < k < |nodes|
    ensures var n := |nodes|;
            Links(Skip(nodes, k), Skip(nexts[k - 1 := nodes[After(k, n)]], k), Skip(prevs[After(k, n) := nodes[k - 1]], k))
  {
  }

  lemma RingApart(ring: seq<SnapshotImpl>)
    requires Ring(ring)
    ensures forall i, j :: 0 <= i < |ring| && 0 <= j < |ring| && i != j ==> ring[i] != ring[j]
  {
  }

  ghost function RemoveAt(s: seq<SnapshotImpl>, i: nat): seq<SnapshotImpl>
    requires i < |s|
  {
    s[..i] + s[i + 1..]
  }

  lemma Removed(items: seq<SnapshotImpl>, i: nat)
    requires i < |items| && forall j, k :: 0 <= j < k < |items| ==> items[j] != items[k]
    requires forall j, k :: 0 <= j < k < |items| ==> items[j].sequence <= items[k].sequence
    ensures var rest := RemoveAt(items, i);
            && multiset(rest) == multiset(items) - multiset{items[i]} && items[i] !in rest
            && forall j, k :: 0 <= j < k < |rest| ==> rest[j].sequence <= rest[k].sequence
  {
    var rest := RemoveAt(items, i);
    assert items == items[..i] + [items[i]] + items[i + 1..];
    assert forall k :: 0 <= k < |rest| ==> rest[k] == items[if k < i then k else k + 1];
  }
}
