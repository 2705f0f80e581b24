/** The skip list behind a memtable (db/skiplist.h): one writer at a time, any number of concurrent readers.

    Loads and stores of links are the atomic steps, taken as sequentially consistent.  Keys are ranks of a comparator. */
module SkipLists {
  import opened InternalKeys

  const MAX_HEIGHT: nat := 12

  class Node {
    const key: real
    var next: seq<Node?>

    constructor (key: real, height: nat)
      ensures this.key == key && next == seq(height, _ => null)
    {
      this.key := key;
      next := seq(height, _ => null);
    }
  }

  // The node after position k of a level.
  ghost function Succ(level: seq<Node>, k: nat): Node?
    requires k < |level|
  {
    if k + 1 < |level| then level[k + 1] else null
  }

  // Position 0 is the head, which is before every key; after it the keys ascend.
  ghost predicate Ascending(level: seq<Node>) {
    && (forall k :: 0 < k < |level| ==> level[k] != level[0])
    && (forall j, k :: 0 < j < k < |level| ==> level[j].key < level[k].key)
  }

  // Level i of the list is linked through next[i].
  ghost predicate Linked(level: seq<Node>, i: nat)
    reads level
  {
    forall k :: 0 <= k < |level| ==> LinkOk(level, i, k)
  }

  ghost predicate LinkOk(level: seq<Node>, i: nat, k: nat)
    requires k < |level|
    reads level[k]
  {
    i < |level[k].next| && level[k].next[i] == Succ(level, k)
  }

  ghost function InsertAt(level: seq<Node>, k: nat, x: Node): seq<Node>
    requires k < |level|
  {
    level[..k + 1] + [x] + level[k + 1..]
  }

  lemma InsertAscends(level: seq<Node>, k: nat, x: Node)
    requires k < |level| && Ascending(level) && x != level[0]
    requires k > 0 ==> level[k].key < x.key
    requires k + 1 < |level| ==> x.key < level[k + 1].key
    ensures Ascending(InsertAt(level, k, x))
  {
  }

  lemma InsertMembers(level: seq<Node>, k: nat, x: Node)
    requires k < |level|
    ensures forall n :: n in InsertAt(level, k, x) <==> n in level || n == x
    ensures InsertAt(level, k, x)[0] == level[0]
  {
    var r := InsertAt(level, k, x);
    assert r[k + 1] == x;
    forall n | n in level ensures n in r {
      var j :| 0 <= j < |level| && level[j] == n;
      assert r[if j <= k then j else j + 1] == n;
    }
  }

  ghost predicate Sublist(levels: seq<seq<Node>>, i: nat)
    requires 0 < i < |levels|
  {
    forall n :: n in levels[i] ==> n in levels[i - 1]
  }

  lemma SublistsStay(levels: seq<seq<Node>>, i: nat, k: nat, x: Node, more: seq<seq<Node>>)
    requires i < |levels| && k < |levels[i]| && more == levels[i := InsertAt(levels[i], k, x)]
    requires forall j :: 0 < j < |levels| ==> Sublist(levels, j)
    requires i > 0 ==> x in levels[i - 1]
    ensures forall j :: 0 < j < |levels| ==> Sublist(more, j)
  {
    InsertMembers(levels[i], k, x);
    forall j | 0 < j < |levels| ensures Sublist(more, j) {
      assert Sublist(levels, j);
    }
  }

  // A key belongs right after position k.
  ghost predicate Gap(level: seq<Node>, k: nat, key: real) {
    && k < |level|
    && (k > 0 ==> level[k].key < key)
    && (k + 1 < |level| ==> key <= level[k + 1].key)
  }

  // The first node at or after the key; null when there is none.
  ghost predicate FirstAtLeast(level: seq<Node>, key: real, n: Node?) {
    && (forall k :: 0 < k < |level| && level[k].key >= key ==> n != null && n.key <= level[k].key)
    && (n != null ==> n.key >= key && exists k :: 0 < k < |level| && level[k] == n)
  }

  // The last node before the key; the head when there is none.
  ghost predicate LastBelow(level: seq<Node>, key: real, n: Node) {
    && level != [] && n in level && (n != level[0] ==> n.key < key)
    && forall k :: 0 < k < |level| && level[k].key < key ==> n != level[0] && level[k].key <= n.key
  }

  lemma GapAnswers(level: seq<Node>, k: nat, key: real)
    requires Ascending(level) && Gap(level, k, key)
    ensures FirstAtLeast(level, key, Succ(level, k)) && LastBelow(level, key, level[k])
  {
    assert forall j :: 0 < j < k ==> level[j].key < level[k].key;
  }

  class SkipList {
    const head: Node
    var maxHeight: nat
    ghost var levels: seq<seq<Node>>
    ghost var nodes: set<Node>

    // Each level is an ascending sublist of the one below; levels not in use are empty.
    ghost predicate Valid()
      reads this, nodes
    {
      && |levels| == MAX_HEIGHT && 1 <= maxHeight <= MAX_HEIGHT
      && (forall i, n :: 0 <= i < MAX_HEIGHT && n in levels[i] ==> n in nodes)
      && (forall i :: 0 <= i < MAX_HEIGHT ==> levels[i] != [] && levels[i][0] == head && Ascending(levels[i]) && Linked(levels[i], i))
      && (forall i :: 0 < i < MAX_HEIGHT ==> Sublist(levels, i))
      && (forall i :: maxHeight <= i < MAX_HEIGHT ==> |levels[i]| == 1)
    }

    constructor ()
      ensures Valid() && levels[0] == [head] && fresh(nodes)
    {
      var h := new Node(0.0, MAX_HEIGHT);
      head, maxHeight := h, 1;
      levels := seq(MAX_HEIGHT, _ => [h]);
      nodes := {h};
    }

    // --- Searches ---

    // A node of a level, and its position there.
    ghost predicate At(level: nat, k: nat, x: Node)
      reads this`levels
    {
      level < |levels| && k < |levels[level]| && levels[level][k] == x
    }

    // The key belongs right after this node.
    ghost predicate Precedes(level: nat, x: Node, key: real)
      requires level < |levels|
      reads this`levels
    {
      exists k :: At(level, k, x) && Gap(levels[level], k, key)
    }

    // Moving down a level keeps the node and the keys before it.
    lemma Down(level: nat, k: nat, x: Node) returns (k': nat)
      requires Valid() && 0 < level < MAX_HEIGHT && At(level, k, x)
      ensures At(level - 1, k', x) && (k > 0 <==> k' > 0)
    {
      assert Sublist(levels, level) && x in levels[level];
      assert x in levels[level - 1];
      k' :| 0 <= k' < |levels[level - 1]| && levels[level - 1][k'] == x;
      assert k > 0 ==> levels[level][k] != head;
      assert k' > 0 ==> levels[level - 1][k'] != head;
    }

    lemma LinkAt(level: nat, k: nat, x: Node)
      requires Valid() && level < MAX_HEIGHT && At(level, k, x)
      ensures level < |x.next| && x.next[level] == Succ(levels[level], k)
    {
      assert LinkOk(levels[level], level, k);
    }

    // FindGreaterOrEqual; prev[i] is the node before the key on every level in use.
    method FindGreaterOrEqual(key: real) returns (n: Node?, prev: seq<Node>)
      requires Valid()
      ensures FirstAtLeast(levels[0], key, n)
      ensures |prev| == maxHeight && forall i :: 0 <= i < maxHeight ==> Precedes(i, prev[i], key)
    {
      hide Ascending, Linked, Sublist;
      var x: Node, level: nat := head, maxHeight - 1;
      ghost var k := 0;
      prev := seq(maxHeight, _ => head);
      while true
        invariant level < maxHeight && At(level, k, x) && (k > 0 ==> x.key < key) && |prev| == maxHeight
        invariant forall i :: level < i < maxHeight ==> Precedes(i, prev[i], key)
        decreases level, |levels[level]| - k
      {
        LinkAt(level, k, x);
        var next := x.next[level];
        if next != null && next.key < key {
          x, k := next, k + 1;
        } else {
          prev := prev[level := x];
          assert At(level, k, x) && Gap(levels[level], k, key);
          if level == 0 {
            GapAnswers(levels[0], k, key);
            return next, prev;
          }
          k := Down(level, k, x);
          level := level - 1;
        }
      }
    }

    method FindLessThan(key: real) returns (x: Node)
      requires Valid()
      ensures LastBelow(levels[0], key, x)
    {
      hide Ascending, Linked, Sublist;
      x := head;
      var level: nat := maxHeight - 1;
      ghost var k := 0;
      while true
        invariant level < maxHeight && At(level, k, x) && (k > 0 ==> x.key < key)
        decreases level, |levels[level]| - k
      {
        LinkAt(level, k, x);
        var next := x.next[level];
        if next == null || next.key >= key {
          if level == 0 {
            GapAnswers(levels[0], k, key);
            return;
          }
          k := Down(level, k, x);
          level := level - 1;
        } else {
          x, k := next, k + 1;
        }
      }
    }

    method FindLast() returns (x: Node)
      requires Valid()
      ensures x == levels[0][|levels[0]| - 1]
    {
      hide Ascending, Linked, Sublist;
      x := head;
      var level: nat := maxHeight - 1;
      ghost var k := 0;
      while true
        invariant level < maxHeight && At(level, k, x)
        decreases level, |levels[level]| - k
      {
        LinkAt(level, k, x);
        var next := x.next[level];
        if next == null {
          if level == 0 {
            return;
          }
          k := Down(level, k, x);
          level := level - 1;
        } else {
          x, k := next, k + 1;
        }
      }
    }

    method Contains(key: real) returns (found: bool)
      requires Valid()
      ensures found <==> key in Keys()
    {
      var x, _ := FindGreaterOrEqual(key);
      found := x != null && x.key == key;
    }

    // --- The stores of Insert, one at a time ---

    method StoreMaxHeight(height: nat)
      requires Valid() && maxHeight < height <= MAX_HEIGHT
      modifies this`maxHeight
      ensures Valid() && maxHeight == height
    {
      maxHeight := height;
    }

    // x->NoBarrier_SetNext(i, prev->NoBarrier_Next(i)): readers on level i do not see x yet.
    method StoreOwnLink(x: Node, i: nat, prev: Node, ghost k: nat)
      requires Valid() && i < MAX_HEIGHT && At(i, k, prev) && i < |x.next| && x !in levels[i]
      modifies x`next
      ensures Valid() && x.next == old(x.next)[i := Succ(levels[i], k)]
    {
      LinkAt(i, k, prev);
      x.next := x.next[i := prev.next[i]];
      forall j | 0 <= j < MAX_HEIGHT ensures Linked(levels[j], j) {
        forall m | 0 <= m < |levels[j]| ensures LinkOk(levels[j], j, m) {
          assert old(LinkOk(levels[j], j, m));
        }
      }
    }

    // prev->SetNext(i, x): publishes x on level i.
    method StoreLink(x: Node, i: nat, prev: Node, ghost k: nat)
      requires Valid() && i < maxHeight && At(i, k, prev) && Gap(levels[i], k, x.key)
      requires k + 1 < |levels[i]| ==> levels[i][k + 1].key != x.key
      requires i < |x.next| && x.next[i] == Succ(levels[i], k) && x != head && x !in levels[i]
      requires i > 0 ==> x in levels[i - 1]
      modifies this`levels, this`nodes, prev`next
      ensures Valid() && levels == old(levels)[i := InsertAt(old(levels[i]), k, x)] && nodes == old(nodes) + {x}
    {
      hide Sublist, Ascending, Linked;
      levels := SetNext(prev, i, x, levels, k);
      nodes := nodes + {x};
      ghost var before := old(levels[i]);
      InsertMembers(before, k, x);
      InsertAscends(before, k, x);
      SublistsStay(old(levels), i, k, x, levels);
    }

    ghost function Keys(): set<real>
      requires |levels| > 0
      reads this`levels
    {
      KeysOf(levels[0])
    }
  }

  // Storing x into link i of the node at position k inserts it there and leaves the other levels linked.
  method SetNext(prev: Node, i: nat, x: Node, ghost levels: seq<seq<Node>>, ghost k: nat) returns (ghost after: seq<seq<Node>>)
    requires i < |levels| && k < |levels[i]| && levels[i][k] == prev && Ascending(levels[i]) && x !in levels[i]
    requires forall j :: 0 <= j < |levels| ==> Linked(levels[j], j)
    requires i < |x.next| && x.next[i] == Succ(levels[i], k)
    modifies prev`next
    ensures i < |old(prev.next)| && prev.next == old(prev.next)[i := x]
    ensures after == levels[i := InsertAt(levels[i], k, x)] && forall j :: 0 <= j < |after| ==> Linked(after[j], j)
  {
    after := levels[i := InsertAt(levels[i], k, x)];
    assert LinkOk(levels[i], i, k);
    assert forall m :: 0 <= m < |levels[i]| && m != k ==> levels[i][m] != prev;
    prev.next := prev.next[i := x];
    forall j | 0 <= j < |after| ensures Linked(after[j], j) {
      forall m | 0 <= m < |after[j]| ensures LinkOk(after[j], j, m) {
        if j != i || m <= k {
          assert old(LinkOk(levels[j], j, m));
        } else if m > k + 1 {
          assert old(LinkOk(levels[j], j, m - 1));
        }
      }
    }
  }

  // --- SkipList::Iterator: a cursor in the bottom level; positions count from 0 after the head, |run| when not valid ---

  class Iterator {
    const list: SkipList
    var node: Node?

    ghost function Run(): seq<Node>
      requires list.Valid()
      reads this, list, list.nodes
    {
      list.levels[0][1..]
    }

    ghost predicate At(p: nat)
      reads this, list, list.nodes
    {
      list.Valid() && p <= |Run()| && node == if p < |Run()| then Run()[p] else null
    }

    constructor (list: SkipList)
      requires list.Valid()
      ensures this.list == list && At(|Run()|)
    {
      this.list, node := list, null;
    }

    method Seek(target: real) returns (ghost p: nat)
      requires list.Valid()
      modifies this
      ensures At(p) && (forall j :: 0 <= j < p ==> Run()[j].key < target) && (p < |Run()| ==> Run()[p].key >= target)
    {
      hide Linked, Sublist;
      var n, _ := list.FindGreaterOrEqual(target);
      node := n;
      if n == null {
        p := |list.levels[0]| - 1;
      } else {
        ghost var k :| 0 < k < |list.levels[0]| && list.levels[0][k] == n;
        p := k - 1;
      }
    }

    method SeekToFirst()
      requires list.Valid()
      modifies this
      ensures At(0)
    {
      hide Linked, Sublist;
      list.LinkAt(0, 0, list.head);
      node := list.head.next[0];
    }

    method SeekToLast()
      requires list.Valid()
      modifies this
      ensures At(if Run() == [] then 0 else |Run()| - 1)
    {
      hide Linked, Sublist;
      var n := list.FindLast();
      node := if n == list.head then null else n;
    }

    method Next(ghost p: nat)
      requires At(p) && node != null
      modifies this
      ensures At(p + 1)
    {
      hide Linked, Sublist;
      list.LinkAt(0, p + 1, node);
      node := node.next[0];
    }

    method Prev(ghost p: nat)
      requires At(p) && node != null
      modifies this
      ensures At(if p == 0 then |Run()| else p - 1)
    {
      hide Linked, Sublist;
      assert list.levels[0][p + 1] == node;
      var n := list.FindLessThan(node.key);
      BelowIs(list.levels[0], p, n);
      node := if n == list.head then null else n;
    }
  }

  // The last node below a node's key is the one before it.
  lemma BelowIs(level: seq<Node>, k: nat, n: Node)
    requires Ascending(level) && k + 1 < |level| && LastBelow(level, level[k + 1].key, n)
    ensures n == level[k]
  {
    var j :| 0 <= j < |level| && level[j] == n;
    if j > k {
      assert false;
    }
    assert k > 0 ==> level[k].key < level[k + 1].key;
    if j < k {
      assert false;
    }
  }

  // --- An insertion in progress ---

  datatype Pc = Height | Own(level: nat) | Publish(level: nat) | Finished

  class Inserter {
    const list: SkipList
    const key: real
    const height: nat
    const x: Node
    const prev: seq<Node>
    var pc: Pc

    // The first level x is not linked on yet.
    ghost function Level(): nat
      reads this
    {
      match pc
      case Height => 0
      case Own(i) => i
      case Publish(i) => i
      case Finished => height
    }

    ghost function Left(): nat
      reads this
    {
      match pc
      case Height => 2 * MAX_HEIGHT + 2
      case Own(i) => if i < height then 2 * (height - i) + 1 else 1
      case Publish(i) => if i < height then 2 * (height - i) else 1
      case Finished => 0
    }

    // Between any two stores.
    ghost predicate Ready()
      reads this, list, list.nodes, x
    {
      && list.Valid() && 1 <= height <= MAX_HEIGHT && |prev| == height && |x.next| == height && x.key == key
      && x != list.head && Level() <= height && (pc.Own? || pc.Publish? ==> Level() < height)
      && (pc.Height? || height <= list.maxHeight)
      && (Level() > 0 ==> x in list.levels[Level() - 1])
      && (forall i :: Level() <= i < height ==> list.Precedes(i, prev[i], key) && x !in list.levels[i] && Lacks(list.levels[i], key))
      && (pc.Publish? ==> OwnLinkOk())
    }

    ghost predicate OwnLinkOk()
      requires |x.next| == height && pc.Publish? && pc.level < height <= |list.levels| && |prev| == height
      reads this, list`levels, x
    {
      var i := pc.level;
      forall k :: list.At(i, k, prev[i]) ==> x.next[i] == Succ(list.levels[i], k)
    }

    // The search, the choice of prev above the old height and the new node.
    constructor (list: SkipList, key: real, height: nat)
      requires list.Valid() && key !in list.Keys() && 1 <= height <= MAX_HEIGHT
      ensures Ready() && pc.Height? && this.list == list && this.key == key && this.height == height
      ensures fresh(x)
    {
      var _, before := list.FindGreaterOrEqual(key);
      var oldHeight := list.maxHeight;
      if height > oldHeight {
        before := before + seq(height - oldHeight, _ => list.head);
      }
      var node := new Node(key, height);
      this.list, this.key, this.height, this.x, this.prev, this.pc := list, key, height, node, before[..height], Height;
      new;
      forall i | 0 <= i < height ensures list.Precedes(i, prev[i], key) && x !in list.levels[i] && Lacks(list.levels[i], key) {
        if i >= oldHeight {
          assert list.At(i, 0, list.head) && Gap(list.levels[i], 0, key);
        }
        NoKey(list, i, key);
      }
    }

    // One store.
    method Step()
      requires Ready() && !pc.Finished?
      modifies this`pc, list, list.nodes, x
      ensures Ready() && Left() < old(Left()) && old(Level()) <= Level()
      ensures Grown(old(list.levels), list.levels)
      ensures list.nodes <= old(list.nodes) + {x} && old(list.nodes) <= list.nodes
      ensures list.Keys() == old(list.Keys()) + if old(Level()) == 0 < Level() then {key} else {}
    {
      hide Ready;
      hide SkipList.Valid, SkipList.Keys;
      match pc {
        case Height => StoreHeight();
        case Own(i) => StoreOwn(i);
        case Publish(i) => StorePublish(i);
      }
    }

    method StoreHeight()
      requires Ready() && pc.Height?
      modifies this`pc, list`maxHeight
      ensures Ready() && pc == Own(0) && height <= MAX_HEIGHT
    {
      hide Ascending, Linked, Sublist, Gap, Lacks;
      hide SkipList.At;
      if height > list.maxHeight {
        list.StoreMaxHeight(height);
      }
      pc := Own(0);
    }

    method StoreOwn(i: nat)
      requires Ready() && pc == Own(i)
      modifies this`pc, x
      ensures Ready() && pc == Publish(i) && i < height
    {
      hide Ascending, Linked, Sublist, Lacks;
      ghost var k :| list.At(i, k, prev[i]) && Gap(list.levels[i], k, key);
      list.StoreOwnLink(x, i, prev[i], k);
      pc := Publish(i);
      forall k' | list.At(i, k', prev[i]) ensures k' == k {
        OnePosition(list, i, k, k', prev[i]);
      }
    }

    method StorePublish(i: nat)
      requires Ready() && pc == Publish(i)
      modifies this`pc, list, list.nodes
      ensures Ready() && i < height && pc == if i + 1 < height then Own(i + 1) else Finished
      ensures Grown(old(list.levels), list.levels)
      ensures list.nodes == old(list.nodes) + {x}
      ensures list.Keys() == old(list.Keys()) + if i == 0 then {key} else {}
    {
      hide Ascending, Linked, Sublist;
      ghost var k :| list.At(i, k, prev[i]) && Gap(list.levels[i], k, key);
      list.StoreLink(x, i, prev[i], k);
      InsertKeys(old(list.levels[i]), k, x);
      InsertMembers(old(list.levels[i]), k, x);
      pc := if i + 1 < height then Own(i + 1) else Finished;
      forall j | i < j < height
        ensures list.Precedes(j, prev[j], key) && x !in list.levels[j] && Lacks(list.levels[j], key)
      {
        ghost var m :| old(list.At(j, m, prev[j])) && Gap(old(list.levels[j]), m, key);
        assert list.At(j, m, prev[j]);
      }
    }
  }

  ghost function KeysOf(level: seq<Node>): set<real> {
    set k | 0 < k < |level| :: level[k].key
  }

  lemma InsertKeys(level: seq<Node>, k: nat, x: Node)
    requires k < |level|
    ensures KeysOf(InsertAt(level, k, x)) == KeysOf(level) + {x.key}
  {
    var r := InsertAt(level, k, x);
    assert r[k + 1] == x;
    forall key | key in KeysOf(level) ensures key in KeysOf(r) {
      var j :| 0 < j < |level| && level[j].key == key;
      assert r[if j <= k then j else j + 1].key == key;
    }
    forall key | key in KeysOf(r) ensures key in KeysOf(level) + {x.key} {
      var j :| 0 < j < |r| && r[j].key == key;
      assert j != k + 1 ==> level[if j <= k then j else j - 1].key == key;
    }
  }

  lemma OnePosition(list: SkipList, i: nat, k: nat, k': nat, x: Node)
    requires list.Valid() && i < MAX_HEIGHT && list.At(i, k, x) && list.At(i, k', x)
    ensures k == k'
  {
    var level := list.levels[i];
    assert Ascending(level);
  }

  // A level above holds no key the bottom level lacks.
  lemma {:induction false} NoKey(list: SkipList, i: nat, key: real)
    requires list.Valid() && key !in list.Keys() && i < MAX_HEIGHT
    ensures Lacks(list.levels[i], key)
  {
    var level := list.levels[i];
    forall k | 0 < k < |level| ensures level[k].key != key {
      InBottom(list, i, level[k]);
      var j :| 0 <= j < |list.levels[0]| && list.levels[0][j] == level[k];
      assert j > 0 && list.levels[0][j].key in list.Keys();
    }
  }

  lemma {:induction false} InBottom(list: SkipList, i: nat, n: Node)
    requires list.Valid() && i < MAX_HEIGHT && n in list.levels[i]
    ensures n in list.levels[0]
    decreases i
  {
    if i > 0 {
      assert Sublist(list.levels, i);
      InBottom(list, i - 1, n);
    }
  }

  // Nodes are never unlinked.
  ghost predicate Grown(a: seq<seq<Node>>, b: seq<seq<Node>>) {
    |a| == |b| && forall i, n :: 0 <= i < |a| && n in a[i] ==> n in b[i]
  }

  // Insert with the height it drew; the whole is the sequence of its stores.
  method Insert(list: SkipList, key: real, height: nat)
    requires list.Valid() && key !in list.Keys() && 1 <= height <= MAX_HEIGHT
    modifies list, list.nodes
    ensures list.Valid() && list.Keys() == old(list.Keys()) + {key}
    ensures fresh(list.nodes - old(list.nodes)) && old(list.nodes) <= list.nodes
  {
    var w := new Inserter(list, key, height);
    while !w.pc.Finished?
      invariant w.Ready() && fresh(w) && w.list == list && fresh(w.x) && w.key == key
      invariant list.nodes <= old(list.nodes) + {w.x} && old(list.nodes) <= list.nodes
      invariant list.Keys() == if w.Level() == 0 then old(list.Keys()) else old(list.Keys()) + {key}
      decreases w.Left()
    {
      w.Step();
    }
  }


  // No node of the level has the key.
  ghost predicate Lacks(level: seq<Node>, key: real) {
    forall k :: 0 < k < |level| ==> level[k].key != key
  }

  // --- A search in progress, while insertions go on ---

  class Reader {
    const list: SkipList
    const key: real
    var x: Node
    var level: nat
    var done: bool
    var result: Node?
    ghost var seen: seq<Node>      // the bottom level at the last load
    ghost var loads: nat

    // Holds between any two loads, whatever the writer stored in between.
    ghost predicate Ready()
      reads this, list, list.nodes
    {
      && list.Valid() && level < MAX_HEIGHT && x in list.levels[level] && (x != list.head ==> x.key < key)
      && (done ==> FirstAtLeast(seen, key, result))
    }

    // GetMaxHeight and the head.
    constructor (list: SkipList, key: real)
      requires list.Valid()
      ensures Ready() && !done && this.list == list && this.key == key && loads == 0
    {
      loads := 0;
      this.list, this.key, this.x, this.level, this.done, this.result := list, key, list.head, list.maxHeight - 1, false, null;
      seen := [];
    }

    // One load of FindGreaterOrEqual: it ends the search, goes down a level or moves on to a larger key.  The last one is
    // where the search takes effect.
    method Step()
      requires Ready() && !done
      modifies this
      ensures Ready() && (done ==> seen == list.levels[0]) && loads == old(loads) + 1
      ensures !done ==>
                || (level == old(level) - 1 && x == old(x))
                || (level == old(level) && x != list.head && (old(x) != list.head ==> old(x).key < x.key))
    {
      hide Ascending, Linked, Sublist;
      ghost var k :| 0 <= k < |list.levels[level]| && list.levels[level][k] == x;
      NotHead(list, level, k);
      list.LinkAt(level, k, x);
      var next := x.next[level];
      loads := loads + 1;
      if next != null && next.key < key {
        NextIsLarger(list, level, k, x, next);
        x := next;
      } else if level == 0 {
        GapAnswers(list.levels[0], k, key);
        done, result, seen := true, next, list.levels[0];
      } else {
        ghost var k' := list.Down(level, k, x);
        level := level - 1;
      }
    }
  }

  lemma NextIsLarger(list: SkipList, i: nat, k: nat, x: Node, next: Node)
    requires list.Valid() && i < MAX_HEIGHT && list.At(i, k, x) && Succ(list.levels[i], k) == next
    ensures next != list.head && (x != list.head ==> x.key < next.key)
  {
    assert Ascending(list.levels[i]);
  }

  lemma NotHead(list: SkipList, i: nat, k: nat)
    requires list.Valid() && i < MAX_HEIGHT && k < |list.levels[i]|
    ensures k > 0 <==> list.levels[i][k] != list.head
  {
    assert Ascending(list.levels[i]);
  }

  // A store of the writer does not disturb a reader.
  twostate lemma ReaderStays(r: Reader)
    requires old(r.Ready()) && r.list.Valid() && unchanged(r) && old(|r.list.levels|) == |r.list.levels|
    requires Grown(old(r.list.levels), r.list.levels)
    ensures r.Ready()
  {
  }

  function Moves(schedule: seq<bool>, who: bool): nat {
    if schedule == [] then 0
    else Moves(schedule[..|schedule| - 1], who) + if schedule[|schedule| - 1] == who then 1 else 0
  }

  // The keys of the insertions that are possible.
  ghost function Wanted(inserts: seq<(real, nat)>): set<real> {
    set i | 0 <= i < |inserts| && 1 <= inserts[i].1 <= MAX_HEIGHT :: inserts[i].0
  }

  lemma WantedMore(inserts: seq<(real, nat)>, n: nat)
    requires n < |inserts|
    ensures Wanted(inserts[..n + 1])
            == Wanted(inserts[..n]) + if 1 <= inserts[n].1 <= MAX_HEIGHT then {inserts[n].0} else {}
  {
    var more, less := inserts[..n + 1], inserts[..n];
    assert forall i :: 0 <= i < n ==> more[i] == less[i];
    forall k | k in Wanted(less) ensures k in Wanted(more) {
      var i :| 0 <= i < n && 1 <= less[i].1 <= MAX_HEIGHT && less[i].0 == k;
      assert more[i] == less[i];
    }
    assert more[n] == inserts[n];
  }

  lemma NothingWanted(inserts: seq<(real, nat)>)
    ensures Wanted(inserts[..0]) == {}
  {
  }

  // The most moves one insertion takes.
  const INSERT_MOVES: nat := 2 * MAX_HEIGHT + 3

  // What the writer still has to do, in moves.
  ghost function Work(inserts: seq<(real, nat)>, started: nat, w: Inserter?): nat
    requires started <= |inserts|
    reads w
  {
    (|inserts| - started) * INSERT_MOVES + if w != null then w.Left() else 0
  }

  // The key of an insertion that has not published its node yet.
  ghost function Unpublished(w: Inserter?): set<real>
    reads w
  {
    if w != null && w.Level() == 0 then {w.key} else {}
  }

  // A reader and a writer on a list that held `keys` when they began.
  ghost predicate Going(list: SkipList, r: Reader, w: Inserter?, inserts: seq<(real, nat)>, started: nat, keys: set<real>)
    reads list, list.nodes, r, w, if w != null then {w.x} else {}
  {
    && started <= |inserts| && list.Valid() && r.list == list && r.Ready()
    && (w != null ==> w.list == list && w.Ready())
    && list.Keys() + Unpublished(w) == keys + Wanted(inserts[..started]) && keys <= list.Keys()
    && (r.done ==> keys <= KeysOf(r.seen) <= list.Keys())
  }

  method ReaderMove(list: SkipList, r: Reader, ghost w: Inserter?, ghost inserts: seq<(real, nat)>, ghost started: nat,
                    ghost keys: set<real>)
    requires Going(list, r, w, inserts, started, keys) && !r.done && (w != null ==> w as object != r)
    modifies r
    ensures Going(list, r, w, inserts, started, keys) && r.loads == old(r.loads) + 1
  {
    hide FirstAtLeast, KeysOf, Wanted, SkipList.Keys, Unpublished, Inserter.Ready;
    r.Step();
    KeysAtLoad(r);
  }

  // A store of the insertion in progress, or the start of the next one.
  method WriterMove(list: SkipList, r: Reader, w: Inserter?, inserts: seq<(real, nat)>, started: nat, ghost keys: set<real>)
    returns (w': Inserter?, started': nat)
    requires Going(list, r, w, inserts, started, keys)
    modifies list, list.nodes, if w != null then {w, w.x} else {}
    ensures Going(list, r, w', inserts, started', keys) && unchanged(r)
    ensures fresh(list.nodes - old(list.nodes) - if w != null then {w.x} else {}) && old(list.nodes) <= list.nodes
    ensures w' == w || w' == null || (fresh(w') && fresh(w'.x))
    ensures Work(inserts, started', w') == 0 || Work(inserts, started', w') < old(Work(inserts, started, w))
  {
    hide FirstAtLeast, KeysOf, Wanted, SkipList.Keys, Unpublished, Inserter.Ready, Reader.Ready;
    w', started' := w, started;
    if w != null && !w.pc.Finished? {
      WriterMoves(w, r);
    } else if started < |inserts| {
      if w != null {
        FinishedIsPublished(w);
      }
      WantedMore(inserts, started);
      w' := StartInsert(list, inserts[started].0, inserts[started].1);
      started' := started + 1;
      NothingUnpublished();
      assert list.Keys() + Unpublished(w') == keys + Wanted(inserts[..started']);
    } else if w != null {
      FinishedIsPublished(w);
    }
  }

  // The writer inserts keys one after the other while a reader searches; `schedule` says who moves.  If the search has
  // ended, its answer is exact for the list as it was at the last load, which held every key present at the start; and
  // with enough moves the writer has inserted every key.
  method Interleave(list: SkipList, inserts: seq<(real, nat)>, key: real, schedule: seq<bool>) returns (r: Reader)
    requires list.Valid()
    modifies list, list.nodes
    ensures list.Valid() && r.Ready() && r.list == list && r.key == key
    ensures old(list.Keys()) <= list.Keys() <= old(list.Keys()) + Wanted(inserts)
    ensures r.done ==> FirstAtLeast(r.seen, key, r.result) && old(list.Keys()) <= KeysOf(r.seen) <= list.Keys()
    ensures r.done || r.loads == Moves(schedule, true)
    ensures Moves(schedule, false) >= |inserts| * INSERT_MOVES ==> list.Keys() == old(list.Keys()) + Wanted(inserts)
  {
    hide Going, FirstAtLeast, Sublist, Ascending, Linked, Lacks, KeysOf, Wanted, Unpublished, Work;
    hide SkipList.Keys, Inserter.Ready;
    r := new Reader(list, key);
    var w: Inserter? := null;
    var started: nat := 0;
    ghost var keys := list.Keys();
    GoingStarts(list, r, inserts, keys);
    for i := 0 to |schedule|
      invariant started <= |inserts|
      invariant fresh(r) && r.list == list && r.key == key && Going(list, r, w, inserts, started, keys)
      invariant old(list.nodes) <= list.nodes && fresh(list.nodes - old(list.nodes))
      invariant w != null ==> fresh(w) && fresh(w.x) && w as object != r
      invariant r.done || r.loads == Moves(schedule[..i], true)
      invariant Work(inserts, started, w) == 0 || Work(inserts, started, w) + Moves(schedule[..i], false) <= |inserts| * INSERT_MOVES
    {
      assert schedule[..i + 1][..i] == schedule[..i];
      if schedule[i] {
        if !r.done {
          ReaderMove(list, r, w, inserts, started, keys);
        }
      } else {
        w, started := WriterMove(list, r, w, inserts, started, keys);
        StartedInRange(list, r, w, inserts, started, keys);
      }
    }
    assert schedule[..|schedule|] == schedule;
    GoingEnds(list, r, w, inserts, started, keys);
  }

  lemma GoingStarts(list: SkipList, r: Reader, inserts: seq<(real, nat)>, keys: set<real>)
    requires list.Valid() && r.Ready() && r.list == list && !r.done && keys == list.Keys()
    ensures Going(list, r, null, inserts, 0, keys) && Work(inserts, 0, null) == |inserts| * INSERT_MOVES
  {
    hide SkipList.Valid, SkipList.Keys, Wanted;
    NothingWanted(inserts);
    NothingUnpublished();
  }

  lemma StartedInRange(list: SkipList, r: Reader, w: Inserter?, inserts: seq<(real, nat)>, started: nat, keys: set<real>)
    requires Going(list, r, w, inserts, started, keys)
    ensures started <= |inserts|
  {
  }

  lemma GoingEnds(list: SkipList, r: Reader, w: Inserter?, inserts: seq<(real, nat)>, started: nat, keys: set<real>)
    requires Going(list, r, w, inserts, started, keys)
    ensures list.Valid() && r.Ready() && keys <= list.Keys() <= keys + Wanted(inserts)
    ensures r.done ==> FirstAtLeast(r.seen, r.key, r.result) && keys <= KeysOf(r.seen) <= list.Keys()
    ensures started <= |inserts| && (Work(inserts, started, w) == 0 ==> list.Keys() == keys + Wanted(inserts))
  {
    hide SkipList.Valid, SkipList.Keys, KeysOf, Wanted;
    AllStarted(inserts, started, w);
  }

  lemma NothingUnpublished()
    ensures Unpublished(null) == {}
  {
  }

  lemma FinishedIsPublished(w: Inserter)
    requires w.Ready() && w.pc.Finished?
    ensures Unpublished(w) == {} && w.Left() == 0
  {
  }

  lemma KeysAtLoad(r: Reader)
    requires r.Ready() && (r.done ==> r.seen == r.list.levels[0])
    ensures r.done ==> KeysOf(r.seen) == r.list.Keys()
  {
  }

  // Without work left every insertion is finished.
  lemma AllStarted(inserts: seq<(real, nat)>, started: nat, w: Inserter?)
    requires started <= |inserts| && (w != null ==> w.Ready())
    ensures Wanted(inserts[..started]) <= Wanted(inserts)
    ensures Work(inserts, started, w) == 0 ==> started == |inserts| && inserts[..started] == inserts && Unpublished(w) == {}
  {
    if started < |inserts| {
      assert (|inserts| - started) * INSERT_MOVES >= INSERT_MOVES;
    }
    forall k | k in Wanted(inserts[..started]) ensures k in Wanted(inserts) {
      var i :| 0 <= i < started && 1 <= inserts[..started][i].1 <= MAX_HEIGHT && inserts[..started][i].0 == k;
      assert inserts[i].0 == k;
    }
  }

  // The precondition of Insert, tested; then its search and its new node.
  method StartInsert(list: SkipList, k: real, height: nat) returns (w: Inserter?)
    requires list.Valid()
    ensures w != null ==> fresh(w) && w.Ready() && w.list == list && fresh(w.x) && w.Left() < INSERT_MOVES
    ensures list.Keys() + Unpublished(w) == list.Keys() + if 1 <= height <= MAX_HEIGHT then {k} else {}
  {
    hide Ascending, Linked, Sublist, Lacks;
    hide SkipList.Keys;
    var present := list.Contains(k);
    w := null;
    if !present && 1 <= height <= MAX_HEIGHT {
      w := new Inserter(list, k, height);
    }
  }

  method WriterMoves(w: Inserter, r: Reader)
    requires w.Ready() && !w.pc.Finished? && r.Ready() && r.list == w.list
    modifies w`pc, w.list, w.list.nodes, w.x
    ensures w.list.Valid() && w.Ready() && r.Ready() && w.Left() < old(w.Left())
    ensures w.list.Keys() + Unpublished(w) == old(w.list.Keys()) + old(Unpublished(w)) && old(w.list.Keys()) <= w.list.Keys()
    ensures w.list.nodes <= old(w.list.nodes) + {w.x} && old(w.list.nodes) <= w.list.nodes
  {
    hide SkipList.Keys;
    w.Step();
    ReaderStays(r);
  }
}
