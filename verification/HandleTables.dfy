/** The hash table of the block cache (util/cache.cc): buckets of handles chained through next_hash. */
module HandleTables {
  import opened InternalKeys
  import opened Coding

  // What a lookup compares.
  datatype Name = Name(key: Bytes, hash: Word32)

  // LRUHandle; `clients` counts the handles given out and not released, `deletions` the runs of the deleter.
  class Handle {
    const name: Name
    const value: int
    const charge: nat
    var refs: nat
    var inCache: bool
    ghost var clients: nat
    ghost var deletions: nat

    constructor (name: Name, value: int, charge: nat)
      ensures this.name == name && this.value == value && this.charge == charge
      ensures refs == 1 && !inCache && clients == 1 && deletions == 0
    {
      this.name, this.value, this.charge := name, value, charge;
      refs, inCache, clients, deletions := 1, false, 1, 0;
    }
  }

  ghost predicate Distinct(s: seq<Handle>) {
    forall i, j :: 0 <= i < j < |s| ==> s[i] != s[j]
  }

  // hash & (length - 1), for a power of two
  function Bucket(n: Name, length: nat): (b: nat)
    requires length > 0
    ensures b < length
  {
    n.hash % length
  }

  // Every chained handle is the one the map gives for its name, in the bucket of its hash.
  ghost predicate Chained(list: seq<seq<Handle>>, m: map<Name, Handle>) {
    && |list| > 0
    && (forall n :: n in m ==> m[n].name == n && m[n] in list[Bucket(n, |list|)])
    && (forall b :: 0 <= b < |list| ==> ChainOk(list, b, m))
  }

  ghost predicate ChainOk(list: seq<seq<Handle>>, b: nat, m: map<Name, Handle>)
    requires b < |list|
  {
    && Distinct(list[b])
    && forall h :: h in list[b] ==> h.name in m && m[h.name] == h && Bucket(h.name, |list|) == b
  }

  // The slot of a name in its bucket, or the trailing slot.
  method FindPointer(list: seq<seq<Handle>>, n: Name) returns (i: nat)
    requires |list| > 0
    ensures var bucket := list[Bucket(n, |list|)];
            i <= |bucket| && (i < |bucket| ==> bucket[i].name == n) && forall j :: 0 <= j < i ==> bucket[j].name != n
  {
    var bucket := list[Bucket(n, |list|)];
    i := 0;
    while i < |bucket| && (bucket[i].name.hash != n.hash || bucket[i].name.key != n.key)
      invariant i <= |bucket| && forall j :: 0 <= j < i ==> bucket[j].name != n
    {
      i := i + 1;
    }
  }

  lemma FoundIffMapped(list: seq<seq<Handle>>, m: map<Name, Handle>, n: Name, i: nat)
    requires Chained(list, m)
    requires var bucket := list[Bucket(n, |list|)];
             i <= |bucket| && (i < |bucket| ==> bucket[i].name == n) && forall j :: 0 <= j < i ==> bucket[j].name != n
    ensures var bucket := list[Bucket(n, |list|)];
            (i < |bucket| <==> n in m) && (i < |bucket| ==> bucket[i] == m[n])
  {
    assert ChainOk(list, Bucket(n, |list|), m);
  }

  lemma ChainReplaces(list: seq<seq<Handle>>, m: map<Name, Handle>, h: Handle, i: nat)
    requires Chained(list, m) && h.name in m
    requires var bucket := list[Bucket(h.name, |list|)]; i < |bucket| && bucket[i].name == h.name
    requires forall n :: n in m ==> m[n] != h
    ensures var b := Bucket(h.name, |list|); Chained(list[b := list[b][i := h]], m[h.name := h])
  {
    var b := Bucket(h.name, |list|);
    var more, map' := list[b := list[b][i := h]], m[h.name := h];
    forall c | 0 <= c < |more| ensures ChainOk(more, c, map') {
      assert ChainOk(list, c, m) && ChainOk(list, b, m);
      forall x: Handle | x in more[c] ensures x.name in map' && map'[x.name] == x && Bucket(x.name, |more|) == c {
        if x != h {
          assert x in list[c];
        }
      }
    }
    forall n | n in map' ensures map'[n].name == n && map'[n] in more[Bucket(n, |more|)] {
      if n == h.name {
        assert more[b][i] == h;
      } else {
        assert ChainOk(list, b, m);
        var c := Bucket(n, |list|);
        var k :| 0 <= k < |list[c]| && list[c][k] == m[n];
        assert more[c][k] == m[n];
      }
    }
  }

  lemma ChainAppends(list: seq<seq<Handle>>, m: map<Name, Handle>, h: Handle)
    requires Chained(list, m) && h.name !in m
    ensures var b := Bucket(h.name, |list|); Chained(list[b := list[b] + [h]], m[h.name := h])
  {
    var b := Bucket(h.name, |list|);
    var more, map' := list[b := list[b] + [h]], m[h.name := h];
    forall c | 0 <= c < |more| ensures ChainOk(more, c, map') {
      assert ChainOk(list, c, m);
    }
    forall n | n in map' ensures map'[n].name == n && map'[n] in more[Bucket(n, |more|)] {
      if n != h.name {
        assert m[n] in list[Bucket(n, |list|)];
      }
    }
  }

  lemma ChainRemoves(list: seq<seq<Handle>>, m: map<Name, Handle>, n: Name, i: nat)
    requires Chained(list, m) && n in m
    requires var bucket := list[Bucket(n, |list|)]; i < |bucket| && bucket[i] == m[n]
    ensures var b := Bucket(n, |list|); Chained(list[b := list[b][..i] + list[b][i + 1..]], m - {n})
  {
    var b := Bucket(n, |list|);
    var rest := list[b][..i] + list[b][i + 1..];
    var less, map' := list[b := rest], m - {n};
    assert ChainOk(list, b, m);
    assert forall k :: 0 <= k < |rest| ==> rest[k] == list[b][if k < i then k else k + 1];
    forall c | 0 <= c < |less| ensures ChainOk(less, c, map') {
      assert ChainOk(list, c, m);
    }
    forall n' | n' in map' ensures map'[n'].name == n' && map'[n'] in less[Bucket(n', |less|)] {
      var c := Bucket(n', |list|);
      var k :| 0 <= k < |list[c]| && list[c][k] == m[n'];
      if c == b {
        assert k != i;
        assert rest[if k < i then k else k - 1] == m[n'];
      }
    }
  }

  lemma ChainPushes(list: seq<seq<Handle>>, m: map<Name, Handle>, h: Handle)
    requires Chained(list, m) && h.name !in m
    ensures var b := Bucket(h.name, |list|); Chained(list[b := [h] + list[b]], m[h.name := h])
  {
    var b := Bucket(h.name, |list|);
    var more, map' := list[b := [h] + list[b]], m[h.name := h];
    forall c | 0 <= c < |more| ensures ChainOk(more, c, map') {
      assert ChainOk(list, c, m);
    }
    forall n | n in map' ensures map'[n].name == n && map'[n] in more[Bucket(n, |more|)] {
      if n != h.name {
        assert m[n] in list[Bucket(n, |list|)];
      }
    }
  }

  lemma EmptyChains(list: seq<seq<Handle>>)
    requires |list| > 0 && forall b :: 0 <= b < |list| ==> list[b] == []
    ensures Chained(list, map[])
  {
  }

  // --- Rehashing: `done` holds exactly the handles before place j of chain i ---

  ghost predicate Passed(b: int, k: int, i: int, j: int) {
    b < i || (b == i && k < j)
  }

  ghost predicate Moved(list: seq<seq<Handle>>, m: map<Name, Handle>, done: map<Name, Handle>, i: nat, j: nat) {
    && Chained(list, m)
    && (forall n :: n in done ==> n in m && done[n] == m[n])
    && (forall b, k :: 0 <= b < |list| && 0 <= k < |list[b]| ==> (list[b][k].name in done <==> Passed(b, k, i, j)))
  }

  lemma MoveOne(list: seq<seq<Handle>>, m: map<Name, Handle>, done: map<Name, Handle>, i: nat, j: nat)
    requires Moved(list, m, done, i, j) && i < |list| && j < |list[i]|
    ensures list[i][j].name !in done && Moved(list, m, done[list[i][j].name := list[i][j]], i, j + 1)
  {
    var h := list[i][j];
    assert ChainOk(list, i, m);
    forall b, k | 0 <= b < |list| && 0 <= k < |list[b]| ensures list[b][k].name == h.name <==> b == i && k == j {
      assert ChainOk(list, b, m);
    }
  }

  lemma NextChain(list: seq<seq<Handle>>, m: map<Name, Handle>, done: map<Name, Handle>, i: nat)
    requires i < |list| && Moved(list, m, done, i, |list[i]|)
    ensures Moved(list, m, done, i + 1, 0)
  {
    hide Chained;
  }

  lemma AllMoved(list: seq<seq<Handle>>, m: map<Name, Handle>, done: map<Name, Handle>)
    requires Moved(list, m, done, |list|, 0)
    ensures done == m
  {
    forall n | n in m ensures n in done {
      var b := Bucket(n, |list|);
      var k :| 0 <= k < |list[b]| && list[b][k] == m[n];
    }
  }

  class HandleTable {
    var length: nat
    var elems: nat
    var list: seq<seq<Handle>>
    ghost var contents: map<Name, Handle>

    ghost predicate Valid()
      reads this
    {
      length == |list| && Chained(list, contents) && elems == |contents| && elems <= length
    }

    constructor ()
      ensures Valid() && contents == map[]
    {
      length, elems, list, contents := 4, 0, [[], [], [], []], map[];
    }

    lemma Named()
      requires Valid()
      ensures forall n :: n in contents ==> contents[n].name == n
    {
    }

    method Lookup(n: Name) returns (h: Handle?)
      requires Valid()
      ensures h == if n in contents then contents[n] else null
    {
      var i := FindPointer(list, n);
      FoundIffMapped(list, contents, n, i);
      var bucket := list[Bucket(n, length)];
      h := if i < |bucket| then bucket[i] else null;
    }

    // Returns the handle that had the name, if any.
    method Insert(h: Handle) returns (replaced: Handle?)
      requires Valid() && forall n :: n in contents ==> contents[n] != h
      modifies this
      ensures Valid() && contents == old(contents)[h.name := h]
      ensures replaced == if h.name in old(contents) then old(contents)[h.name] else null
    {
      hide Chained, Distinct;
      NotEmpty();
      var i := FindPointer(list, h.name);
      FoundIffMapped(list, contents, h.name, i);
      var b := Bucket(h.name, length);
      if i < |list[b]| {
        ChainReplaces(list, contents, h, i);
        replaced := list[b][i];
        list := list[b := list[b][i := h]];
        contents := contents[h.name := h];
      } else {
        ChainAppends(list, contents, h);
        replaced := null;
        list := list[b := list[b] + [h]];
        contents := contents[h.name := h];
        elems := elems + 1;
        if elems > length {
          Resize();
        }
      }
    }

    lemma NotEmpty()
      requires Chained(list, contents)
      ensures |list| > 0
    {
    }

    method Remove(n: Name) returns (removed: Handle?)
      requires Valid()
      modifies this
      ensures Valid() && contents == old(contents) - {n}
      ensures removed == if n in old(contents) then old(contents)[n] else null
    {
      hide Chained, Distinct;
      NotEmpty();
      var i := FindPointer(list, n);
      FoundIffMapped(list, contents, n, i);
      var b := Bucket(n, length);
      removed := null;
      if i < |list[b]| {
        ChainRemoves(list, contents, n, i);
        removed := list[b][i];
        list := list[b := list[b][..i] + list[b][i + 1..]];
        contents := contents - {n};
        elems := elems - 1;
      }
    }

    // Rehashes every chain into a larger array; nothing is lost.
    method Resize()
      requires length == |list| && Chained(list, contents) && elems == |contents|
      modifies this
      ensures Valid() && contents == old(contents)
    {
      hide Chained;
      NotEmpty();
      var newLength := 4;
      while newLength < elems
        invariant newLength > 0
        modifies {}
      {
        newLength := newLength * 2;
      }
      var newList := seq(newLength, _ => []);
      ghost var done: map<Name, Handle> := map[];
      EmptyChains(newList);
      Untouched(0);
      var count := 0;
      for i := 0 to length
        invariant |newList| == newLength && Chained(newList, done) && count == |done|
        invariant Moved(list, contents, done, i, 0)
        modifies {}
      {
        for j := 0 to |list[i]|
          invariant |newList| == newLength && Chained(newList, done) && count == |done|
          invariant Moved(list, contents, done, i, j)
          modifies {}
        {
          var h := list[i][j];
          var b := Bucket(h.name, newLength);
          MoveOne(list, contents, done, i, j);
          ChainPushes(newList, done, h);
          newList := newList[b := [h] + newList[b]];
          done := done[h.name := h];
          count := count + 1;
        }
        NextChain(list, contents, done, i);
      }
      AllMoved(list, contents, done);
      assert elems == count;
      list, length := newList, newLength;
    }

    lemma Untouched(i: nat)
      requires Chained(list, contents)
      ensures Moved(list, contents, map[], 0, 0)
    {
    }
  }
}
