/** One shard of the block cache (util/cache.cc).  The two circular lists are sequences, oldest entry first. */
module LruCaches {
  import opened InternalKeys
  import opened HandleTables

  function Charges(s: seq<Handle>): nat {
    if s == [] then 0 else Charges(s[..|s| - 1]) + s[|s| - 1].charge
  }

  // Unlinking a handle from the list it is on.
  function Without(s: seq<Handle>, h: Handle): seq<Handle> {
    if s == [] then []
    else if s[|s| - 1] == h then s[..|s| - 1]
    else Without(s[..|s| - 1], h) + [s[|s| - 1]]
  }

  lemma {:induction false} WithoutFacts(s: seq<Handle>, h: Handle)
    requires Distinct(s)
    ensures Distinct(Without(s, h)) && forall x :: x in Without(s, h) <==> x in s && x != h
    ensures h in s ==> Charges(Without(s, h)) + h.charge == Charges(s)
    ensures h !in s ==> Without(s, h) == s
  {
    if s != [] {
      var n := |s| - 1;
      WithoutFacts(s[..n], h);
      assert s == s[..n] + [s[n]];
      var rest := Without(s[..n], h);
      assert (rest + [s[n]])[..|rest|] == rest;
      assert s[n] !in s[..n];
    }
  }

  // An unlinked oldest entry leaves the rest in order.
  lemma {:induction false} WithoutFirst(s: seq<Handle>)
    requires Distinct(s) && s != []
    ensures Without(s, s[0]) == s[1..]
  {
    if |s| > 1 {
      var n := |s| - 1;
      WithoutFirst(s[..n]);
      assert s[..n][1..] + [s[n]] == s[1..];
    }
  }

  lemma AppendFacts(s: seq<Handle>, h: Handle)
    requires Distinct(s) && h !in s
    ensures Distinct(s + [h]) && Charges(s + [h]) == Charges(s) + h.charge
  {
    assert (s + [h])[..|s|] == s;
  }

  class LRUCache {
    var capacity: nat
    var usage: nat
    var lru: seq<Handle>        // cached and not in use, oldest first
    var inUse: seq<Handle>      // cached and held by clients
    const table: HandleTable
    ghost var handles: set<Handle>   // every handle ever made

    // What holds of one handle: it is cached exactly when it is on one of the lists, the lists are chosen by its
    // references, its references are the clients' plus the cache's, and the deleter has run once no one holds it.
    ghost predicate HandleOk(h: Handle)
      reads this, h
    {
      && (h.inCache <==> h in lru || h in inUse)
      && !(h in lru && h in inUse)
      && (h in lru ==> h.clients == 0) && (h in inUse ==> h.clients > 0)
      && h.refs == h.clients + (if h.inCache then 1 else 0)
      && h.deletions == if h.refs == 0 then 1 else 0
    }

    ghost predicate Lists()
      reads this, handles
    {
      ListsBut({})
    }

    // The same, except for handles a method is changing.
    ghost predicate ListsBut(changing: set<Handle>)
      reads this, handles
    {
      && Distinct(lru) && Distinct(inUse)
      && (forall h :: h in lru ==> h in handles) && (forall h :: h in inUse ==> h in handles)
      && (forall h :: h in handles && h !in changing ==> HandleOk(h))
      && usage == Charges(lru) + Charges(inUse)
    }

    // The table holds the cached handles, except those in `out`.
    ghost predicate Tabled(out: set<Handle>)
      reads this, handles, table
    {
      && table.Valid()
      && (forall n :: n in table.contents ==> table.contents[n] in handles)
      && (forall h :: h in handles ==>
            (h.inCache && h !in out <==> h.name in table.contents && table.contents[h.name] == h))
    }

    ghost predicate Valid()
      reads this, handles, table
    {
      Lists() && Tabled({})
    }

    constructor (capacity: nat)
      ensures Valid() && table.contents == map[] && this.capacity == capacity && handles == {} && lru == []
      ensures fresh(table)
    {
      this.capacity, usage, lru, inUse, handles := capacity, 0, [], [], {};
      table := new HandleTable();
    }

    // --- References ---

    method Ref(e: Handle)
      requires Lists() && e in handles && e.refs > 0
      modifies this`lru, this`inUse, e`refs, e`clients
      ensures Lists() && e.clients == old(e.clients) + 1
      ensures lru == Without(old(lru), e) && (forall h :: h in inUse ==> h in old(inUse) || h == e)
    {
      hide Without, Charges, Distinct;
      hide HandleTable.Valid;
      WithoutFacts(lru, e);
      if e.refs == 1 && e.inCache {
        AppendFacts(inUse, e);
        lru := Without(lru, e);
        inUse := inUse + [e];
      }
      e.refs := e.refs + 1;
      e.clients := e.clients + 1;
    }

    // Drops a reference that no one counts any more; the last one runs the deleter.
    method Unref(e: Handle)
      requires ListsBut({e}) && e in handles && e.deletions == 0
      requires e.refs == e.clients + (if e.inCache then 2 else 1)
      requires e !in lru && (e in inUse <==> e.inCache)
      modifies this`lru, this`inUse, e`refs, e`deletions
      ensures Lists()
      ensures lru == (if e.inCache && e.clients == 0 then old(lru) + [e] else old(lru))
      ensures forall h :: h in inUse ==> h in old(inUse)
    {
      hide Without, Charges, Distinct;
      hide HandleTable.Valid;
      WithoutFacts(inUse, e);
      e.refs := e.refs - 1;
      if e.refs == 0 {
        e.deletions := e.deletions + 1;
      } else if e.inCache && e.refs == 1 {
        AppendFacts(lru, e);
        inUse := Without(inUse, e);
        lru := lru + [e];
      }
    }

    // Finishes removing a handle that has already left the table.
    method FinishErase(e: Handle?) returns (erased: bool)
      requires Lists() && (e != null ==> Tabled({e}) && e in handles && e.inCache) && (e == null ==> Tabled({}))
      modifies this`usage, this`lru, this`inUse, if e != null then {e} else {}
      ensures Valid() && (erased <==> e != null)
      ensures e != null ==> lru == Without(old(lru), e) && e.clients == old(e.clients) && usage + e.charge == old(usage)
      ensures e == null ==> lru == old(lru)
      ensures forall h :: h in inUse ==> h in old(inUse)
    {
      hide Without, Charges, Distinct;
      hide HandleTable.Valid;
      erased := e != null;
      if e != null {
        WithoutFacts(lru, e);
        WithoutFacts(inUse, e);
        assert HandleOk(e);
        lru, inUse := Without(lru, e), Without(inUse, e);
        e.inCache := false;
        usage := usage - e.charge;
        Unref(e);
      }
    }

    // --- The client's operations ---

    method Lookup(n: Name) returns (e: Handle?)
      requires Valid()
      modifies this`lru, this`inUse, handles`refs, handles`clients
      ensures Valid() && e == if n in table.contents then table.contents[n] else null
      ensures forall h :: h in handles ==> h.clients == old(h.clients) + if h == e then 1 else 0
      ensures lru == if e == null then old(lru) else Without(old(lru), e)
    {
      hide Without, Charges, Distinct;
      hide HandleTable.Valid;
      table.Named();
      e := table.Lookup(n);
      if e != null {
        assert HandleOk(e);
        Ref(e);
      }
    }

    method Release(e: Handle)
      requires Valid() && e in handles && e.clients > 0
      modifies this`lru, this`inUse, handles`refs, handles`clients, handles`deletions
      ensures Valid() && e.clients == old(e.clients) - 1
      ensures forall h :: h in handles && h != e ==> h.clients == old(h.clients)
      ensures lru == if e.inCache && e.clients == 0 then old(lru) + [e] else old(lru)
    {
      hide Without, Charges, Distinct;
      hide HandleTable.Valid;
      assert HandleOk(e);
      e.clients := e.clients - 1;
      Unref(e);
    }

    method Erase(n: Name)
      requires Valid()
      modifies this`usage, this`lru, this`inUse, table, handles
      ensures Valid() && table.contents == old(table.contents) - {n}
      ensures forall h :: h in handles ==> h.clients == old(h.clients)
      ensures lru == if n in old(table.contents) then Without(old(lru), old(table.contents)[n]) else old(lru)
    {
      hide Without, Charges, Distinct;
      hide HandleTable.Valid;
      table.Named();
      var e := table.Remove(n);
      var _ := FinishErase(e);
    }

    // The oldest handle not in use leaves the cache.
    method EvictOldest()
      requires Valid() && lru != []
      modifies this`usage, this`lru, this`inUse, table, handles
      ensures Valid() && lru == old(lru)[1..] && usage + old(lru[0]).charge == old(usage)
      ensures table.contents == old(table.contents) - {old(lru[0]).name}
      ensures forall h :: h in handles ==> h.clients == old(h.clients)
    {
      hide Without, Charges, Distinct;
      hide HandleTable.Valid;
      var e := lru[0];
      assert HandleOk(e);
      WithoutFirst(lru);
      WithoutFacts(lru, e);
      WithoutFacts(inUse, e);
      var removed := table.Remove(e.name);
      var _ := FinishErase(removed);
    }

    // Insert: a handle with the same name is replaced, then the oldest handles not in use go until the usage fits.
    method Insert(n: Name, value: int, charge: nat) returns (e: Handle, ghost evicted: seq<Handle>)
      requires Valid()
      modifies this, table, handles
      ensures Valid() && capacity == old(capacity) && fresh(e) && handles == old(handles) + {e}
      ensures e.name == n && e.value == value && e.charge == charge && e.clients == 1
      ensures forall h :: h in old(handles) ==> h.clients == old(h.clients)
      ensures usage <= capacity || lru == []
      ensures evicted != [] ==> usage + evicted[|evicted| - 1].charge > capacity
      ensures evicted + lru == Kept(old(lru), old(table.contents), n, capacity)
      ensures table.contents == Inserted(old(table.contents), n, e, capacity) - Names(evicted)
    {
      hide Without, Charges, Distinct, Kept, Inserted, Names;
      hide Valid;
      e := AddHandle(n, value, charge);
      evicted := [];
      NoneEvicted(table.contents, lru);
      while usage > capacity && lru != []
        invariant Valid() && capacity == old(capacity) && handles == old(handles) + {e}
        invariant e.clients == 1 && forall h :: h in old(handles) ==> h.clients == old(h.clients)
        invariant evicted != [] ==> usage + evicted[|evicted| - 1].charge > capacity
        invariant evicted + lru == Kept(old(lru), old(table.contents), n, capacity)
        invariant table.contents == Inserted(old(table.contents), n, e, capacity) - Names(evicted)
        decreases |lru|
      {
        ghost var oldest := lru[0];
        EvictedMore(Inserted(old(table.contents), n, e, capacity), evicted, lru);
        EvictOldest();
        evicted := evicted + [oldest];
      }
    }

    // Insert up to the eviction loop.
    method AddHandle(n: Name, value: int, charge: nat) returns (e: Handle)
      requires Valid()
      modifies this, table, handles
      ensures Valid() && capacity == old(capacity) && fresh(e) && handles == old(handles) + {e}
      ensures e.name == n && e.value == value && e.charge == charge && e.clients == 1
      ensures forall h :: h in old(handles) ==> h.clients == old(h.clients)
      ensures lru == Kept(old(lru), old(table.contents), n, capacity)
      ensures table.contents == Inserted(old(table.contents), n, e, capacity)
    {
      hide Without, Charges, Distinct, HandleOk;
      hide HandleTable.Valid;
      e := MakeHandle(n, value, charge);
      if capacity > 0 {
        Admit(e);
        var replaced := PutInTable(e);
        var _ := FinishErase(replaced);
      }
    }

    method MakeHandle(n: Name, value: int, charge: nat) returns (e: Handle)
      requires Valid()
      modifies this`handles
      ensures Valid() && fresh(e) && handles == old(handles) + {e} && !e.inCache
      ensures e.name == n && e.value == value && e.charge == charge && e.clients == 1
    {
      hide Without, Charges, Distinct;
      hide HandleTable.Valid;
      e := new Handle(n, value, charge);
      handles := handles + {e};
    }

    method PutInTable(e: Handle) returns (replaced: Handle?)
      requires Lists() && Tabled({e}) && e in handles && e.inCache
      modifies table
      ensures Lists() && table.contents == old(table.contents)[e.name := e]
      ensures replaced == if e.name in old(table.contents) then old(table.contents)[e.name] else null
      ensures if replaced == null then Tabled({}) else Tabled({replaced}) && replaced in handles && replaced.inCache
    {
      hide Without, Charges, Distinct, HandleOk;
      hide HandleTable.Valid;
      table.Named();
      replaced := table.Insert(e);
      table.Named();
    }

    // The cache takes its reference to a new handle that is not in the table yet.
    method Admit(e: Handle)
      requires Valid() && e in handles && !e.inCache && e.clients > 0
      modifies this`usage, this`inUse, e`refs, e`inCache
      ensures Lists() && Tabled({e}) && e.inCache
    {
      hide Without, Charges, Distinct;
      hide HandleTable.Valid;
      assert HandleOk(e);
      AppendFacts(inUse, e);
      e.refs := e.refs + 1;
      e.inCache := true;
      inUse := inUse + [e];
      usage := usage + e.charge;
    }

    method Prune()
      requires Valid()
      modifies this`usage, this`lru, this`inUse, table, handles
      ensures Valid() && lru == [] && table.contents == old(table.contents) - Names(old(lru))
      ensures forall h :: h in handles ==> h.clients == old(h.clients)
    {
      hide Without, Charges, Distinct, Names;
      hide Valid;
      ghost var gone: seq<Handle> := [];
      NoneEvicted(table.contents, lru);
      while lru != []
        invariant Valid() && handles == old(handles)
        invariant gone + lru == old(lru) && table.contents == old(table.contents) - Names(gone)
        invariant forall h :: h in handles ==> h.clients == old(h.clients)
        decreases |lru|
      {
        ghost var oldest := lru[0];
        EvictedMore(old(table.contents), gone, lru);
        EvictOldest();
        gone := gone + [oldest];
      }
      assert gone + [] == gone;
    }
  }

  ghost function Names(s: seq<Handle>): set<Name> {
    set h | h in s :: h.name
  }

  lemma NamesGrow(s: seq<Handle>, h: Handle)
    ensures Names(s + [h]) == Names(s) + {h.name}
  {
    assert forall x :: x in s + [h] <==> x in s || x == h;
  }

  // One eviction more.
  lemma EvictedMore(m: map<Name, Handle>, evicted: seq<Handle>, lru: seq<Handle>)
    requires lru != []
    ensures m - Names(evicted) - {lru[0].name} == m - Names(evicted + [lru[0]])
    ensures evicted + [lru[0]] + lru[1..] == evicted + lru
  {
    NamesGrow(evicted, lru[0]);
    assert lru == [lru[0]] + lru[1..];
  }

  lemma NoneEvicted(m: map<Name, Handle>, lru: seq<Handle>)
    ensures m - Names([]) == m && [] + lru == lru
  {
  }

  // The list a new handle leaves behind: without the handle it replaces.
  ghost function Kept(lru: seq<Handle>, contents: map<Name, Handle>, n: Name, capacity: nat): seq<Handle> {
    if capacity > 0 && n in contents then Without(lru, contents[n]) else lru
  }

  // A cache of capacity 0 keeps nothing.
  ghost function Inserted(contents: map<Name, Handle>, n: Name, e: Handle, capacity: nat): map<Name, Handle> {
    if capacity > 0 then contents[n := e] else contents
  }

  // --- Every client run ---

  datatype Op = Insert(n: Name, value: int, charge: nat) | Lookup(n: Name) | Release(i: nat) | Erase(n: Name) | Prune

  ghost predicate Cached(cache: LRUCache, h: Handle)
    reads cache.table
  {
    h.name in cache.table.contents && cache.table.contents[h.name] == h
  }

  // The clients' counts are the handles they hold.
  ghost predicate Counts(cache: LRUCache, held: seq<Handle>)
    reads cache, cache.handles
  {
    && (forall h :: h in held ==> h in cache.handles)
    && (forall h :: h in cache.handles ==> h.clients == multiset(held)[h])
  }

  // A handle's deleter has run exactly once if it is neither held nor cached, and not at all otherwise.
  lemma DeletedOnce(cache: LRUCache, held: seq<Handle>, h: Handle)
    requires cache.Valid() && Counts(cache, held) && h in cache.handles
    ensures h.deletions == if h in held || Cached(cache, h) then 0 else 1
  {
    hide Without, Charges, Distinct;
    hide HandleTable.Valid;
    assert cache.HandleOk(h);
    assert h in held <==> h in multiset(held);
  }

  // --- Least recently used ---

  // The handles of a log of releases, each at its last one.
  ghost function Recent(log: seq<Handle>): seq<Handle> {
    if log == [] then [] else Without(Recent(log[..|log| - 1]), log[|log| - 1]) + [log[|log| - 1]]
  }

  ghost function Only(s: seq<Handle>, keep: set<Handle>): seq<Handle> {
    if s == [] then []
    else Only(s[..|s| - 1], keep) + if s[|s| - 1] in keep then [s[|s| - 1]] else []
  }

  // The LRU list is the unused cached handles in the order of their last release.
  ghost predicate InReleaseOrder(lru: seq<Handle>, log: seq<Handle>) {
    lru == Only(Recent(log), Members(lru))
  }

  ghost function Members(s: seq<Handle>): set<Handle> {
    set h | h in s
  }

  lemma {:induction false} RecentFacts(log: seq<Handle>)
    ensures Distinct(Recent(log)) && forall h :: h in Recent(log) <==> h in log
  {
    hide Without;
    if log != [] {
      var n := |log| - 1;
      RecentFacts(log[..n]);
      WithoutFacts(Recent(log[..n]), log[n]);
      assert log == log[..n] + [log[n]];
    }
  }

  // Moving an unwanted handle changes nothing.
  lemma {:induction false} OnlyOthers(s: seq<Handle>, h: Handle, keep: set<Handle>)
    requires h !in keep
    ensures Only(Without(s, h), keep) == Only(s, keep)
  {
    if s != [] {
      var n := |s| - 1;
      OnlyOthers(s[..n], h, keep);
      OnlyLast(Without(s[..n], h), s[n], keep);
    }
  }

  lemma {:induction false} OnlyLess(s: seq<Handle>, h: Handle, keep: set<Handle>)
    requires Distinct(s)
    ensures Only(s, keep - {h}) == Without(Only(s, keep), h)
  {
    if s != [] {
      var n := |s| - 1;
      OnlyLess(s[..n], h, keep);
      assert s == s[..n] + [s[n]] && s[n] !in s[..n];
      OnlyLast(s[..n], s[n], keep);
      OnlyLast(s[..n], s[n], keep - {h});
      WithoutLast(Only(s[..n], keep), s[n], h);
      if s[n] == h {
        AbsentOnly(s[..n], h, keep);
      }
    }
  }

  lemma {:induction false} OnlyMore(s: seq<Handle>, h: Handle, keep: set<Handle>)
    requires h !in s
    ensures Only(s, keep + {h}) == Only(s, keep)
  {
    if s != [] {
      OnlyMore(s[..|s| - 1], h, keep);
    }
  }

  lemma OnlyLast(s: seq<Handle>, x: Handle, keep: set<Handle>)
    ensures Only(s + [x], keep) == if x in keep then Only(s, keep) + [x] else Only(s, keep)
  {
    assert (s + [x])[..|s|] == s;
  }

  lemma WithoutLast(s: seq<Handle>, x: Handle, h: Handle)
    ensures Without(s + [x], h) == if x == h then s else Without(s, h) + [x]
  {
    assert (s + [x])[..|s|] == s;
  }

  lemma {:induction false} AbsentOnly(s: seq<Handle>, h: Handle, keep: set<Handle>)
    requires h !in s
    ensures h !in Only(s, keep) && Without(Only(s, keep), h) == Only(s, keep)
  {
    if s != [] {
      var n := |s| - 1;
      AbsentOnly(s[..n], h, keep);
      assert s == s[..n] + [s[n]];
      OnlyLast(s[..n], s[n], keep);
      WithoutLast(Only(s[..n], keep), s[n], h);
    }
  }

  // A handle that leaves the list leaves the others in order.
  lemma LeavesOrder(lru: seq<Handle>, log: seq<Handle>, h: Handle)
    requires Distinct(lru) && InReleaseOrder(lru, log)
    ensures InReleaseOrder(Without(lru, h), log)
  {
    hide Without, Only, Recent;
    RecentFacts(log);
    OnlyLess(Recent(log), h, Members(lru));
    WithoutFacts(lru, h);
    assert Members(Without(lru, h)) == Members(lru) - {h};
  }

  // A handle whose last client releases it goes to the end of the log, and of the list when it is cached.
  lemma ReleaseOrder(lru: seq<Handle>, log: seq<Handle>, h: Handle)
    requires InReleaseOrder(lru, log) && h !in lru
    ensures InReleaseOrder(lru, log + [h]) && InReleaseOrder(lru + [h], log + [h])
  {
    hide Without;
    RecentFacts(log);
    var rest := Without(Recent(log), h);
    assert (log + [h])[..|log|] == log;
    assert (rest + [h])[..|rest|] == rest;
    WithoutFacts(Recent(log), h);
    OnlyOthers(Recent(log), h, Members(lru));
    OnlyMore(rest, h, Members(lru));
    assert Members(lru + [h]) == Members(lru) + {h};
  }

  // The log after one operation: a release that leaves a handle without clients is added to it.
  ghost function LogAfter(log: seq<Handle>, op: Op, held: seq<Handle>, held': seq<Handle>): seq<Handle> {
    if op.Release? && op.i < |held| && held[op.i] !in held' then log + [held[op.i]] else log
  }

  ghost function LogOf(ops: seq<Op>, trace: seq<seq<Handle>>): seq<Handle>
    requires |trace| == |ops| + 1
  {
    if ops == [] then []
    else
      var n := |ops| - 1;
      LogAfter(LogOf(ops[..n], trace[..n + 1]), ops[n], trace[n], trace[n + 1])
  }

  // What a client holds after an operation.
  ghost predicate HeldAfter(op: Op, held: seq<Handle>, held': seq<Handle>) {
    match op
    case Insert(n, value, charge) =>
      && |held'| == |held| + 1 && held <= held' && held'[|held|] !in held
      && held'[|held|].name == n && held'[|held|].value == value && held'[|held|].charge == charge
    case Lookup(n) => held' == held || (|held'| == |held| + 1 && held <= held' && held'[|held|].name == n)
    case Release(i) => held' == if i < |held| then Released(held, i) else held
    case Erase(_) => held' == held
    case Prune => held' == held
  }

  // Operations of any client, which releases only what it holds; `trace` is what it held after each of them.
  method ClientRun(capacity: nat, ops: seq<Op>) returns (cache: LRUCache, held: seq<Handle>, ghost trace: seq<seq<Handle>>)
    ensures cache.Valid() && Counts(cache, held)
    ensures cache.usage == Charges(cache.lru) + Charges(cache.inUse)
    ensures forall h :: h in cache.handles ==> h.deletions == if h in held || Cached(cache, h) then 0 else 1
    ensures |trace| == |ops| + 1 && trace[0] == [] && trace[|ops|] == held
    ensures forall k :: 0 <= k < |ops| ==> HeldAfter(ops[k], trace[k], trace[k + 1])
    ensures InReleaseOrder(cache.lru, LogOf(ops, trace))
    ensures forall h :: h in cache.lru <==> h in cache.handles && Cached(cache, h) && h !in held
  {
    hide Charges, Without, Recent, Only, HeldAfter, LogAfter, InReleaseOrder, LogOf, Distinct;
    hide HandleTable.Valid, LRUCache.HandleOk;
    cache := new LRUCache(capacity);
    held, trace := [], [[]];
    NoOrder();
    for i := 0 to |ops|
      invariant fresh(cache) && fresh(cache.table) && fresh(cache.handles) && cache.Valid() && Counts(cache, held)
      invariant |trace| == i + 1 && trace[0] == [] && trace[i] == held
      invariant forall k :: 0 <= k < i ==> HeldAfter(ops[k], trace[k], trace[k + 1])
      invariant InReleaseOrder(cache.lru, LogOf(ops[..i], trace))
    {
      ghost var log := LogOf(ops[..i], trace);
      held := Perform(cache, held, ops[i], log);
      LogMore(ops, trace, i, held);
      trace := trace + [held];
    }
    assert ops[..|ops|] == ops;
    forall h | h in cache.handles ensures h.deletions == if h in held || Cached(cache, h) then 0 else 1 {
      DeletedOnce(cache, held, h);
    }
    UnusedListed(cache, held);
  }

  lemma LogMore(ops: seq<Op>, trace: seq<seq<Handle>>, i: nat, held: seq<Handle>)
    requires i < |ops| && |trace| == i + 1
    ensures LogOf(ops[..i + 1], trace + [held]) == LogAfter(LogOf(ops[..i], trace), ops[i], trace[i], held)
  {
    hide LogAfter;
    assert ops[..i + 1][..i] == ops[..i] && (trace + [held])[..i + 1] == trace;
  }

  lemma NoOrder()
    ensures InReleaseOrder([], LogOf([], [[]]))
  {
  }

  // The LRU list holds exactly the cached handles no client holds.
  lemma UnusedListed(cache: LRUCache, held: seq<Handle>)
    requires cache.Valid() && Counts(cache, held)
    ensures forall h :: h in cache.lru <==> h in cache.handles && Cached(cache, h) && h !in held
  {
    hide Without, Charges, Distinct;
    hide HandleTable.Valid;
    forall h | h in cache.handles ensures h in cache.lru <==> Cached(cache, h) && h !in held {
      assert cache.HandleOk(h);
      assert h in held <==> h in multiset(held);
    }
  }

  method Perform(cache: LRUCache, held: seq<Handle>, op: Op, ghost log: seq<Handle>) returns (held': seq<Handle>)
    requires cache.Valid() && Counts(cache, held) && InReleaseOrder(cache.lru, log)
    modifies cache, cache.table, cache.handles
    ensures cache.Valid() && Counts(cache, held') && HeldAfter(op, held, held')
    ensures InReleaseOrder(cache.lru, LogAfter(log, op, held, held'))
    ensures fresh(cache.handles - old(cache.handles))
  {
    hide LRUCache.Valid;
    hide Kept, Inserted, Names, Charges, InReleaseOrder, Without;
    held' := held;
    match op {
      case Insert(n, value, charge) =>
        ListDistinct(cache);
        ghost var lru, contents := cache.lru, cache.table.contents;
        var e, evicted := cache.Insert(n, value, charge);
        assert e !in held;
        held' := held + [e];
        KeptOrder(lru, log, contents, n, cache.capacity);
        EvictedOrder(Kept(lru, contents, n, cache.capacity), evicted, cache.lru, log);
      case Lookup(n) =>
        ListDistinct(cache);
        ghost var lru := cache.lru;
        var e := cache.Lookup(n);
        if e != null {
          InTable(cache, n);
          held' := held + [e];
          LeavesOrder(lru, log, e);
        }
      case Release(i) =>
        if i < |held| {
          held' := PerformRelease(cache, held, i, log);
        }
      case Erase(n) =>
        ListDistinct(cache);
        ghost var lru, contents := cache.lru, cache.table.contents;
        cache.Erase(n);
        if n in contents {
          LeavesOrder(lru, log, contents[n]);
        }
      case Prune =>
        cache.Prune();
        EmptyOrder(log);
    }
  }

  method PerformRelease(cache: LRUCache, held: seq<Handle>, i: nat, ghost log: seq<Handle>) returns (held': seq<Handle>)
    requires cache.Valid() && Counts(cache, held) && InReleaseOrder(cache.lru, log) && i < |held|
    modifies cache, cache.table, cache.handles
    ensures cache.Valid() && Counts(cache, held') && held' == Released(held, i)
    ensures InReleaseOrder(cache.lru, LogAfter(log, Release(i), held, held'))
    ensures fresh(cache.handles - old(cache.handles))
  {
    hide LRUCache.Valid;
    hide Charges, InReleaseOrder, Without;
    var e := held[i];
    assert e in multiset(held);
    InUseNotListed(cache, e);
    ReleaseOrder(cache.lru, log, e);
    cache.Release(e);
    held' := Released(held, i);
    assert e.clients == 0 <==> e !in multiset(held');
  }

  lemma InUseNotListed(cache: LRUCache, e: Handle)
    requires cache.Valid() && e in cache.handles && e.clients > 0
    ensures e !in cache.lru
  {
    hide Charges, Without, Distinct;
    hide HandleTable.Valid;
    assert cache.HandleOk(e);
  }

  lemma ListDistinct(cache: LRUCache)
    requires cache.Valid()
    ensures Distinct(cache.lru)
  {
    hide Charges, Without;
    hide HandleTable.Valid;
  }

  lemma EmptyOrder(log: seq<Handle>)
    ensures InReleaseOrder([], log)
  {
    NoneKept(Recent(log));
    assert Members([]) == {};
  }

  lemma {:induction false} NoneKept(s: seq<Handle>)
    ensures Only(s, {}) == []
  {
    if s != [] {
      NoneKept(s[..|s| - 1]);
    }
  }

  lemma KeptOrder(lru: seq<Handle>, log: seq<Handle>, contents: map<Name, Handle>, n: Name, capacity: nat)
    requires Distinct(lru) && InReleaseOrder(lru, log)
    ensures InReleaseOrder(Kept(lru, contents, n, capacity), log) && Distinct(Kept(lru, contents, n, capacity))
  {
    hide InReleaseOrder, Without, Distinct;
    if capacity > 0 && n in contents {
      LeavesOrder(lru, log, contents[n]);
      WithoutFacts(lru, contents[n]);
    }
  }

  // Taking handles from the front leaves the rest in order.
  lemma {:induction false} EvictedOrder(all: seq<Handle>, evicted: seq<Handle>, rest: seq<Handle>, log: seq<Handle>)
    requires Distinct(all) && InReleaseOrder(all, log) && evicted + rest == all
    ensures InReleaseOrder(rest, log)
    decreases |evicted|
  {
    hide InReleaseOrder, Without;
    if evicted == [] {
      assert rest == all;
    } else {
      LeavesOrder(all, log, all[0]);
      WithoutFirst(all);
      assert all[1..] == evicted[1..] + rest;
      EvictedOrder(all[1..], evicted[1..], rest, log);
    }
  }

  function Released(held: seq<Handle>, i: nat): (rest: seq<Handle>)
    requires i < |held|
    ensures multiset(held) == multiset(rest) + multiset{held[i]}
    ensures forall h :: h in rest ==> h in held
  {
    assert held == held[..i] + [held[i]] + held[i + 1..];
    held[..i] + held[i + 1..]
  }

  lemma InTable(cache: LRUCache, n: Name)
    requires cache.Valid() && n in cache.table.contents
    ensures cache.table.contents[n] in cache.handles && cache.table.contents[n].name == n
  {
    hide Charges, Without;
    cache.table.Named();
  }
}
