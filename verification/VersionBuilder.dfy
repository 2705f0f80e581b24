/** VersionSet::Builder (db/version_set.cc 569-731): folding edits over a base version. */
module VersionBuilder {
  import opened InternalKeys
  import opened Files
  import opened Picking

  // BySmallestKey
  predicate KeyOrder(f: File, g: File) {
    Less(f.smallest, g.smallest) || (!Less(g.smallest, f.smallest) && f.number < g.number)
  }

  ghost predicate Ascending(files: seq<File>) {
    forall i, j :: 0 <= i < j < |files| ==> KeyOrder(files[i], files[j])
  }

  // Two strictly ascending lists with the same members are the same list.
  lemma {:induction false} AscendingUnique(a: seq<File>, b: seq<File>)
    requires Ascending(a) && Ascending(b) && forall f :: f in a <==> f in b
    ensures a == b
    decreases |a|
  {
    assert b != [] ==> b[0] in b;
    if a != [] {
      assert a[0] in b;
      HeadIsLeast(a, b[0]);
      HeadIsLeast(b, a[0]);
      Tail(a);
      Tail(b);
      AscendingUnique(a[1..], b[1..]);
    }
  }

  lemma HeadIsLeast(a: seq<File>, f: File)
    requires Ascending(a) && f in a
    ensures f == a[0] || KeyOrder(a[0], f)
  {
  }

  lemma Tail(a: seq<File>)
    requires Ascending(a) && a != []
    ensures Ascending(a[1..]) && forall f :: f in a[1..] <==> f in a && f != a[0]
  {
    assert a == [a[0]] + a[1..];
    forall k | 0 <= k < |a[1..]| ensures a[1..][k] != a[0] {
      assert KeyOrder(a[0], a[k + 1]);
    }
  }

  // Neither set holds a file that compares equal to one of the other.
  ghost predicate NoClash(a: seq<File>, b: seq<File>) {
    forall f, g :: f in a && g in b ==> KeyOrder(f, g) || KeyOrder(g, f)
  }

  // A version edit: files to delete by (level, number), files to add by level, and compaction pointers to set.
  datatype Edit = Edit(deleted: set<(nat, nat)>, added: seq<(nat, File)>, pointers: seq<(nat, IKey)>)

  ghost predicate EditOk(e: Edit) {
    && (forall d :: d in e.deleted ==> d.0 < NUM_LEVELS)
    && (forall i :: 0 <= i < |e.added| ==> e.added[i].0 < NUM_LEVELS)
    && (forall i :: 0 <= i < |e.pointers| ==> e.pointers[i].0 < NUM_LEVELS)
  }

  // compact_pointer_: where the next compaction of each level starts; None is the empty string.
  type CompactPointers = ps: seq<Option<IKey>> | |ps| == NUM_LEVELS witness seq(NUM_LEVELS, _ => None)

  function NoPointers(): CompactPointers {
    seq(NUM_LEVELS, _ => None)
  }

  function SetPointers(ps: CompactPointers, sets: seq<(nat, IKey)>): (r: CompactPointers)
    requires forall i :: 0 <= i < |sets| ==> sets[i].0 < NUM_LEVELS
  {
    if sets == [] then ps
    else
      var n := |sets| - 1;
      SetPointers(ps, sets[..n])[sets[n].0 := Some(sets[n].1)]
  }

  // std::set::insert: an equivalent element already present stays.
  function InsertFile(files: seq<File>, f: File): seq<File> {
    if files == [] then [f]
    else if KeyOrder(f, files[0]) then [f] + files
    else if KeyOrder(files[0], f) then [files[0]] + InsertFile(files[1..], f)
    else files
  }

  lemma {:induction false} InsertFileIsAscending(files: seq<File>, f: File)
    requires Ascending(files)
    ensures Ascending(InsertFile(files, f))
    ensures forall g :: g in InsertFile(files, f) ==> g in files || g == f
    ensures forall g :: g in files ==> g in InsertFile(files, f)
    ensures f in InsertFile(files, f)
            || exists g :: g in files && g.smallest == f.smallest && g.number == f.number
  {
    if files != [] {
      var rest := files[1..];
      assert files == [files[0]] + rest;
      if !KeyOrder(f, files[0]) && KeyOrder(files[0], f) {
        InsertFileIsAscending(rest, f);
        var r := InsertFile(rest, f);
        assert forall i :: 0 <= i < |r| ==> r[i] in r;
        assert forall g :: g in r ==> KeyOrder(files[0], g);
      } else if !KeyOrder(f, files[0]) {
        assert Tag(files[0].smallest) == Tag(f.smallest);
        assert files[0] in files;
      }
    }
  }

  ghost predicate Saved(files: seq<File>, base: seq<File>, added: seq<File>, deleted: set<nat>) {
    forall f :: f in files <==> (f in base || f in added) && f.number !in deleted
  }

  // SaveTo for one level: merges the added files into the base files and leaves out the deleted numbers.
  method SaveLevel(base: seq<File>, added: seq<File>, deleted: set<nat>) returns (files: seq<File>)
    requires Ascending(base) && Ascending(added)
    ensures Saved(files, base, added, deleted)
    ensures NoClash(base, added) ==> Ascending(files)
  {
    files := [];
    var b := 0;
    for a := 0 to |added|
      invariant Merging(files, base, b, added, a, deleted)
    {
      while b < |base| && !KeyOrder(added[a], base[b])
        invariant Merging(files, base, b, added, a, deleted)
      {
        TakeBase(files, base, b, added, a, deleted);
        files := MaybeAddFile(files, base[b], deleted);
        b := b + 1;
      }
      TakeAdded(files, base, b, added, a, deleted);
      files := MaybeAddFile(files, added[a], deleted);
    }
    while b < |base|
      invariant Merging(files, base, b, added, |added|, deleted)
    {
      TakeBase(files, base, b, added, |added|, deleted);
      files := MaybeAddFile(files, base[b], deleted);
      b := b + 1;
    }
    assert base[..b] == base && added[..|added|] == added;
  }

  function MaybeAddFile(files: seq<File>, f: File, deleted: set<nat>): seq<File> {
    if f.number in deleted then files else files + [f]
  }

  // files holds the surviving part of base[..b] and added[..a], in order and before what is still to come.
  ghost predicate Merging(files: seq<File>, base: seq<File>, b: nat, added: seq<File>, a: nat, deleted: set<nat>) {
    && b <= |base| && a <= |added|
    && (forall f :: f in files <==> (f in base[..b] || f in added[..a]) && f.number !in deleted)
    && (NoClash(base, added) ==>
          Ascending(files) && Below(files, base, b) && Below(files, added, a))
  }

  ghost predicate Below(files: seq<File>, others: seq<File>, from: nat) {
    forall i, j :: 0 <= i < |files| && from <= j < |others| ==> KeyOrder(files[i], others[j])
  }

  lemma KeyTransitive(f: File, g: File, h: File)
    requires KeyOrder(f, g) && KeyOrder(g, h)
    ensures KeyOrder(f, h)
  {
  }

  // f may be appended when it is the least of what remains on both sides.
  lemma AppendKeepsOrder(files: seq<File>, f: File, own: seq<File>, i: nat, other: seq<File>, j: nat)
    requires Ascending(files) && Ascending(own) && Ascending(other) && i < |own| && f == own[i]
    requires Below(files, own, i) && Below(files, other, j)
    requires j < |other| ==> KeyOrder(f, other[j])
    ensures Ascending(files + [f]) && Below(files + [f], own, i + 1) && Below(files + [f], other, j)
  {
    forall k | j <= k < |other| ensures KeyOrder(f, other[k]) {
      if k > j {
        KeyTransitive(f, other[j], other[k]);
      }
    }
  }

  lemma TakeBase(files: seq<File>, base: seq<File>, b: nat, added: seq<File>, a: nat, deleted: set<nat>)
    requires Ascending(base) && Ascending(added) && b < |base| && Merging(files, base, b, added, a, deleted)
    requires a < |added| ==> !KeyOrder(added[a], base[b])
    ensures Merging(MaybeAddFile(files, base[b], deleted), base, b + 1, added, a, deleted)
  {
    assert base[..b + 1] == base[..b] + [base[b]];
    if NoClash(base, added) {
      assert a < |added| ==> base[b] in base && added[a] in added;
      AppendKeepsOrder(files, base[b], base, b, added, a);
    }
  }

  lemma TakeAdded(files: seq<File>, base: seq<File>, b: nat, added: seq<File>, a: nat, deleted: set<nat>)
    requires Ascending(base) && Ascending(added) && a < |added| && Merging(files, base, b, added, a, deleted)
    requires b < |base| ==> KeyOrder(added[a], base[b])
    ensures Merging(MaybeAddFile(files, added[a], deleted), base, b, added, a + 1, deleted)
  {
    assert added[..a + 1] == added[..a] + [added[a]];
    if NoClash(base, added) {
      AppendKeepsOrder(files, added[a], added, a, base, b);
    }
  }

  // --- The builder's state after any number of edits ---

  datatype State = State(deleted: seq<set<nat>>, added: seq<seq<File>>)

  ghost predicate StateOk(st: State) {
    && |st.deleted| == |st.added| == NUM_LEVELS
    && forall l :: 0 <= l < NUM_LEVELS ==> Ascending(st.added[l])
  }

  function EmptyState(): State {
    State(seq(NUM_LEVELS, _ => {}), seq(NUM_LEVELS, _ => []))
  }

  function Deletions(e: Edit, l: nat): set<nat> {
    set d | d in e.deleted && d.0 == l :: d.1
  }

  function MarkDeleted(st: State, e: Edit): (r: State)
    requires |st.deleted| == NUM_LEVELS
    ensures |r.deleted| == NUM_LEVELS && r.added == st.added
    ensures forall l :: 0 <= l < NUM_LEVELS ==> r.deleted[l] == st.deleted[l] + Deletions(e, l)
  {
    st.(deleted := seq(NUM_LEVELS, l requires 0 <= l < NUM_LEVELS => st.deleted[l] + Deletions(e, l)))
  }

  function AddFile(st: State, level: nat, f: File): State
    requires |st.deleted| == |st.added| == NUM_LEVELS && level < NUM_LEVELS
  {
    State(st.deleted[level := st.deleted[level] - {f.number}],
          st.added[level := InsertFile(st.added[level], f)])
  }

  ghost function AddFiles(st: State, added: seq<(nat, File)>): (r: State)
    requires |st.deleted| == |st.added| == NUM_LEVELS
    requires forall i :: 0 <= i < |added| ==> added[i].0 < NUM_LEVELS
    ensures |r.deleted| == |r.added| == NUM_LEVELS
  {
    if added == [] then st
    else
      var n := |added| - 1;
      AddFile(AddFiles(st, added[..n]), added[n].0, added[n].1)
  }

  // Builder::Apply
  ghost function ApplyEdit(st: State, e: Edit): State
    requires |st.deleted| == |st.added| == NUM_LEVELS && EditOk(e)
  {
    AddFiles(MarkDeleted(st, e), e.added)
  }

  ghost predicate Adds(added: seq<(nat, File)>, l: nat, f: File) {
    exists i :: 0 <= i < |added| && added[i] == (l, f)
  }

  ghost predicate AddsNumber(added: seq<(nat, File)>, l: nat, n: nat) {
    exists i :: 0 <= i < |added| && added[i].0 == l && added[i].1.number == n
  }

  // Each added file has a number that is new on its level.
  ghost predicate FreshAdds(present: seq<File>, added: seq<(nat, File)>, l: nat) {
    && (forall i, j :: 0 <= i < j < |added| && added[i].0 == added[j].0 == l
                       ==> added[i].1.number != added[j].1.number)
    && (forall f, i :: f in present && 0 <= i < |added| && added[i].0 == l ==> f.number != added[i].1.number)
  }

  lemma {:induction false} AddFilesMembers(st: State, added: seq<(nat, File)>, l: nat)
    requires StateOk(st) && l < NUM_LEVELS
    requires forall i :: 0 <= i < |added| ==> added[i].0 < NUM_LEVELS
    requires FreshAdds(st.added[l], added, l)
    ensures Ascending(AddFiles(st, added).added[l])
    ensures forall f :: f in AddFiles(st, added).added[l] <==> f in st.added[l] || Adds(added, l, f)
    ensures forall n :: n in AddFiles(st, added).deleted[l] <==> n in st.deleted[l] && !AddsNumber(added, l, n)
  {
    if added != [] {
      var k := |added| - 1;
      var init, level, f := added[..k], added[k].0, added[k].1;
      AddFilesMembers(st, init, l);
      var mid := AddFiles(st, init);
      if level == l {
        InsertFileIsAscending(mid.added[l], f);
        forall g | g in mid.added[l] ensures g.number != f.number {
          if g !in st.added[l] {
            assert Adds(init, l, g);
          }
        }
      }
      forall g ensures Adds(added, l, g) <==> Adds(init, l, g) || (level == l && g == f) {
        assert added == init + [added[k]];
      }
      forall n ensures AddsNumber(added, l, n) <==> AddsNumber(init, l, n) || (level == l && n == f.number) {
        assert added == init + [added[k]];
      }
    }
  }

  // --- The builder object ---

  class Builder {
    const base: Levels
    var compactPointers: CompactPointers     // of the version set
    var deleted: seq<set<nat>>
    var added: seq<seq<File>>

    ghost predicate Valid()
      reads this
    {
      && |base| == NUM_LEVELS && (forall l :: 0 <= l < NUM_LEVELS ==> Ascending(base[l]))
      && StateOk(State(deleted, added))
    }

    constructor (base: Levels, compactPointers: CompactPointers)
      requires |base| == NUM_LEVELS && forall l :: 0 <= l < NUM_LEVELS ==> Ascending(base[l])
      ensures Valid() && this.base == base && State(deleted, added) == EmptyState()
      ensures this.compactPointers == compactPointers
    {
      this.base, this.compactPointers := base, compactPointers;
      deleted, added := EmptyState().deleted, EmptyState().added;
    }

    method Apply(e: Edit)
      requires Valid() && EditOk(e)
      modifies this
      ensures Valid() && State(deleted, added) == ApplyEdit(old(State(deleted, added)), e)
      ensures compactPointers == SetPointers(old(compactPointers), e.pointers)
    {
      ghost var before, pointers := State(deleted, added), compactPointers;
      for i := 0 to |e.pointers|
        invariant Valid() && State(deleted, added) == before
        invariant compactPointers == SetPointers(pointers, e.pointers[..i])
      {
        assert e.pointers[..i + 1][..i] == e.pointers[..i];
        compactPointers := compactPointers[e.pointers[i].0 := Some(e.pointers[i].1)];
      }
      assert e.pointers[..|e.pointers|] == e.pointers;
      deleted := MarkDeleted(State(deleted, added), e).deleted;
      for i := 0 to |e.added|
        invariant Valid() && compactPointers == SetPointers(pointers, e.pointers)
        invariant State(deleted, added) == AddFiles(MarkDeleted(before, e), e.added[..i])
      {
        var level, f := e.added[i].0, e.added[i].1;
        assert e.added[..i + 1][..i] == e.added[..i];
        InsertFileIsAscending(added[level], f);
        deleted := deleted[level := deleted[level] - {f.number}];
        added := added[level := InsertFile(added[level], f)];
      }
      assert e.added[..|e.added|] == e.added;
    }

    method SaveTo() returns (v: Levels)
      requires Valid()
      ensures |v| == NUM_LEVELS
      ensures forall l :: 0 <= l < NUM_LEVELS ==> Saved(v[l], base[l], added[l], deleted[l])
      ensures forall l :: 0 <= l < NUM_LEVELS && NoClash(base[l], added[l]) ==> Ascending(v[l])
    {
      v := [];
      for level := 0 to NUM_LEVELS
        invariant |v| == level
        invariant forall l :: 0 <= l < level ==> Saved(v[l], base[l], added[l], deleted[l])
        invariant forall l :: 0 <= l < level && NoClash(base[l], added[l]) ==> Ascending(v[l])
      {
        var files := SaveLevel(base[level], added[level], deleted[level]);
        v := v + [files];
      }
    }
  }

  // The version that results from applying one edit to v (LogAndApply, lines 792-797).
  ghost predicate Applied(v: Levels, e: Edit, after: Levels) {
    && |v| == |after| == NUM_LEVELS
    && (forall l, f :: 0 <= l < NUM_LEVELS ==>
          (f in after[l] <==> (f in v[l] && (l, f.number) !in e.deleted) || Adds(e.added, l, f)))
    && (forall l :: 0 <= l < NUM_LEVELS ==> Ascending(after[l]))
  }

  // Added numbers are new on their level and not among the numbers this edit deletes there.
  ghost predicate EditFits(v: Levels, e: Edit) {
    && EditOk(e) && |v| == NUM_LEVELS
    && forall l :: 0 <= l < NUM_LEVELS ==> FreshAdds(v[l], e.added, l)
  }

  // Also for an edit that adds a number it deletes or one already present, where a deleted file may stay.
  method LogAndApply(v: Levels, pointers: CompactPointers, e: Edit) returns (after: Levels, pointers': CompactPointers)
    requires EditOk(e) && |v| == NUM_LEVELS && forall l :: 0 <= l < NUM_LEVELS ==> Ascending(v[l])
    ensures |after| == NUM_LEVELS && pointers' == SetPointers(pointers, e.pointers)
    ensures var st := ApplyEdit(EmptyState(), e);
            forall l :: 0 <= l < NUM_LEVELS ==> Saved(after[l], v[l], st.added[l], st.deleted[l])
    ensures EditFits(v, e) ==> Applied(v, e, after)
  {
    var builder := new Builder(v, pointers);
    builder.Apply(e);
    after := builder.SaveTo();
    pointers' := builder.compactPointers;
    if EditFits(v, e) {
      forall l | 0 <= l < NUM_LEVELS
        ensures Ascending(after[l])
        ensures forall f :: f in after[l] <==> (f in v[l] && (l, f.number) !in e.deleted) || Adds(e.added, l, f)
      {
        OneEdit(v, e, l);
      }
    }
  }

  lemma OneEdit(v: Levels, e: Edit, l: nat)
    requires EditFits(v, e) && l < NUM_LEVELS
    ensures var st := ApplyEdit(EmptyState(), e);
            && NoClash(v[l], st.added[l])
            && forall f :: (f in v[l] || f in st.added[l]) && f.number !in st.deleted[l]
                           <==> (f in v[l] && (l, f.number) !in e.deleted) || Adds(e.added, l, f)
  {
    var st := ApplyEdit(EmptyState(), e);
    var start := MarkDeleted(EmptyState(), e);
    assert start.added[l] == [] && FreshAdds(v[l], e.added, l);
    AddFilesMembers(start, e.added, l);
    assert forall n :: n in start.deleted[l] <==> (l, n) in e.deleted;
    forall f, g | f in v[l] && g in st.added[l] ensures f.number != g.number {
      assert Adds(e.added, l, g);
    }
    forall f | f in v[l] ensures !AddsNumber(e.added, l, f.number) {}
    forall f | Adds(e.added, l, f) ensures AddsNumber(e.added, l, f.number) {}
  }
}
