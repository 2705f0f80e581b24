/** Table files and the searches over the file list of one level (db/version_set.cc).

    A file carries its metadata and its sorted contents, so that statements about reads can be made directly. */
module Files {
  import opened InternalKeys

  datatype File = File(number: nat, size: nat, smallest: IKey, largest: IKey, contents: seq<Entry>)

  ghost predicate FileOk(f: File) {
    && |f.contents| > 0
    && Sorted(f.contents)
    && f.smallest == f.contents[0].key
    && f.largest == f.contents[|f.contents| - 1].key
  }

  ghost predicate FilesOk(files: seq<File>) {
    forall i :: 0 <= i < |files| ==> FileOk(files[i])
  }

  // The invariant of levels >= 1: files ascend and do not meet in internal-key order, and no (user key,
  // sequence) pair repeats.
  ghost predicate Disjoint(files: seq<File>) {
    forall i, j :: 0 <= i < j < |files| ==> Precedes(files[i].largest, files[j].smallest)
  }

  ghost function Entries(files: seq<File>): set<Entry> {
    set i, e | 0 <= i < |files| && e in files[i].contents :: e
  }

  // [lo, hi] in user keys; a missing bound is infinite.  Negations of AfterFile and BeforeFile.
  predicate Meets(f: File, lo: Option<UserKey>, hi: Option<UserKey>) {
    && (lo.Some? ==> f.largest.user >= lo.value)
    && (hi.Some? ==> f.smallest.user <= hi.value)
  }

  predicate Covers(f: File, u: UserKey) {
    f.smallest.user <= u <= f.largest.user
  }

  // Entries of f are newer than entries of g with the same user key.
  ghost predicate FileNewer(f: File, g: File) {
    forall e, e' :: e in f.contents && e' in g.contents && e.key.user == e'.key.user
                    ==> e.key.sequence > e'.key.sequence
  }

  lemma FileOrder(f: File, e: Entry)
    requires FileOk(f) && e in f.contents
    ensures f.smallest == e.key || Precedes(f.smallest, e.key)
    ensures f.largest == e.key || Precedes(e.key, f.largest)
    ensures f.smallest.user <= e.key.user <= f.largest.user
  {
    var i :| 0 <= i < |f.contents| && f.contents[i] == e;
  }

  // Where the halving search between left and right ends, on any list of files.
  function Halve(files: seq<File>, key: IKey, left: nat, right: nat): (index: nat)
    requires left <= right <= |files|
    ensures index <= |files|
    decreases right - left
  {
    if left == right then right
    else
      var mid := (left + right) / 2;
      if Less(files[mid].largest, key) then Halve(files, key, mid + 1, right) else Halve(files, key, left, mid)
  }

  // FindFile (lines 87-105): on disjoint files, the least index whose largest key is >= key.
  method FindFile(files: seq<File>, key: IKey) returns (index: nat)
    ensures index == Halve(files, key, 0, |files|)
    ensures FilesOk(files) && Disjoint(files) ==>
              && (forall i :: 0 <= i < index ==> Less(files[i].largest, key))
              && (forall i :: index <= i < |files| ==> !Less(files[i].largest, key))
  {
    hide FilesOk, Disjoint, Less;
    var left, right := 0, |files|;
    ghost var ordered := FilesOk(files) && Disjoint(files);
    while left < right
      invariant 0 <= left <= right <= |files|
      invariant Halve(files, key, left, right) == Halve(files, key, 0, |files|)
      invariant ordered ==> forall i :: 0 <= i < left ==> Less(files[i].largest, key)
      invariant ordered ==> forall i :: right <= i < |files| ==> !Less(files[i].largest, key)
    {
      var mid := (left + right) / 2;
      if ordered {
        SplitsAt(files, key, mid);
      }
      if Less(files[mid].largest, key) {
        left := mid + 1;
      } else {
        right := mid;
      }
    }
    return right;
  }

  // On disjoint files one comparison decides for a whole side.
  lemma SplitsAt(files: seq<File>, key: IKey, mid: nat)
    requires FilesOk(files) && Disjoint(files) && mid < |files|
    ensures Less(files[mid].largest, key) ==> forall i :: 0 <= i <= mid ==> Less(files[i].largest, key)
    ensures !Less(files[mid].largest, key) ==> forall i :: mid <= i < |files| ==> !Less(files[i].largest, key)
  {
    LargestAscends(files, mid);
  }

  lemma LargestAscends(files: seq<File>, m: nat)
    requires FilesOk(files) && Disjoint(files) && m < |files|
    ensures forall i :: 0 <= i < m ==> Precedes(files[i].largest, files[m].largest)
    ensures forall i :: m < i < |files| ==> Precedes(files[m].largest, files[i].largest)
    ensures forall i :: m < i < |files| ==> Precedes(files[m].smallest, files[i].smallest)
  {
    forall i | 0 <= i < |files| ensures !Precedes(files[i].largest, files[i].smallest) {
      FileOrder(files[i], files[i].contents[0]);
    }
  }

  // SomeFileOverlapsRange (lines 121-156): the binary search agrees with a scan of all files.
  method SomeFileOverlapsRange(disjointSorted: bool, files: seq<File>,
                               lo: Option<UserKey>, hi: Option<UserKey>) returns (overlap: bool)
    requires FilesOk(files)
    requires disjointSorted ==> Disjoint(files)
    ensures overlap <==> exists i :: 0 <= i < |files| && Meets(files[i], lo, hi)
  {
    if !disjointSorted {
      for i := 0 to |files|
        invariant forall j :: 0 <= j < i ==> !Meets(files[j], lo, hi)
      {
        if Meets(files[i], lo, hi) {
          return true;
        }
      }
      return false;
    }
    var index := 0;
    if lo.Some? {
      index := FindFile(files, IKey(lo.value, MAX_SEQUENCE, Value));
    }
    if index >= |files| {
      return false;
    }
    LargestAscends(files, index);
    assert Meets(files[index], lo, hi) <==> !(hi.Some? && hi.value < files[index].smallest.user);
    return !(hi.Some? && hi.value < files[index].smallest.user);
  }
}
