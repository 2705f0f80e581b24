/** Internal keys, versioned entries and the meaning of a read (db/dbformat.h, db/dbformat.cc).

    User keys are modelled as reals.  LevelDB orders byte strings by a user-supplied comparator, and every
    total order on a countable set embeds in the rationals, so a statement for all real keys covers every
    comparator.  An internal key adds a sequence number and a type and sorts newest first within a user key. */
module InternalKeys {

  type Byte = x: int | 0 <= x < 256
  type Bytes = seq<Byte>

  datatype Option<+T> = None | Some(value: T)

  type UserKey = real

  const MAX_SEQUENCE: nat := 0xFF_FFFF_FFFF_FFFF

  type SequenceNumber = s: nat | s <= MAX_SEQUENCE

  const NUM_LEVELS: nat := 7

  datatype ValueType = Deletion | Value

  datatype IKey = IKey(user: UserKey, sequence: SequenceNumber, kind: ValueType)

  datatype Entry = Entry(key: IKey, value: Bytes)

  // PackSequenceAndType
  function Tag(k: IKey): nat {
    k.sequence * 256 + if k.kind.Value? then 1 else 0
  }

  // InternalKeyComparator::Compare(a, b) < 0
  predicate Less(a: IKey, b: IKey) {
    a.user < b.user || (a.user == b.user && Tag(a) > Tag(b))
  }

  // The key DBImpl::Get and DBIter::Seek look for: it precedes exactly the visible entries of u.
  function SeekKey(u: UserKey, s: SequenceNumber): IKey {
    IKey(u, s, Value)
  }

  // User keys ascend, and within a user key sequence numbers descend; no (user key, sequence) pair repeats.
  ghost predicate Sorted(run: seq<Entry>) {
    forall i, j :: 0 <= i < j < |run| ==> Precedes(run[i].key, run[j].key)
  }

  predicate Precedes(a: IKey, b: IKey)
    ensures Precedes(a, b) ==> Less(a, b)
  {
    a.user < b.user || (a.user == b.user && a.sequence > b.sequence)
  }

  // An entry is visible to a reader of u at snapshot s.
  predicate Shows(e: Entry, u: UserKey, s: SequenceNumber) {
    e.key.user == u && e.key.sequence <= s
  }

  // --- The specification of a read: the newest visible entry, a deletion meaning absent ---

  ghost predicate IsNewest(es: set<Entry>, u: UserKey, s: SequenceNumber, e: Entry) {
    && e in es
    && Shows(e, u, s)
    && forall f :: f in es && Shows(f, u, s) ==> f.key.sequence <= e.key.sequence
  }

  ghost predicate ShowsNothing(es: set<Entry>, u: UserKey, s: SequenceNumber) {
    forall e :: e in es ==> !Shows(e, u, s)
  }

  // One entry per user key and sequence number.
  ghost predicate Unique(es: set<Entry>) {
    forall e, f :: e in es && f in es && e.key.user == f.key.user && e.key.sequence == f.key.sequence ==> e == f
  }

  function Payload(e: Entry): Option<Bytes> {
    if e.key.kind.Value? then Some(e.value) else None
  }

  ghost function Read(es: set<Entry>, u: UserKey, s: SequenceNumber): Option<Bytes> {
    if exists e :: IsNewest(es, u, s, e) then
      var e :| IsNewest(es, u, s, e);
      Payload(e)
    else
      None
  }

  // Every entry of `upper` is newer than every entry of `lower` with the same user key.
  ghost predicate Newer(upper: set<Entry>, lower: set<Entry>) {
    forall e, f :: e in upper && f in lower && e.key.user == f.key.user ==> e.key.sequence > f.key.sequence
  }

  // --- Reads are determined by the newest visible entry ---

  lemma {:induction false} NewestExists(es: set<Entry>, u: UserKey, s: SequenceNumber)
    ensures ShowsNothing(es, u, s) || exists e :: IsNewest(es, u, s, e)
    decreases |es|
  {
    if e :| e in es && Shows(e, u, s) {
      var rest := es - {e};
      NewestExists(rest, u, s);
      if f :| IsNewest(rest, u, s, f) && f.key.sequence >= e.key.sequence {
        assert IsNewest(es, u, s, f);
      } else {
        assert IsNewest(es, u, s, e);
      }
    }
  }

  lemma ReadNewest(es: set<Entry>, u: UserKey, s: SequenceNumber, e: Entry)
    requires Unique(es) && IsNewest(es, u, s, e)
    ensures Read(es, u, s) == Payload(e)
  {
    forall f | IsNewest(es, u, s, f) ensures f == e {
      assert f.key.sequence == e.key.sequence;
    }
  }

  // Read(es, u, s) for either case of the specification.
  lemma ReadCases(es: set<Entry>, u: UserKey, s: SequenceNumber) returns (newest: Option<Entry>)
    requires Unique(es)
    ensures newest.Some? ==> IsNewest(es, u, s, newest.value) && Read(es, u, s) == Payload(newest.value)
    ensures newest.None? ==> ShowsNothing(es, u, s) && Read(es, u, s) == None
  {
    NewestExists(es, u, s);
    if e :| IsNewest(es, u, s, e) {
      ReadNewest(es, u, s, e);
      newest := Some(e);
    } else {
      newest := None;
    }
  }

  ghost function ToSet(run: seq<Entry>): set<Entry> {
    set e | e in run
  }

  lemma SortedIsUnique(run: seq<Entry>)
    requires Sorted(run)
    ensures Unique(ToSet(run))
  {
    forall e, f | e in run && f in run && e.key.user == f.key.user && e.key.sequence == f.key.sequence
      ensures e == f
    {
      var i :| 0 <= i < |run| && run[i] == e;
      var j :| 0 <= j < |run| && run[j] == f;
    }
  }
}
