/** What a compaction may drop, and exactly when dropping it changes a read (db/db_impl.cc 940-973).

    `inputs` are the entries being compacted, `rest` all other entries of the database.  An entry is dropped when
    a newer input entry of its user key is already visible to the oldest snapshot, or when it is a deletion that
    the oldest snapshot sees and no deeper level covers its user key. */
module CompactionMeaning {
  import opened InternalKeys

  ghost predicate Drops(inputs: set<Entry>, oldest: SequenceNumber, base: UserKey -> bool, e: Entry) {
    && e.key.sequence <= oldest
    && (!IsNewest(inputs, e.key.user, oldest, e) || (e.key.kind.Deletion? && base(e.key.user)))
  }

  ghost function Compacted(inputs: set<Entry>, oldest: SequenceNumber, base: UserKey -> bool): set<Entry> {
    set e | e in inputs && !Drops(inputs, oldest, base, e)
  }

  // A dropped deletion t was what the oldest snapshot read, and the entry it hid in `rest` is a value.
  ghost predicate Resurrects(inputs: set<Entry>, rest: set<Entry>, oldest: SequenceNumber,
                             base: UserKey -> bool, t: Entry) {
    && t in inputs && t.key.kind.Deletion? && base(t.key.user)
    && IsNewest(inputs + rest, t.key.user, oldest, t)
    && exists r :: IsNewest(rest, t.key.user, t.key.sequence, r) && r.key.kind.Value?
  }

  ghost predicate SameReads(before: set<Entry>, after: set<Entry>, oldest: SequenceNumber) {
    forall u, s: SequenceNumber :: s >= oldest ==> Read(after, u, s) == Read(before, u, s)
  }

  // The exact condition: reads at live snapshots are preserved iff no dropped deletion uncovers a value.
  lemma CompactionPreservesReadsIff(inputs: set<Entry>, rest: set<Entry>, oldest: SequenceNumber,
                                    base: UserKey -> bool)
    requires Unique(inputs + rest)
    ensures SameReads(inputs + rest, Compacted(inputs, oldest, base) + rest, oldest)
            <==> forall t :: !Resurrects(inputs, rest, oldest, base, t)
  {
    if t :| Resurrects(inputs, rest, oldest, base, t) {
      ResurrectionChangesRead(inputs, rest, oldest, base, t);
    } else {
      forall u, s: SequenceNumber | s >= oldest
        ensures Read(Compacted(inputs, oldest, base) + rest, u, s) == Read(inputs + rest, u, s)
      {
        ReadPreserved(inputs, rest, oldest, base, u, s);
      }
    }
  }

  lemma ResurrectionChangesRead(inputs: set<Entry>, rest: set<Entry>, oldest: SequenceNumber,
                                base: UserKey -> bool, t: Entry)
    requires Unique(inputs + rest) && Resurrects(inputs, rest, oldest, base, t)
    ensures Read(inputs + rest, t.key.user, oldest) == None
    ensures Read(Compacted(inputs, oldest, base) + rest, t.key.user, oldest).Some?
  {
    var u, after := t.key.user, Compacted(inputs, oldest, base) + rest;
    ReadNewest(inputs + rest, u, oldest, t);
    var r :| IsNewest(rest, u, t.key.sequence, r) && r.key.kind.Value?;
    forall f | f in after && Shows(f, u, oldest) ensures f.key.sequence <= r.key.sequence {
      assert f in inputs + rest && f != t;
      assert f in rest;
    }
    assert IsNewest(after, u, oldest, r);
    ReadNewest(after, u, oldest, r);
  }

  lemma ReadPreserved(inputs: set<Entry>, rest: set<Entry>, oldest: SequenceNumber, base: UserKey -> bool,
                      u: UserKey, s: SequenceNumber)
    requires Unique(inputs + rest) && s >= oldest
    requires forall t :: !Resurrects(inputs, rest, oldest, base, t)
    ensures Read(Compacted(inputs, oldest, base) + rest, u, s) == Read(inputs + rest, u, s)
  {
    var before, after := inputs + rest, Compacted(inputs, oldest, base) + rest;
    assert after <= before;
    var newest := ReadCases(before, u, s);
    if newest.None? {
      var _ := ReadCases(after, u, s);
    } else if newest.value in after {
      assert IsNewest(after, u, s, newest.value);
      ReadNewest(after, u, s, newest.value);
    } else {
      DroppedNewest(inputs, rest, oldest, base, u, s, newest.value);
    }
  }

  // A dropped entry that a live snapshot was reading is an obsolete deletion: absent before, absent after.
  lemma DroppedNewest(inputs: set<Entry>, rest: set<Entry>, oldest: SequenceNumber, base: UserKey -> bool,
                      u: UserKey, s: SequenceNumber, e: Entry)
    requires Unique(inputs + rest) && s >= oldest
    requires forall t :: !Resurrects(inputs, rest, oldest, base, t)
    requires IsNewest(inputs + rest, u, s, e) && e !in Compacted(inputs, oldest, base) + rest
    ensures Payload(e) == None
    ensures Read(Compacted(inputs, oldest, base) + rest, u, s) == None
  {
    var after := Compacted(inputs, oldest, base) + rest;
    assert e in inputs && Drops(inputs, oldest, base, e);
    assert IsNewest(inputs, u, oldest, e);
    assert IsNewest(inputs + rest, u, oldest, e);
    assert after <= inputs + rest;
    var newest := ReadCases(after, u, s);
    if newest.Some? {
      var r := newest.value;
      assert r.key.sequence <= e.key.sequence && r != e;
      assert r in rest;
      assert IsNewest(rest, u, e.key.sequence, r);
      assert !Resurrects(inputs, rest, oldest, base, e);
    }
  }
}
