/** The bytewise comparator and index separators (util/comparator.cc, db/dbformat.cc 47-97). */
module Separators {
  import opened InternalKeys
  import opened Coding

  // Slice::compare(a, b) < 0
  predicate LexLess(a: Bytes, b: Bytes) {
    if b == [] then false
    else if a == [] then true
    else a[0] < b[0] || (a[0] == b[0] && LexLess(a[1..], b[1..]))
  }

  predicate LexLeq(a: Bytes, b: Bytes) {
    a == b || LexLess(a, b)
  }

  lemma {:induction false} LexTotal(a: Bytes, b: Bytes)
    ensures LexLess(a, b) || a == b || LexLess(b, a)
    ensures !(LexLess(a, b) && LexLess(b, a)) && !LexLess(a, a)
    decreases |a|
  {
    if a != [] && b != [] {
      LexTotal(a[1..], b[1..]);
      LexTotal(a[1..], a[1..]);
      assert a == [a[0]] + a[1..] && b == [b[0]] + b[1..];
    } else if a != [] {
      LexTotal(a[1..], a[1..]);
    }
  }

  lemma {:induction false} LexTransitive(a: Bytes, b: Bytes, c: Bytes)
    requires LexLess(a, b) && LexLess(b, c)
    ensures LexLess(a, c)
    decreases |a|
  {
    if a != [] && a[0] == b[0] == c[0] {
      LexTransitive(a[1..], b[1..], c[1..]);
    }
  }

  // Two strings that agree up to n and differ there are ordered by their bytes at n.
  lemma {:induction false} LexAt(a: Bytes, b: Bytes, n: nat)
    requires n < |a| && n < |b| && a[..n] == b[..n] && a[n] < b[n]
    ensures LexLess(a, b)
    decreases n
  {
    if n > 0 {
      assert a[0] == a[..n][0] == b[0];
      assert a[1..][..n - 1] == a[..n][1..] == b[1..][..n - 1];
      LexAt(a[1..], b[1..], n - 1);
    }
  }

  method CommonPrefix(a: Bytes, b: Bytes) returns (n: nat)
    ensures n <= |a| && n <= |b| && a[..n] == b[..n]
    ensures n < |a| && n < |b| ==> a[n] != b[n]
  {
    n := 0;
    while n < |a| && n < |b| && a[n] == b[n]
      invariant n <= |a| && n <= |b| && a[..n] == b[..n]
    {
      n := n + 1;
    }
  }

  // The strings first differ at n, where the byte of start can be raised and still be below that of limit.
  ghost predicate Raises(start: Bytes, limit: Bytes, n: nat) {
    n < |start| && n < |limit| && start[..n] == limit[..n] && (start[n] as int) + 1 < limit[n]
  }

  predicate Between(start: Bytes, t: Bytes, limit: Bytes) {
    LexLeq(start, t) && LexLess(t, limit)
  }

  // A string between start and limit is longer than what they share.
  lemma {:induction false} LongerThanShared(start: Bytes, limit: Bytes, n: nat, t: Bytes)
    requires n < |start| && n < |limit| && start[..n] == limit[..n] && Between(start, t, limit)
    ensures |t| > n
    decreases n
  {
    if n > 0 {
      assert start[0] == start[..n][0] == limit[0];
      assert t != [] && t[0] == start[0];
      assert start[1..][..n - 1] == start[..n][1..] == limit[1..][..n - 1];
      assert LexLeq(start[1..], t[1..]);
      LongerThanShared(start[1..], limit[1..], n - 1, t[1..]);
    } else {
      assert t == [] ==> start == [];
    }
  }

  lemma OneRaise(start: Bytes, limit: Bytes, n: nat, m: nat)
    requires n <= |start| && n <= |limit| && start[..n] == limit[..n]
    requires n < |start| && n < |limit| ==> start[n] != limit[n]
    requires Raises(start, limit, m)
    ensures m == n
  {
    SamePrefix(start, limit, n);
    SamePrefix(start, limit, m);
  }

  lemma SamePrefix(a: Bytes, b: Bytes, n: nat)
    requires n <= |a| && n <= |b| && a[..n] == b[..n]
    ensures forall i :: 0 <= i < n ==> a[i] == b[i]
  {
    forall i | 0 <= i < n ensures a[i] == b[i] {
      assert a[..n][i] == b[..n][i];
    }
  }

  // BytewiseComparatorImpl::FindShortestSeparator: a string in [start, limit), and when the byte where they differ can
  // be raised a shortest one; else start itself.
  method FindShortestSeparator(start: Bytes, limit: Bytes) returns (sep: Bytes)
    ensures LexLeq(start, sep) && |sep| <= |start|
    ensures LexLess(start, limit) ==> LexLess(sep, limit)
    ensures start == limit ==> sep == start
    ensures (forall n :: !Raises(start, limit, n)) ==> sep == start
    ensures forall n, t :: Raises(start, limit, n) && Between(start, t, limit) ==> |sep| <= |t|
  {
    var n := CommonPrefix(start, limit);
    if n >= |start| || n >= |limit| {
      return start;
    }
    if start[n] < 255 && start[n] + 1 < limit[n] {
      sep := start[..n] + [start[n] + 1];
      assert sep[..n] == start[..n];
      LexAt(start, sep, n);
      LexAt(sep, limit, n);
      assert Raises(start, limit, n);
      forall m, t | Raises(start, limit, m) && Between(start, t, limit) ensures |sep| <= |t| {
        LongerThanShared(start, limit, n, t);
      }
      return;
    }
    forall m ensures !Raises(start, limit, m) {
      if Raises(start, limit, m) {
        OneRaise(start, limit, n, m);
      }
    }
    return start;
  }

  // A string at or after n largest bytes and more is longer than n.
  lemma {:induction false} LongerThanLargest(key: Bytes, n: nat, t: Bytes)
    requires n < |key| && (forall i :: 0 <= i < n ==> key[i] == 255) && LexLeq(key, t)
    ensures |t| > n
    decreases n
  {
    if n > 0 {
      assert t != [] && t[0] == 255;
      assert forall i :: 0 <= i < n - 1 ==> key[1..][i] == key[i + 1];
      LongerThanLargest(key[1..], n - 1, t[1..]);
    } else {
      assert t == [] ==> key == [];
    }
  }

  // BytewiseComparatorImpl::FindShortSuccessor: a shortest string at or after key.
  method FindShortSuccessor(key: Bytes) returns (succ: Bytes)
    ensures LexLeq(key, succ) && |succ| <= |key|
    ensures forall t :: LexLeq(key, t) ==> |succ| <= |t|
  {
    for i := 0 to |key|
      invariant forall j :: 0 <= j < i ==> key[j] == 255
    {
      if key[i] != 255 {
        forall t | LexLeq(key, t) ensures i < |t| {
          LongerThanLargest(key, i, t);
        }
        succ := key[..i] + [key[i] + 1];
        assert succ[..i] == key[..i];
        LexAt(key, succ, i);
        return;
      }
    }
    forall t | LexLeq(key, t) ensures |key| <= |t| {
      if key != [] {
        LongerThanLargest(key, |key| - 1, t);
      }
    }
    return key;
  }

  // --- Internal keys over byte strings ---

  // MAX_TAG is PackSequenceAndType(kMaxSequenceNumber, kValueTypeForSeek).
  const MAX_TAG: nat := 0xFF_FFFF_FFFF_FFFF * 256 + 1

  datatype ByteKey = ByteKey(user: Bytes, tag: nat)

  predicate KeyLess(a: ByteKey, b: ByteKey) {
    LexLess(a.user, b.user) || (a.user == b.user && a.tag > b.tag)
  }

  predicate KeyLeq(a: ByteKey, b: ByteKey) {
    a == b || KeyLess(a, b)
  }

  lemma KeyTotal(a: ByteKey, b: ByteKey)
    ensures KeyLess(a, b) || a == b || KeyLess(b, a)
    ensures !(KeyLess(a, b) && KeyLess(b, a)) && !KeyLess(a, a)
  {
    LexTotal(a.user, b.user);
    LexTotal(a.user, a.user);
  }

  lemma KeyTransitive(a: ByteKey, b: ByteKey, c: ByteKey)
    requires KeyLess(a, b) && KeyLess(b, c)
    ensures KeyLess(a, c)
  {
    if LexLess(a.user, b.user) && LexLess(b.user, c.user) {
      LexTransitive(a.user, b.user, c.user);
    }
  }

  // --- The order as a rank ---

  // A base-257 fraction with digit 0 for the end of the user key, where the tag decides, larger tags first.
  function Rank(user: Bytes, tag: nat): real {
    if user == [] then (0x1_0000_0000_0000_0000 - 1 - tag) as real / 0x1_0000_0000_0000_0000 as real / 257.0
    else (user[0] as real + 1.0 + Rank(user[1..], tag)) / 257.0
  }

  lemma {:induction false} RankBounds(user: Bytes, tag: Word64)
    ensures 0.0 <= Rank(user, tag) < 1.0
    ensures user == [] <==> Rank(user, tag) < 1.0 / 257.0
    decreases |user|
  {
    if user != [] {
      RankBounds(user[1..], tag);
    }
  }

  // The rank orders internal keys as the comparator does.
  lemma {:induction false} RankOrder(a: ByteKey, b: ByteKey)
    requires a.tag < TWO64 && b.tag < TWO64
    ensures KeyLess(a, b) <==> Rank(a.user, a.tag) < Rank(b.user, b.tag)
    decreases |a.user|
  {
    RankBounds(a.user, a.tag);
    RankBounds(b.user, b.tag);
    if a.user != [] && b.user != [] {
      var a', b' := ByteKey(a.user[1..], a.tag), ByteKey(b.user[1..], b.tag);
      RankOrder(a', b');
      RankBounds(a'.user, a.tag);
      RankBounds(b'.user, b.tag);
      assert a.user == [a.user[0]] + a'.user && b.user == [b.user[0]] + b'.user;
    }
  }

  // --- Encoded internal keys: the user key and eight bytes of tag ---

  function EncodeKey(k: ByteKey): (b: Bytes)
    ensures |b| == |k.user| + 8
  {
    k.user + EncodeFixed(k.tag, 8)
  }

  // ExtractUserKey; shorter strings are not internal keys.
  function UserKeyOf(b: Bytes): Bytes {
    if |b| < 8 then [] else b[..|b| - 8]
  }

  function KeyOf(b: Bytes): (k: ByteKey)
    ensures k.tag < TWO64
  {
    if |b| < 8 then ByteKey([], 0)
    else
      assert Pow256(4) == TWO32;
      assert Pow256(8) == 256 * (256 * (256 * (256 * Pow256(4))));
      DecodeFixedBound(b[|b| - 8..]);
      ByteKey(UserKeyOf(b), DecodeFixed(b[|b| - 8..]))
  }

  lemma KeyRoundTrip(k: ByteKey)
    requires k.tag < TWO64
    ensures KeyOf(EncodeKey(k)) == k
  {
    hide EncodeFixed, DecodeFixed;
    assert EncodeKey(k)[|k.user|..] == EncodeFixed(k.tag, 8);
    Fixed64RoundTrip(k.tag);
  }

  // The comparator of tables, as a rank on encoded keys.
  function InternalRank(b: Bytes): real {
    var k := KeyOf(b);
    Rank(k.user, k.tag)
  }

  lemma InternalRankOrder(a: Bytes, b: Bytes)
    ensures InternalRank(a) < InternalRank(b) <==> KeyLess(KeyOf(a), KeyOf(b))
  {
    RankOrder(KeyOf(a), KeyOf(b));
  }

  // What an index key promises about the last key of a block and the first key of the next: it is that last key, or
  // its user key lies strictly before the next block.
  ghost predicate Separates(last: ByteKey, sep: ByteKey, next: ByteKey) {
    && KeyLeq(last, sep) && KeyLess(sep, next)
    && (sep == last || (sep.tag == MAX_TAG && LexLess(sep.user, next.user)))
  }

  // InternalKeyComparator::FindShortestSeparator
  method Separator(start: Bytes, limit: Bytes) returns (sep: Bytes)
    requires |start| >= 8 && |limit| >= 8 && KeyLess(KeyOf(start), KeyOf(limit))
    ensures |sep| >= 8 && Separates(KeyOf(start), KeyOf(sep), KeyOf(limit)) && |sep| <= |start|
    ensures forall n, t :: Raises(UserKeyOf(start), UserKeyOf(limit), n) && Between(UserKeyOf(start), t, UserKeyOf(limit))
                           ==> |UserKeyOf(sep)| <= |t|
  {
    hide EncodeFixed, DecodeFixed;
    var userStart, userLimit := UserKeyOf(start), UserKeyOf(limit);
    var tmp := FindShortestSeparator(userStart, userLimit);
    LexTotal(userStart, tmp);
    LexTotal(userStart, userLimit);
    if |tmp| < |userStart| && LexLess(userStart, tmp) {
      KeyRoundTrip(ByteKey(tmp, MAX_TAG));
      return EncodeKey(ByteKey(tmp, MAX_TAG));
    }
    return start;
  }

  // InternalKeyComparator::FindShortSuccessor
  method Successor(key: Bytes) returns (succ: Bytes)
    requires |key| >= 8
    ensures |succ| >= 8 && KeyLeq(KeyOf(key), KeyOf(succ)) && |succ| <= |key|
    ensures forall t :: LexLeq(UserKeyOf(key), t) ==> |UserKeyOf(succ)| <= |t|
  {
    hide EncodeFixed, DecodeFixed;
    var user := UserKeyOf(key);
    var tmp := FindShortSuccessor(user);
    if |tmp| < |user| && LexLess(user, tmp) {
      KeyRoundTrip(ByteKey(tmp, MAX_TAG));
      return EncodeKey(ByteKey(tmp, MAX_TAG));
    }
    return key;
  }
}
