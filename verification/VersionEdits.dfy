/** Version edit records of the manifest (db/version_edit.cc). */
module VersionEdits {
  import opened InternalKeys
  import opened Coding
  import opened Log

  // FileMetaData; internal keys in their encoded, non-empty form.
  datatype Meta = Meta(number: Word64, size: Word64, smallest: Bytes, largest: Bytes)

  datatype VersionEdit = VersionEdit(
    comparator: Option<Bytes>,
    logNumber: Option<Word64>,
    prevLogNumber: Option<Word64>,
    nextFileNumber: Option<Word64>,
    lastSequence: Option<Word64>,
    compactPointers: seq<(nat, Bytes)>,
    deleted: set<(nat, Word64)>,
    newFiles: seq<(nat, Meta)>)

  // Clear resets every field except the compaction pointers.
  function Clear(e: VersionEdit): VersionEdit {
    VersionEdit(None, None, None, None, None, e.compactPointers, {}, [])
  }

  // One tagged item of the record.
  datatype Item =
    | Comparator(name: Bytes)
    | LogNumber(n: Word64)
    | NextFileNumber(n: Word64)
    | LastSequence(n: Word64)
    | CompactPointer(level: nat, key: Bytes)
    | DeletedFile(level: nat, n: Word64)
    | NewFile(level: nat, f: Meta)
    | PrevLogNumber(n: Word64)

  predicate KeyOk(key: Bytes) {
    0 < |key| < TWO32
  }

  predicate ItemOk(i: Item) {
    match i
    case Comparator(name) => |name| < TWO32
    case CompactPointer(level, key) => level < NUM_LEVELS && KeyOk(key)
    case DeletedFile(level, _) => level < NUM_LEVELS
    case NewFile(level, f) => level < NUM_LEVELS && KeyOk(f.smallest) && KeyOk(f.largest)
    case _ => true
  }

  // The tag of an item and what follows it.
  function TagOf(i: Item): Word32 {
    match i
    case Comparator(_) => 1
    case LogNumber(_) => 2
    case NextFileNumber(_) => 3
    case LastSequence(_) => 4
    case CompactPointer(_, _) => 5
    case DeletedFile(_, _) => 6
    case NewFile(_, _) => 7
    case PrevLogNumber(_) => 9
  }

  function BodyOf(i: Item): Bytes {
    match i
    case Comparator(name) => PutLengthPrefixed(name)
    case CompactPointer(level, key) => EncodeVarint(level) + PutLengthPrefixed(key)
    case DeletedFile(level, n) => EncodeVarint(level) + EncodeVarint(n)
    case NewFile(level, f) => EncodeVarint(level) + EncodeMeta(f)
    case LogNumber(n) => EncodeVarint(n)
    case NextFileNumber(n) => EncodeVarint(n)
    case LastSequence(n) => EncodeVarint(n)
    case PrevLogNumber(n) => EncodeVarint(n)
  }

  function EncodeItem(i: Item): (b: Bytes)
    ensures b != []
  {
    EncodeVarint(TagOf(i)) + BodyOf(i)
  }

  function EncodeMeta(f: Meta): Bytes {
    EncodeVarint(f.number) + (EncodeVarint(f.size) + (PutLengthPrefixed(f.smallest) + PutLengthPrefixed(f.largest)))
  }

  function EncodeItems(items: seq<Item>): Bytes {
    if items == [] then [] else EncodeItem(items[0]) + EncodeItems(items[1..])
  }

  // --- Parsing ---

  function GetLevel(s: Bytes): Parsed<nat> {
    match GetVarint32(s)
    case Bad => Bad
    case Good(v, rest) => if v < NUM_LEVELS then Good(v, rest) else Bad
  }

  function GetKey(s: Bytes): Parsed<Bytes> {
    match GetLengthPrefixed(s)
    case Bad => Bad
    case Good(key, rest) => if key == [] then Bad else Good(key, rest)
  }

  function ParseMeta(s: Bytes): Parsed<Meta> {
    match GetVarint64(s)
    case Bad => Bad
    case Good(number, s1) =>
      match GetVarint64(s1)
      case Bad => Bad
      case Good(size, s2) =>
        match GetKey(s2)
        case Bad => Bad
        case Good(smallest, s3) =>
          match GetKey(s3)
          case Bad => Bad
          case Good(largest, s4) => Good(Meta(number, size, smallest, largest), s4)
  }

  function Number(s: Bytes, make: Word64 -> Item): Parsed<Item> {
    match GetVarint64(s)
    case Bad => Bad
    case Good(n, rest) => Good(make(n), rest)
  }

  function Levelled(tag: Word32, level: nat, s: Bytes): Parsed<Item> {
    if tag == 5 then
      match GetKey(s)
      case Bad => Bad
      case Good(key, rest) => Good(CompactPointer(level, key), rest)
    else if tag == 6 then
      match GetVarint64(s)
      case Bad => Bad
      case Good(n, rest) => Good(DeletedFile(level, n), rest)
    else
      match ParseMeta(s)
      case Bad => Bad
      case Good(f, rest) => Good(NewFile(level, f), rest)
  }

  // What follows a tag.
  function ParseBody(tag: Word32, s: Bytes): Parsed<Item> {
    if tag == 1 then
      match GetLengthPrefixed(s)
      case Bad => Bad
      case Good(name, rest) => Good(Comparator(name), rest)
    else if tag == 2 then Number(s, (n: Word64) => LogNumber(n))
    else if tag == 3 then Number(s, (n: Word64) => NextFileNumber(n))
    else if tag == 4 then Number(s, (n: Word64) => LastSequence(n))
    else if tag == 9 then Number(s, (n: Word64) => PrevLogNumber(n))
    else if 5 <= tag <= 7 then
      match GetLevel(s)
      case Bad => Bad
      case Good(level, rest) => Levelled(tag, level, rest)
    else Bad
  }

  function ParseItem(s: Bytes): Parsed<Item> {
    match GetVarint32(s)
    case Bad => Bad
    case Good(tag, rest) => ParseBody(tag, rest)
  }

  lemma KeyReadsBack(key: Bytes, rest: Bytes)
    requires KeyOk(key)
    ensures GetKey(PutLengthPrefixed(key) + rest) == Good(key, rest)
  {
    hide GetLengthPrefixed, PutLengthPrefixed;
    LengthPrefixedRoundTrip(key, rest);
  }

  lemma LevelReadsBack(level: nat, rest: Bytes)
    requires level < NUM_LEVELS
    ensures GetLevel(EncodeVarint(level) + rest) == Good(level, rest)
  {
    hide GetVarint32, EncodeVarint;
    Varint32RoundTrip(level, rest);
  }

  lemma MetaReadsBack(f: Meta, rest: Bytes)
    requires KeyOk(f.smallest) && KeyOk(f.largest)
    ensures ParseMeta(EncodeMeta(f) + rest) == Good(f, rest)
  {
    hide GetVarint64, EncodeVarint, GetKey, PutLengthPrefixed;
    var d := PutLengthPrefixed(f.largest);
    var c := PutLengthPrefixed(f.smallest);
    var b := EncodeVarint(f.size);
    var a := EncodeVarint(f.number);
    KeyReadsBack(f.largest, rest);
    KeyReadsBack(f.smallest, d + rest);
    Varint64RoundTrip(f.size, c + (d + rest));
    Varint64RoundTrip(f.number, b + (c + (d + rest)));
    assert a + (b + (c + d)) + rest == a + (b + (c + (d + rest)));
  }

  lemma LevelledReadsBack(i: Item, rest: Bytes)
    requires ItemOk(i) && (i.CompactPointer? || i.DeletedFile? || i.NewFile?)
    ensures ParseItem(EncodeItem(i) + rest) == Good(i, rest)
  {
    hide GetVarint64, GetVarint32, EncodeVarint, GetKey, GetLevel, PutLengthPrefixed, ParseMeta, EncodeMeta;
    var tag := TagOf(i);
    var c := if i.CompactPointer? then PutLengthPrefixed(i.key)
             else if i.DeletedFile? then EncodeVarint(i.n) else EncodeMeta(i.f);
    var t, l := EncodeVarint(tag), EncodeVarint(i.level);
    assert t + (l + c) + rest == t + (l + (c + rest));
    Varint32RoundTrip(tag, l + (c + rest));
    LevelReadsBack(i.level, c + rest);
    match i
    case CompactPointer(_, key) => KeyReadsBack(key, rest);
    case DeletedFile(_, n) => Varint64RoundTrip(n, rest);
    case NewFile(_, f) => MetaReadsBack(f, rest);
  }

  lemma ItemReadsBack(i: Item, rest: Bytes)
    requires ItemOk(i)
    ensures ParseItem(EncodeItem(i) + rest) == Good(i, rest)
  {
    hide GetVarint64, GetVarint32, EncodeVarint, GetLengthPrefixed, PutLengthPrefixed, GetLevel;
    if i.CompactPointer? || i.DeletedFile? || i.NewFile? {
      LevelledReadsBack(i, rest);
    } else if i.Comparator? {
      var t, c := EncodeVarint(1), PutLengthPrefixed(i.name);
      assert t + c + rest == t + (c + rest);
      Varint32RoundTrip(1, c + rest);
      LengthPrefixedRoundTrip(i.name, rest);
    } else {
      var tag := TagOf(i);
      var t, c := EncodeVarint(tag), EncodeVarint(i.n);
      assert t + c + rest == t + (c + rest);
      Varint32RoundTrip(tag, c + rest);
      Varint64RoundTrip(i.n, rest);
    }
  }

  // --- Decoding consumes its input ---

  lemma VarintShrinks(s: Bytes)
    ensures GetVarint32(s).Good? ==> |GetVarint32(s).rest| < |s|
    ensures GetVarint64(s).Good? ==> |GetVarint64(s).rest| < |s|
  {
    ParseShrinks(s, 5);
    ParseShrinks(s, 10);
    FromParse(s);
  }

  lemma FromParse(s: Bytes)
    ensures GetVarint32(s).Good? ==> ParseVarint(s, 5).Good? && GetVarint32(s).rest == ParseVarint(s, 5).rest
    ensures GetVarint64(s).Good? ==> ParseVarint(s, 10).Good? && GetVarint64(s).rest == ParseVarint(s, 10).rest
  {
  }

  lemma SliceShrinks(s: Bytes)
    ensures GetLengthPrefixed(s).Good? ==> |GetLengthPrefixed(s).rest| < |s|
    ensures GetKey(s).Good? ==> |GetKey(s).rest| < |s|
  {
    hide GetVarint32;
    VarintShrinks(s);
  }

  lemma MetaShrinks(s: Bytes)
    ensures ParseMeta(s).Good? ==> |ParseMeta(s).rest| < |s|
  {
    hide GetVarint64, GetKey;
    VarintShrinks(s);
    var a := GetVarint64(s);
    if a.Good? {
      VarintShrinks(a.rest);
      var b := GetVarint64(a.rest);
      if b.Good? {
        SliceShrinks(b.rest);
        var c := GetKey(b.rest);
        if c.Good? {
          SliceShrinks(c.rest);
        }
      }
    }
  }

  lemma BodyShrinks(tag: Word32, s: Bytes)
    ensures ParseBody(tag, s).Good? ==> |ParseBody(tag, s).rest| < |s|
  {
    hide GetVarint32, GetVarint64, GetKey, GetLengthPrefixed, ParseMeta;
    VarintShrinks(s);
    SliceShrinks(s);
    var l := GetLevel(s);
    if l.Good? {
      VarintShrinks(l.rest);
      SliceShrinks(l.rest);
      MetaShrinks(l.rest);
    }
  }

  // --- EncodeTo and DecodeFrom ---

  function AddItem(e: VersionEdit, i: Item): VersionEdit {
    match i
    case Comparator(name) => e.(comparator := Some(name))
    case LogNumber(n) => e.(logNumber := Some(n))
    case NextFileNumber(n) => e.(nextFileNumber := Some(n))
    case LastSequence(n) => e.(lastSequence := Some(n))
    case CompactPointer(level, key) => e.(compactPointers := e.compactPointers + [(level, key)])
    case DeletedFile(level, n) => e.(deleted := e.deleted + {(level, n)})
    case NewFile(level, f) => e.(newFiles := e.newFiles + [(level, f)])
    case PrevLogNumber(n) => e.(prevLogNumber := Some(n))
  }

  function AddItems(e: VersionEdit, items: seq<Item>): VersionEdit
    decreases |items|
  {
    if items == [] then e else AddItems(AddItem(e, items[0]), items[1..])
  }

  // The tag loop: an unreadable tag with input left is an error.
  function DecodeLoop(e: VersionEdit, s: Bytes): Option<VersionEdit>
    decreases |s|
  {
    match GetVarint32(s)
    case Bad => if s == [] then Some(e) else None
    case Good(tag, body) =>
      VarintShrinks(s);
      BodyShrinks(tag, body);
      match ParseBody(tag, body)
      case Bad => None
      case Good(item, rest) => DecodeLoop(AddItem(e, item), rest)
  }

  // The levels an edit speaks of exist.
  predicate LevelsOk(e: VersionEdit) {
    && (forall d :: d in e.deleted ==> d.0 < NUM_LEVELS)
    && (forall i :: 0 <= i < |e.newFiles| ==> e.newFiles[i].0 < NUM_LEVELS)
    && (forall i :: 0 <= i < |e.compactPointers| ==> e.compactPointers[i].0 < NUM_LEVELS)
  }

  lemma ItemLevel(e: VersionEdit, tag: Word32, body: Bytes)
    requires LevelsOk(e) && ParseBody(tag, body).Good?
    ensures LevelsOk(AddItem(e, ParseBody(tag, body).value))
  {
    hide GetVarint32, GetVarint64, GetKey, GetLengthPrefixed, ParseMeta;
  }

  lemma {:induction false} DecodedLevels(e: VersionEdit, s: Bytes)
    requires LevelsOk(e)
    ensures DecodeLoop(e, s).Some? ==> LevelsOk(DecodeLoop(e, s).value)
    decreases |s|
  {
    hide GetVarint32, ParseBody, LevelsOk, AddItem;
    var tag := GetVarint32(s);
    if tag.Good? {
      VarintShrinks(s);
      BodyShrinks(tag.value, tag.rest);
      var item := ParseBody(tag.value, tag.rest);
      if item.Good? {
        ItemLevel(e, tag.value, tag.rest);
        DecodedLevels(AddItem(e, item.value), item.rest);
      }
    }
  }

  method DecodeFrom(before: VersionEdit, src: Bytes) returns (r: Option<VersionEdit>)
    ensures r == DecodeLoop(Clear(before), src)
  {
    hide GetVarint32, ParseBody;
    var e, input := Clear(before), src;
    while true
      invariant DecodeLoop(e, input) == DecodeLoop(Clear(before), src)
      decreases |input|
    {
      VarintShrinks(input);
      var tag := GetVarint32(input);
      if tag.Bad? {
        return if input != [] then None else Some(e);
      }
      BodyShrinks(tag.value, tag.rest);
      var item := ParseBody(tag.value, tag.rest);
      if item.Bad? {
        return None;
      }
      e, input := AddItem(e, item.value), item.rest;
    }
  }

  // std::set iterates in order; any listing of the set encodes it.
  ghost predicate Lists(order: seq<(nat, Word64)>, deleted: set<(nat, Word64)>) {
    forall d :: d in order <==> d in deleted
  }

  function Scalars(e: VersionEdit): seq<Item> {
    (if e.comparator.Some? then [Comparator(e.comparator.value)] else [])
    + (if e.logNumber.Some? then [LogNumber(e.logNumber.value)] else [])
    + (if e.prevLogNumber.Some? then [PrevLogNumber(e.prevLogNumber.value)] else [])
    + (if e.nextFileNumber.Some? then [NextFileNumber(e.nextFileNumber.value)] else [])
    + (if e.lastSequence.Some? then [LastSequence(e.lastSequence.value)] else [])
  }

  function Pointers(ps: seq<(nat, Bytes)>): seq<Item> {
    seq(|ps|, i requires 0 <= i < |ps| => CompactPointer(ps[i].0, ps[i].1))
  }

  function Deletions(order: seq<(nat, Word64)>): seq<Item> {
    seq(|order|, i requires 0 <= i < |order| => DeletedFile(order[i].0, order[i].1))
  }

  function NewFiles(files: seq<(nat, Meta)>): seq<Item> {
    seq(|files|, i requires 0 <= i < |files| => NewFile(files[i].0, files[i].1))
  }

  function Items(e: VersionEdit, order: seq<(nat, Word64)>): seq<Item> {
    Scalars(e) + (Pointers(e.compactPointers) + (Deletions(order) + NewFiles(e.newFiles)))
  }

  ghost predicate EditOk(e: VersionEdit) {
    && (e.comparator.Some? ==> |e.comparator.value| < TWO32)
    && (forall i :: 0 <= i < |e.compactPointers| ==> ItemOk(Pointers(e.compactPointers)[i]))
    && (forall d :: d in e.deleted ==> d.0 < NUM_LEVELS)
    && (forall i :: 0 <= i < |e.newFiles| ==> ItemOk(NewFiles(e.newFiles)[i]))
  }

  lemma {:induction false} EncodeItemsAppend(a: seq<Item>, b: seq<Item>)
    ensures EncodeItems(a + b) == EncodeItems(a) + EncodeItems(b)
  {
    hide EncodeItem;
    if a == [] {
      assert a + b == b;
    } else {
      EncodeItemsAppend(a[1..], b);
      assert (a + b)[1..] == a[1..] + b && (a + b)[0] == a[0];
      var x, y, z := EncodeItem(a[0]), EncodeItems(a[1..]), EncodeItems(b);
      assert x + (y + z) == x + y + z;
    }
  }

  // Appends items one by one.
  method PutItems(dst: Bytes, items: seq<Item>) returns (out: Bytes)
    ensures out == dst + EncodeItems(items)
  {
    hide EncodeItem;
    out := dst;
    assert items[0..] == items;
    for i := 0 to |items|
      invariant out + EncodeItems(items[i..]) == dst + EncodeItems(items)
    {
      var b := EncodeItem(items[i]);
      assert items[i..][1..] == items[i + 1..];
      assert out + (b + EncodeItems(items[i + 1..])) == out + b + EncodeItems(items[i + 1..]);
      out := out + b;
    }
    assert out + [] == out;
  }

  method EncodeTo(e: VersionEdit, order: seq<(nat, Word64)>) returns (out: Bytes)
    requires Lists(order, e.deleted)
    ensures out == EncodeItems(Items(e, order))
  {
    hide EncodeItems;
    out := PutItems([], Scalars(e));
    out := PutItems(out, Pointers(e.compactPointers));
    out := PutItems(out, Deletions(order));
    out := PutItems(out, NewFiles(e.newFiles));
    var a, b, c, d := Scalars(e), Pointers(e.compactPointers), Deletions(order), NewFiles(e.newFiles);
    EncodeItemsAppend(c, d);
    EncodeItemsAppend(b, c + d);
    EncodeItemsAppend(a, b + (c + d));
    Flat(EncodeItems(a), EncodeItems(b), EncodeItems(c), EncodeItems(d));
  }

  lemma Flat(a: Bytes, b: Bytes, c: Bytes, d: Bytes)
    ensures [] + a + b + c + d == a + (b + (c + d))
  {
  }

  // --- Round trip ---

  lemma {:induction false} DecodesItems(e: VersionEdit, items: seq<Item>)
    requires forall i :: 0 <= i < |items| ==> ItemOk(items[i])
    ensures DecodeLoop(e, EncodeItems(items)) == Some(AddItems(e, items))
    decreases |items|
  {
    hide GetVarint32, ParseBody, EncodeItem;
    if items != [] {
      ItemReadsBack(items[0], EncodeItems(items[1..]));
      DecodesItems(AddItem(e, items[0]), items[1..]);
    } else {
      NoTag();
    }
  }

  lemma NoTag()
    ensures GetVarint32([]).Bad?
  {
  }

  lemma {:induction false} AddItemsAppend(e: VersionEdit, a: seq<Item>, b: seq<Item>)
    ensures AddItems(e, a + b) == AddItems(AddItems(e, a), b)
    decreases |a|
  {
    hide AddItem;
    if a == [] {
      assert a + b == b;
    } else {
      AddItemsAppend(AddItem(e, a[0]), a[1..], b);
      assert (a + b)[1..] == a[1..] + b && (a + b)[0] == a[0];
    }
  }

  lemma {:induction false} AddPointers(e: VersionEdit, ps: seq<(nat, Bytes)>)
    ensures AddItems(e, Pointers(ps)) == e.(compactPointers := e.compactPointers + ps)
    decreases |ps|
  {
    if ps == [] {
      assert e.compactPointers + ps == e.compactPointers;
    } else {
      AddPointers(e.(compactPointers := e.compactPointers + [ps[0]]), ps[1..]);
      assert Pointers(ps)[1..] == Pointers(ps[1..]);
      assert e.compactPointers + [ps[0]] + ps[1..] == e.compactPointers + ps;
    }
  }

  lemma {:induction false} AddFiles(e: VersionEdit, files: seq<(nat, Meta)>)
    ensures AddItems(e, NewFiles(files)) == e.(newFiles := e.newFiles + files)
    decreases |files|
  {
    if files == [] {
      assert e.newFiles + files == e.newFiles;
    } else {
      AddFiles(e.(newFiles := e.newFiles + [files[0]]), files[1..]);
      assert NewFiles(files)[1..] == NewFiles(files[1..]);
      assert e.newFiles + [files[0]] + files[1..] == e.newFiles + files;
    }
  }

  lemma {:induction false} AddDeletions(e: VersionEdit, order: seq<(nat, Word64)>)
    ensures AddItems(e, Deletions(order)) == e.(deleted := e.deleted + set d | d in order)
    decreases |order|
  {
    if order == [] {
      assert e.deleted + (set d | d in order) == e.deleted;
    } else {
      AddDeletions(e.(deleted := e.deleted + {order[0]}), order[1..]);
      assert Deletions(order)[1..] == Deletions(order[1..]);
      assert e.deleted + {order[0]} + (set d | d in order[1..]) == e.deleted + set d | d in order;
    }
  }

  lemma {:induction false} AddScalars(e: VersionEdit, before: VersionEdit)
    ensures AddItems(Clear(before), Scalars(e))
            == e.(compactPointers := before.compactPointers, deleted := {}, newFiles := [])
  {
    var c := Clear(before);
    var a := if e.comparator.Some? then [Comparator(e.comparator.value)] else [];
    var b := if e.logNumber.Some? then [LogNumber(e.logNumber.value)] else [];
    var d := if e.prevLogNumber.Some? then [PrevLogNumber(e.prevLogNumber.value)] else [];
    var f := if e.nextFileNumber.Some? then [NextFileNumber(e.nextFileNumber.value)] else [];
    var g := if e.lastSequence.Some? then [LastSequence(e.lastSequence.value)] else [];
    AddItemsAppend(c, a + b + d + f, g);
    AddItemsAppend(c, a + b + d, f);
    AddItemsAppend(c, a + b, d);
    AddItemsAppend(c, a, b);
  }

  // Decoding an encoded edit gives it back, after the compaction pointers that the target held before: it is the same
  // edit exactly when the target held none.
  lemma RoundTrip(e: VersionEdit, order: seq<(nat, Word64)>, before: VersionEdit)
    requires EditOk(e) && Lists(order, e.deleted)
    ensures DecodeLoop(Clear(before), EncodeItems(Items(e, order)))
            == Some(e.(compactPointers := before.compactPointers + e.compactPointers))
    ensures DecodeLoop(Clear(before), EncodeItems(Items(e, order))) == Some(e) <==> before.compactPointers == []
  {
    hide DecodeLoop, EncodeItems, AddItems;
    var items := Items(e, order);
    ItemsOk(e, order);
    DecodesItems(Clear(before), items);
    var a, b, c, d := Scalars(e), Pointers(e.compactPointers), Deletions(order), NewFiles(e.newFiles);
    AddItemsAppend(Clear(before), a, b + (c + d));
    AddScalars(e, before);
    var e1 := e.(compactPointers := before.compactPointers, deleted := {}, newFiles := []);
    AddItemsAppend(e1, b, c + d);
    AddPointers(e1, e.compactPointers);
    var e2 := e1.(compactPointers := before.compactPointers + e.compactPointers);
    AddItemsAppend(e2, c, d);
    AddDeletions(e2, order);
    var e3 := e2.(deleted := e.deleted);
    assert {} + (set x | x in order) == e.deleted;
    AddFiles(e3, e.newFiles);
    assert [] + e.newFiles == e.newFiles;
    SamePointers(before.compactPointers, e.compactPointers);
  }

  lemma SamePointers(a: seq<(nat, Bytes)>, b: seq<(nat, Bytes)>)
    ensures a + b == b <==> a == []
  {
    if a != [] {
      assert |a + b| != |b|;
    } else {
      assert a + b == b;
    }
  }

  lemma ItemsOk(e: VersionEdit, order: seq<(nat, Word64)>)
    requires EditOk(e) && Lists(order, e.deleted)
    ensures forall i :: 0 <= i < |Items(e, order)| ==> ItemOk(Items(e, order)[i])
  {
    var c := Deletions(order);
    forall i | 0 <= i < |c| ensures ItemOk(c[i]) {
      assert order[i] in order;
    }
  }

  // --- Records that are not edits ---

  // A tag the format does not have makes the record unreadable, whatever came before it.
  lemma UnknownTagFails(e: VersionEdit, tag: Word32, rest: Bytes)
    requires tag == 0 || tag == 8 || tag > 9
    ensures DecodeLoop(e, EncodeVarint(tag) + rest) == None
  {
    hide GetVarint32, EncodeVarint, GetVarint64, GetKey, GetLengthPrefixed, ParseMeta, GetLevel;
    Varint32RoundTrip(tag, rest);
  }

  // So does a level the store does not have.
  lemma BadLevelFails(e: VersionEdit, tag: Word32, level: Word32, rest: Bytes)
    requires 5 <= tag <= 7 && level >= NUM_LEVELS
    ensures DecodeLoop(e, EncodeVarint(tag) + (EncodeVarint(level) + rest)) == None
  {
    hide GetVarint32, EncodeVarint, GetVarint64, GetKey, GetLengthPrefixed, ParseMeta;
    Varint32RoundTrip(tag, EncodeVarint(level) + rest);
    Varint32RoundTrip(level, rest);
  }

  lemma KeyCut(key: Bytes, c: nat)
    requires KeyOk(key) && c < |PutLengthPrefixed(key)|
    ensures GetKey(PutLengthPrefixed(key)[..c]).Bad?
  {
    hide GetLengthPrefixed, PutLengthPrefixed;
    SliceCut(key, c);
  }

  lemma MetaCut(f: Meta, c: nat)
    requires KeyOk(f.smallest) && KeyOk(f.largest) && c < |EncodeMeta(f)|
    ensures ParseMeta(EncodeMeta(f)[..c]).Bad?
  {
    hide GetVarint64, EncodeVarint, GetKey, PutLengthPrefixed;
    var n, z, a, b := EncodeVarint(f.number), EncodeVarint(f.size), PutLengthPrefixed(f.smallest), PutLengthPrefixed(f.largest);
    var s := EncodeMeta(f)[..c];
    if c < |n| {
      assert s == n[..c];
      VarintCut(f.number, c, 10);
    } else {
      var c1 := c - |n|;
      assert s == n + (z + (a + b))[..c1];
      Varint64RoundTrip(f.number, (z + (a + b))[..c1]);
      if c1 < |z| {
        assert (z + (a + b))[..c1] == z[..c1];
        VarintCut(f.size, c1, 10);
      } else {
        var c2 := c1 - |z|;
        assert (z + (a + b))[..c1] == z + (a + b)[..c2];
        Varint64RoundTrip(f.size, (a + b)[..c2]);
        if c2 < |a| {
          assert (a + b)[..c2] == a[..c2];
          KeyCut(f.smallest, c2);
        } else {
          assert (a + b)[..c2] == a + b[..c2 - |a|];
          KeyReadsBack(f.smallest, b[..c2 - |a|]);
          KeyCut(f.largest, c2 - |a|);
        }
      }
    }
  }

  lemma LevelledCut(i: Item, c: nat)
    requires ItemOk(i) && (i.CompactPointer? || i.DeletedFile? || i.NewFile?) && c < |BodyOf(i)|
    ensures ParseBody(TagOf(i), BodyOf(i)[..c]).Bad?
  {
    hide GetVarint32, GetVarint64, EncodeVarint, GetKey, PutLengthPrefixed, ParseMeta, EncodeMeta, GetLevel;
    var l := EncodeVarint(i.level);
    var x := if i.CompactPointer? then PutLengthPrefixed(i.key) else if i.DeletedFile? then EncodeVarint(i.n) else EncodeMeta(i.f);
    assert BodyOf(i) == l + x;
    if c < |l| {
      assert BodyOf(i)[..c] == l[..c];
      VarintCut(i.level, c, 5);
      LevelCut(l[..c]);
    } else {
      var d := c - |l|;
      assert BodyOf(i)[..c] == l + x[..d];
      LevelReadsBack(i.level, x[..d]);
      match i
      case CompactPointer(_, key) => KeyCut(key, d);
      case DeletedFile(_, n) => VarintCut(n, d, 10);
      case NewFile(_, f) => MetaCut(f, d);
    }
  }

  lemma LevelCut(s: Bytes)
    requires GetVarint32(s).Bad?
    ensures GetLevel(s).Bad?
  {
  }

  lemma BodyCut(i: Item, c: nat)
    requires ItemOk(i) && c < |BodyOf(i)|
    ensures ParseBody(TagOf(i), BodyOf(i)[..c]).Bad?
  {
    hide GetVarint32, GetVarint64, EncodeVarint, GetLengthPrefixed, PutLengthPrefixed, GetLevel, EncodeMeta;
    if i.CompactPointer? || i.DeletedFile? || i.NewFile? {
      LevelledCut(i, c);
    } else if i.Comparator? {
      SliceCut(i.name, c);
    } else {
      VarintCut(i.n, c, 10);
    }
  }

  // An item cut anywhere inside is unreadable.
  lemma ItemCut(e: VersionEdit, i: Item, c: nat)
    requires ItemOk(i) && 0 < c < |EncodeItem(i)|
    ensures DecodeLoop(e, EncodeItem(i)[..c]) == None
  {
    hide GetVarint32, EncodeVarint, ParseBody, PutLengthPrefixed, EncodeMeta;
    var t, b := EncodeVarint(TagOf(i)), BodyOf(i);
    if c < |t| {
      assert EncodeItem(i)[..c] == t[..c];
      VarintCut(TagOf(i), c, 5);
    } else {
      assert EncodeItem(i)[..c] == t + b[..c - |t|];
      Varint32RoundTrip(TagOf(i), b[..c - |t|]);
      BodyCut(i, c - |t|);
    }
  }

  // An encoded edit cut anywhere decodes to its first items if the cut is between two items, and else not at all.
  lemma {:induction false} CutEdit(e: VersionEdit, items: seq<Item>, c: nat) returns (k: nat)
    requires (forall i :: 0 <= i < |items| ==> ItemOk(items[i])) && c <= |EncodeItems(items)|
    ensures k <= |items| && |EncodeItems(items[..k])| <= c && (k < |items| ==> c < |EncodeItems(items[..k + 1])|)
    ensures DecodeLoop(e, EncodeItems(items)[..c])
            == if c == |EncodeItems(items[..k])| then Some(AddItems(e, items[..k])) else None
    decreases |items|
  {
    hide GetVarint32, ParseBody, EncodeItem, AddItem, ItemOk;
    NoTag();
    if items == [] || c == 0 {
      k := 0;
      assert items[..0] == [] && EncodeItems(items)[..c] == [];
      if items != [] {
        assert items[..1][1..] == [];
      }
    } else {
      var first, rest := EncodeItem(items[0]), items[1..];
      assert ItemOk(items[0]);
      if c < |first| {
        k := 0;
        assert EncodeItems(items)[..c] == first[..c] && items[..0] == [];
        assert items[..1][1..] == [];
        ItemCut(e, items[0], c);
      } else {
        k := CutEdit(AddItem(e, items[0]), rest, c - |first|);
        assert EncodeItems(items)[..c] == first + EncodeItems(rest)[..c - |first|];
        ItemReadsBack(items[0], EncodeItems(rest)[..c - |first|]);
        assert items[..k + 1][1..] == rest[..k];
        if k < |rest| {
          assert items[..k + 2][1..] == rest[..k + 1];
        }
        k := k + 1;
      }
    }
  }

  const Fresh := VersionEdit(None, None, None, None, None, [], {}, [])

  ghost predicate Logged(edits: seq<VersionEdit>, orders: seq<seq<(nat, Word64)>>, records: seq<Bytes>) {
    && |edits| == |orders| == |records|
    && forall i :: 0 <= i < |edits| ==>
         EditOk(edits[i]) && Lists(orders[i], edits[i].deleted) && records[i] == EncodeItems(Items(edits[i], orders[i]))
  }

  // Reading a manifest, possibly cut short, and decoding every record into a fresh edit gives back exactly the edits
  // whose records are whole.
  lemma ManifestRoundTrip(edits: seq<VersionEdit>, orders: seq<seq<(nat, Word64)>>, records: seq<Bytes>,
                          disk: Bytes, k: nat)
    requires Logged(edits, orders, records) && disk <= WriteAll(records) && WholeRecords(records, |disk|, k)
    ensures var (read, reports) := ReadAll(disk, 0);
            && reports == 0 && |read| == k <= |edits|
            && forall i :: 0 <= i < k ==> DecodeLoop(Clear(Fresh), read[i]) == Some(edits[i])
  {
    hide ReadAll, WriteAll, DecodeLoop, EncodeItems, Items, EditOk, Lists;
    TruncatedRoundTrip(records, disk, k);
    forall i | 0 <= i < k ensures DecodeLoop(Clear(Fresh), records[..k][i]) == Some(edits[i]) {
      RoundTrip(edits[i], orders[i], Fresh);
    }
  }
}
