/** Decoding what the encoder wrote recovers the message (pb_encode.c against pb_decode.c). */
module PbRoundTrip {
  import opened InternalKeys
  import opened Coding
  import opened PbMessage
  import opened PbEncode
  import opened PbDecode

  // --- Varints ---

  lemma {:induction false} Varint32TailRoundTrip(w: nat, j: nat, result: Word32, rest: Bytes)
    requires 1 <= j && w > 0 && result < Pow128(j) && result + w * Pow128(j) < TWO32
    ensures Varint32Tail(EncodeVarint(w) + rest, j, result) == Good(result + w * Pow128(j), rest)
    decreases w
  {
    hide Varint32Tail;
    var p := Pow128(j);
    var s := EncodeVarint(w) + rest;
    var low, high := w % 128, w / 128;
    SmallGroup(j, w);
    SplitGroup(low, high, p);
    assert w == low + 128 * high;
    TailStep(s, j, result);
    if w < 128 {
      assert s[1..] == rest;
    } else {
      assert s[1..] == EncodeVarint(high) + rest;
      Varint32TailRoundTrip(high, j + 1, result + low * p, rest);
    }
  }

  lemma {:induction false} SplitGroup(low: nat, high: nat, p: nat)
    requires low < 128
    ensures (low + 128 * high) * p == low * p + high * (128 * p) && low * p <= 127 * p
  {
    assert (low + 128 * high) * p == low * p + (128 * high) * p;
    assert (128 * high) * p == high * (128 * p);
    assert 0 <= (127 - low) * p;
  }

  lemma {:induction false} TailStep(s: Bytes, j: nat, result: Word32)
    requires s != [] && j <= 4 && result + s[0] % 128 * Pow128(j) < TWO32 && (j == 4 ==> s[0] < 16 || s[0] >= 128)
    ensures var sum := result + s[0] % 128 * Pow128(j);
            Varint32Tail(s, j, result)
            == if s[0] >= 128 then Varint32Tail(s[1..], j + 1, sum) else Good(sum, s[1..])
  {
  }

  // A group that contributes to a 32-bit value starts below bit 32, and its value at bit 28 is below 16.
  lemma {:induction false} SmallGroup(j: nat, w: nat)
    requires w > 0 && w * Pow128(j) < TWO32
    ensures j <= 4 && (j == 4 ==> w < 16)
  {
    var p := Pow128(j);
    assert Pow128(4) == 0x1000_0000 && Pow128(5) > TWO32;
    assert (w - 1) * p >= 0;
    assert w * p == (w - 1) * p + p;
    if j > 4 {
      Pow128Grows(5, j);
    } else if j == 4 {
      assert w * p == w * 0x1000_0000;
    }
  }

  lemma {:induction false} Pow128Grows(i: nat, j: nat)
    requires i <= j
    ensures Pow128(i) <= Pow128(j)
    decreases j
  {
    if i < j {
      Pow128Grows(i, j - 1);
    }
  }

  lemma {:induction false} Varint32ReadsBack(v: Word32, rest: Bytes)
    ensures Varint32(EncodeVarint(v) + rest) == Good(v, rest)
  {
    var s := EncodeVarint(v) + rest;
    if v < 128 {
      assert s[1..] == rest;
    } else {
      assert s[1..] == EncodeVarint(v / 128) + rest;
      assert Pow128(1) == 128;
      Varint32TailRoundTrip(v / 128, 1, v % 128, rest);
    }
  }

  lemma {:induction false} SubstreamReadsBack(b: Bytes, rest: Bytes)
    requires |b| < TWO32
    ensures Substream(PutLengthPrefixed(b) + rest) == Good(b, rest)
    ensures Varint32(PutLengthPrefixed(b) + rest) == Good(|b|, b + rest)
  {
    Varint32ReadsBack(|b|, b + rest);
    assert PutLengthPrefixed(b) + rest == EncodeVarint(|b|) + (b + rest);
  }

  // --- Scalars ---

  // The strings that are set are terminated inside their arrays.
  ghost predicate ValueFits(k: Kind, v: Value)
    requires ValueTyped(k, v)
    decreases k
  {
    match k
    case Str(size) => |v.b| < size
    case Submessage(fields) => Typed(fields, v.slots) && SlotsFit(fields, v.slots)
    case _ => true
  }

  ghost predicate SlotFits(f: Field, s: Slot)
    requires SlotTyped(f, s)
    decreases f
  {
    match f.rule
    case Required => ValueFits(f.kind, s.v)
    case Singular => !Absent(f, s) ==> ValueFits(f.kind, s.v)
    case Optional => s.has ==> ValueFits(f.kind, s.v)
    case Repeated(_) => forall i :: 0 <= i < |s.items| ==> ValueFits(f.kind, s.items[i])
    case Oneof(_) => s.chosen.Some? ==> ValueFits(f.kind, s.chosen.value)
  }

  ghost predicate SlotsFit(fields: seq<Field>, slots: seq<Slot>)
    requires Typed(fields, slots)
    decreases fields
  {
    forall i :: 0 <= i < |fields| ==> SlotFits(fields[i], slots[i])
  }

  lemma {:induction false} CStringWhole(b: Bytes)
    requires 0 !in b
    ensures CString(b) == b
  {
    if b != [] {
      CStringWhole(b[1..]);
    }
  }

  lemma {:induction false} BlobRoundTrip(k: Kind, v: Value, rest: Bytes)
    requires ValueTyped(k, v) && KindOk(k) && ValueFits(k, v) && (k.ByteArray? || k.Str? || k.FixedBytes?)
    requires EncodeValue(k, v).Done?
    ensures DecodeScalar(k, EncodeValue(k, v).bytes + rest) == Good(v, rest)
  {
    hide Varint32, PutLengthPrefixed;
    var b := v.b;
    SubstreamReadsBack(b, rest);
    assert (b + rest)[..|b|] == b && (b + rest)[|b|..] == rest;
    assert Take(b + rest, |b|) == Good(b, rest);
    if k.Str? {
      CStringWhole(b);
    } else if k.FixedBytes? && |b| == 0 {
      assert b == seq(k.length, _ => 0);
    }
  }

  lemma {:induction false} ScalarRoundTrip(k: Kind, v: Value, rest: Bytes)
    requires ValueTyped(k, v) && KindOk(k) && ValueFits(k, v) && !k.Submessage? && EncodeValue(k, v).Done?
    ensures DecodeScalar(k, EncodeValue(k, v).bytes + rest) == Good(v, rest)
  {
    hide Varint32, GetVarint64, EncodeVarint, EncodeFixed, DecodeFixed;
    match k
    case Bool => Varint32ReadsBack(v.n, rest);
    case Int(size) =>
      Varint64RoundTrip(ToUnsigned(v.n), rest);
      IntRoundTrip(size, v.n, rest);
    case UInt(_) => Varint64RoundTrip(v.n, rest);
    case SInt(_) => Varint64RoundTrip(ZigZag(v.n), rest);
    case Fixed32 => FixedReadsBack(EncodeFixed32(v.n), rest); Fixed32RoundTrip(v.n);
    case Fixed64 => FixedReadsBack(EncodeFixed64(v.n), rest); Fixed64RoundTrip(v.n);
    case _ => BlobRoundTrip(k, v, rest);
  }

  lemma {:induction false} FixedReadsBack(b: Bytes, rest: Bytes)
    ensures Fixed(b + rest, |b|) == Good(Num(DecodeFixed(b)), rest)
  {
    assert (b + rest)[..|b|] == b && (b + rest)[|b|..] == rest;
  }

  lemma {:induction false} Wraps(x: nat, k: nat)
    requires x < TWO32
    ensures (x + k * TWO32) % TWO32 == x
  {
  }

  // Sign extension to 64 bits survives the truncation to 32 bits that the decoder makes for small fields.
  lemma {:induction false} IntRoundTrip(size: nat, n: int, rest: Bytes)
    requires ValidSize(size) && Signed(size, n)
    ensures DecodeInt(Int(size), ToUnsigned(n), rest) == Good(Num(n), rest)
  {
    if size < 8 && n < 0 {
      Wraps(n + TWO32, 0xFFFF_FFFF);
    }
  }

  // --- Absent fields read as defaults ---

  lemma {:induction false} ZeroReadsAsDefault(f: Field, v: Value)
    requires FieldOk(f) && ValueTyped(f.kind, v) && ZeroValue(f.kind, v) && f.rule.Singular?
    ensures SeenValue(f.kind, v) == DefaultValue(f)
    decreases f, 0
  {
    if f.kind.Submessage? {
      var fields, slots := f.kind.fields, v.slots;
      assert Typed(fields, slots) && SchemaOk(fields);
      forall i | 0 <= i < |fields| ensures SeenSlot(fields[i], slots[i]) == DefaultSlot(fields[i]) {
        AbsentReadsAsDefault(fields[i], slots[i]);
      }
      assert SeenSlots(fields, slots) == Defaults(fields);
    }
  }

  lemma {:induction false} AbsentReadsAsDefault(f: Field, s: Slot)
    requires FieldOk(f) && SlotTyped(f, s) && Absent(f, s)
    ensures SeenSlot(f, s) == DefaultSlot(f)
    decreases f, 1
  {
    if f.rule.Singular? {
      ZeroReadsAsDefault(f, s.v);
    }
  }

  // What is taken for absent is exactly what takes no bytes; in particular a proto3 submessage is left out if and only if
  // its own encoding would be empty.
  lemma {:induction false} AbsentIffEmpty(f: Field, s: Slot)
    requires SlotTyped(f, s)
    ensures Absent(f, s) <==> EncodeField(f, s) == Done([])
  {
    TagNotEmpty(f);
    if f.rule.Repeated? {
      ItemsNotEmpty(f, s.items);
    }
  }

  lemma {:induction false} AllAbsentIffEmpty(fields: seq<Field>, slots: seq<Slot>)
    requires Typed(fields, slots)
    ensures AllAbsent(fields, slots) <==> EncodeFields(fields, slots) == Done([])
  {
    EmptyFields(fields, slots);
  }

  lemma {:induction false} EmptyFields(fields: seq<Field>, slots: seq<Slot>)
    requires |slots| == |fields| && forall i :: 0 <= i < |fields| ==> SlotTyped(fields[i], slots[i])
    ensures AllAbsent(fields, slots) <==> EncodeFields(fields, slots) == Done([])
    decreases |fields|
  {
    hide SlotTyped, EncodeField, Absent;
    if fields != [] {
      AbsentIffEmpty(fields[0], slots[0]);
      EmptyFields(fields[1..], slots[1..]);
      assert fields == [fields[0]] + fields[1..] && slots == [slots[0]] + slots[1..];
      assert AllAbsent(fields, slots) <==> Absent(fields[0], slots[0]) && AllAbsent(fields[1..], slots[1..]);
    }
  }

  // A proto3 submessage field writes nothing exactly when the message in it would.
  lemma {:induction false} SubmessageOmittedIff(f: Field, s: Slot)
    requires SlotTyped(f, s) && f.rule.Singular? && f.kind.Submessage?
    ensures s.v.Message? && Typed(f.kind.fields, s.v.slots)
    ensures EncodeField(f, s) == Done([]) <==> EncodeFields(f.kind.fields, s.v.slots) == Done([])
  {
    AbsentIffEmpty(f, s);
    AllAbsentIffEmpty(f.kind.fields, s.v.slots);
  }

  // --- One tagged value ---

  // A tag leads to the field that has it.
  lemma {:induction false} TagStep(fields: seq<Field>, slots: seq<Slot>, seen: set<nat>, i: nat, wireType: nat, s: Bytes)
    requires SchemaOk(fields) && |slots| == |fields| && i < |fields| && wireType < 8
    ensures DecodeFields(fields, slots, seen, TagBytes(wireType, fields[i].tag) + s)
            == match DecodeField(fields, slots, i, wireType, s)
               case Bad => None
               case Good(slots', after) => DecodeFields(fields, slots', seen + {i}, after)
  {
    hide DecodeField, Varint32, EncodeVarint;
    var f := fields[i];
    assert FieldOk(f);
    var t := f.tag * 8 + wireType;
    Varint32ReadsBack(t, s);
    assert t / 8 == f.tag && t % 8 == wireType;
    assert FindTag(fields, f.tag) == i;
    assert EncodeVarint(t) + s != [];
  }

  lemma {:induction false} ValueRoundTrip(k: Kind, v: Value, storage: Value, rest: Bytes)
    requires KindOk(k) && ValueTyped(k, v) && ValueFits(k, v)
    requires EncodeValue(k, v).Done? && |EncodeValue(k, v).bytes| < TWO32
    requires k.Submessage? ==> storage == Message(Defaults(k.fields))
    ensures DecodeValue(k, storage, EncodeValue(k, v).bytes + rest) == Good(SeenValue(k, v), rest)
    decreases k, 0
  {
    hide DecodeScalar, Substream, PutLengthPrefixed, DecodeFields;
    if k.Submessage? {
      assert Typed(k.fields, v.slots) && SchemaOk(k.fields);
      var c := EncodeFields(k.fields, v.slots).bytes;
      Shorter(c);
      SubstreamReadsBack(c, rest);
      MessageRoundTrip(k.fields, v.slots);
    } else {
      ScalarRoundTrip(k, v, rest);
    }
  }

  lemma {:induction false} Shorter(c: Bytes)
    ensures |c| < |PutLengthPrefixed(c)|
  {
  }

  // A tagged value is stored in its field.
  lemma {:induction false} TaggedStep(fields: seq<Field>, st: seq<Slot>, seen: set<nat>, i: nat, v: Value, rest: Bytes)
    requires SchemaOk(fields) && |st| == |fields| && i < |fields|
    requires var f := fields[i];
             && ValueTyped(f.kind, v) && ValueFits(f.kind, v)
             && TagValue(f, v).Done? && |TagValue(f, v).bytes| < TWO32
             && (f.rule.Repeated? ==> !Packable(f.kind) && |Items(st[i])| < f.rule.max)
             && (f.kind.Submessage? ==> Storage(f, st[i]) == Message(Defaults(f.kind.fields)))
    ensures DecodeFields(fields, st, seen, TagValue(fields[i], v).bytes + rest)
            == DecodeFields(fields, Stored(fields, st, i, SeenValue(fields[i].kind, v)), seen + {i}, rest)
    decreases fields[i], 0
  {
    hide DecodeFields, DecodeValue, TagBytes, Stored;
    var f := fields[i];
    assert FieldOk(f);
    var b := EncodeValue(f.kind, v).bytes;
    ValueRoundTrip(f.kind, v, Storage(f, st[i]), rest);
    TagStep(fields, st, seen, i, WireType(f.kind), b + rest);
    assert TagFor(f) + b + rest == TagFor(f) + (b + rest);
  }

  // --- Arrays ---

  lemma {:induction false} ScalarNotEmpty(k: Kind, v: Value)
    requires Packable(k) && ValueTyped(k, v) && EncodeValue(k, v).Done?
    ensures EncodeValue(k, v).bytes != []
  {
  }

  lemma {:induction false} PackedRoundTrip(k: Kind, max: nat, done: seq<Value>, items: seq<Value>)
    requires Packable(k) && |done| + |items| <= max && forall i :: 0 <= i < |items| ==> ValueTyped(k, items[i])
    requires PackItems(k, items).Done?
    ensures Unpack(k, max, done, PackItems(k, items).bytes) == Some(done + items)
    decreases |items|
  {
    hide DecodeScalar, EncodeValue;
    if items == [] {
      assert done + items == done;
    } else {
      var v, rest := items[0], PackItems(k, items[1..]).bytes;
      ScalarNotEmpty(k, v);
      ScalarRoundTrip(k, v, rest);
      PackedRoundTrip(k, max, done + [v], items[1..]);
      assert done + [v] + items[1..] == done + items;
    }
  }

  lemma {:induction false} PackedStep(fields: seq<Field>, st: seq<Slot>, seen: set<nat>, i: nat, items: seq<Value>, rest: Bytes)
    requires SchemaOk(fields) && |st| == |fields| && i < |fields| && st[i] == Many([])
    requires var f := fields[i];
             && f.rule.Repeated? && Packable(f.kind) && |items| <= f.rule.max
             && (forall j :: 0 <= j < |items| ==> ValueTyped(f.kind, items[j]))
             && PackItems(f.kind, items).Done? && |PackItems(f.kind, items).bytes| < TWO32
    ensures var f := fields[i];
            DecodeFields(fields, st, seen,
                         TagBytes(WT_STRING, f.tag) + PutLengthPrefixed(PackItems(f.kind, items).bytes) + rest)
            == DecodeFields(fields, st[i := Many(items)], seen + {i}, rest)
  {
    hide DecodeFields, Substream, PutLengthPrefixed, TagBytes, Unpack;
    var f := fields[i];
    var p := PackItems(f.kind, items).bytes;
    PackedRoundTrip(f.kind, f.rule.max, [], items);
    assert [] + items == items;
    SubstreamReadsBack(p, rest);
    TagStep(fields, st, seen, i, WT_STRING, PutLengthPrefixed(p) + rest);
    var t := TagBytes(WT_STRING, f.tag);
    assert t + PutLengthPrefixed(p) + rest == t + (PutLengthPrefixed(p) + rest);
  }

  lemma {:induction false} ItemsStep(fields: seq<Field>, st: seq<Slot>, seen: set<nat>, i: nat, items: seq<Value>,
                                     rest: Bytes)
    requires SchemaOk(fields) && |st| == |fields| && i < |fields| && st[i].Many?
    requires var f := fields[i];
             && f.rule.Repeated? && !Packable(f.kind) && |st[i].items| + |items| <= f.rule.max && items != []
             && (forall j :: 0 <= j < |items| ==> ValueTyped(f.kind, items[j]) && ValueFits(f.kind, items[j]))
             && TagItems(f, items).Done? && |TagItems(f, items).bytes| < TWO32
    ensures var f := fields[i];
            DecodeFields(fields, st, seen, TagItems(f, items).bytes + rest)
            == DecodeFields(fields, st[i := Many(st[i].items + SeenItems(f.kind, items))], seen + {i}, rest)
    decreases fields[i], 1, |items|
  {
    hide DecodeFields, TagValue, ValueFits;
    var f := fields[i];
    var v, more := items[0], items[1..];
    var b := TagValue(f, v).bytes;
    var b' := TagItems(f, more).bytes;
    assert b + b' + rest == b + (b' + rest);
    TaggedStep(fields, st, seen, i, v, b' + rest);
    var st' := st[i := Many(st[i].items + [SeenValue(f.kind, v)])];
    assert Stored(fields, st, i, SeenValue(f.kind, v)) == st';
    assert st[i].items + SeenItems(f.kind, items) == st'[i].items + SeenItems(f.kind, more);
    if more == [] {
      assert b' + rest == rest && st'[i].items + [] == st'[i].items;
    } else {
      ItemsStep(fields, st', seen + {i}, i, more, rest);
      assert st'[i := Many(st'[i].items + SeenItems(f.kind, more))]
          == st[i := Many(st[i].items + SeenItems(f.kind, items))];
      assert seen + {i} + {i} == seen + {i};
    }
  }

  // --- Fields ---

  // The struct when the first i fields have been read.
  ghost function Partial(fields: seq<Field>, slots: seq<Slot>, i: nat): (st: seq<Slot>)
    requires Typed(fields, slots) && i <= |fields|
    ensures |st| == |fields|
  {
    SeenSlots(fields, slots)[..i] + Defaults(fields)[i..]
  }

  lemma {:induction false} NextPartial(fields: seq<Field>, slots: seq<Slot>, i: nat)
    requires Typed(fields, slots) && i < |fields|
    ensures Partial(fields, slots, i)[i] == DefaultSlot(fields[i])
    ensures Partial(fields, slots, i)[i := SeenSlot(fields[i], slots[i])] == Partial(fields, slots, i + 1)
  {
  }

  // Choosing the member that is set finds the rest of its oneof unset.
  lemma {:induction false} ChooseSets(fields: seq<Field>, slots: seq<Slot>, i: nat)
    requires Typed(fields, slots) && i < |fields| && fields[i].rule.Oneof? && slots[i].Member? && slots[i].chosen.Some?
    requires ValueTyped(fields[i].kind, slots[i].chosen.value)
    ensures Choose(fields, Partial(fields, slots, i), i, SeenValue(fields[i].kind, slots[i].chosen.value))
            == Partial(fields, slots, i + 1)
  {
    var st := Partial(fields, slots, i);
    NextPartial(fields, slots, i);
    forall j | 0 <= j < |fields| && j != i && fields[j].rule.Oneof? && fields[j].rule == fields[i].rule
      ensures st[j] == Member(None)
    {
      assert slots[j] == Member(None);
      assert SlotTyped(fields[j], slots[j]);
      assert st[j] == if j < i then SeenSlot(fields[j], slots[j]) else DefaultSlot(fields[j]);
    }
  }

  // Reading the bytes of field i completes it.
  lemma {:induction false} FieldStep(fields: seq<Field>, slots: seq<Slot>, seen: set<nat>, i: nat, rest: Bytes)
    requires SchemaOk(fields) && Typed(fields, slots) && i < |fields|
    requires SlotTyped(fields[i], slots[i]) && SlotFits(fields[i], slots[i])
    requires EncodeField(fields[i], slots[i]).Done? && |EncodeField(fields[i], slots[i]).bytes| < TWO32
    ensures var b := EncodeField(fields[i], slots[i]).bytes;
            DecodeFields(fields, Partial(fields, slots, i), seen, b + rest)
            == DecodeFields(fields, Partial(fields, slots, i + 1), if b == [] then seen else seen + {i}, rest)
    ensures fields[i].rule.Required? ==> EncodeField(fields[i], slots[i]).bytes != []
    decreases fields[i], 2
  {
    hide DecodeFields, Partial, ValueFits;
    var f, s := fields[i], slots[i];
    assert FieldOk(f);
    var st := Partial(fields, slots, i);
    NextPartial(fields, slots, i);
    var b := EncodeField(f, s).bytes;
    if b == [] {
      assert b + rest == rest;
      EmptyReadsAsDefault(f, s);
      assert st[i := DefaultSlot(f)] == st;
    } else {
      match f.rule
      case Repeated(_) =>
        if Packable(f.kind) {
          var p := PackItems(f.kind, s.items).bytes;
          Shorter(p);
          PackedStep(fields, st, seen, i, s.items, rest);
          assert SeenItems(f.kind, s.items) == s.items;
        } else {
          ItemsStep(fields, st, seen, i, s.items, rest);
          assert [] + SeenItems(f.kind, s.items) == SeenItems(f.kind, s.items);
        }
      case Oneof(_) =>
        TaggedStep(fields, st, seen, i, s.chosen.value, rest);
        ChooseSets(fields, slots, i);
      case _ =>
        TaggedStep(fields, st, seen, i, s.v, rest);
    }
  }

  // A field that writes nothing is unset.
  lemma {:induction false} EmptyReadsAsDefault(f: Field, s: Slot)
    requires FieldOk(f) && SlotTyped(f, s) && EncodeField(f, s) == Done([])
    ensures SeenSlot(f, s) == DefaultSlot(f) && !f.rule.Required?
  {
    TagNotEmpty(f);
    if f.rule.Singular? {
      AbsentReadsAsDefault(f, s);
    } else if f.rule.Repeated? {
      ItemsNotEmpty(f, s.items);
      assert s.items == [] ==> SeenItems(f.kind, s.items) == [];
    }
  }

  lemma {:induction false} ItemsNotEmpty(f: Field, items: seq<Value>)
    requires forall i :: 0 <= i < |items| ==> ValueTyped(f.kind, items[i])
    ensures items != [] ==> TagItems(f, items) != Done([])
  {
    TagNotEmpty(f);
  }

  lemma {:induction false} TagNotEmpty(f: Field)
    ensures TagFor(f) != []
  {
  }

  lemma {:induction false} FieldsRoundTrip(fields: seq<Field>, slots: seq<Slot>, seen: set<nat>, i: nat)
    requires SchemaOk(fields) && Typed(fields, slots) && SlotsFit(fields, slots) && i <= |fields|
    requires EncodeFields(fields[i..], slots[i..]).Done? && |EncodeFields(fields[i..], slots[i..]).bytes| < TWO32
    requires forall j :: 0 <= j < i && fields[j].rule.Required? ==> j in seen
    ensures DecodeFields(fields, Partial(fields, slots, i), seen, EncodeFields(fields[i..], slots[i..]).bytes)
            == Some(SeenSlots(fields, slots))
    decreases fields, 3, |fields| - i
  {
    if i < |fields| {
      var b := EncodeField(fields[i], slots[i]).bytes;
      assert fields[i..][1..] == fields[i + 1..] && slots[i..][1..] == slots[i + 1..];
      FieldStep(fields, slots, seen, i, EncodeFields(fields[i + 1..], slots[i + 1..]).bytes);
      FieldsRoundTrip(fields, slots, if b == [] then seen else seen + {i}, i + 1);
    } else {
      assert Partial(fields, slots, i) == SeenSlots(fields, slots);
    }
  }

  // Decoding an encoded message recovers it, with unset optional fields reading as defaults.
  lemma {:induction false} MessageRoundTrip(fields: seq<Field>, slots: seq<Slot>)
    requires SchemaOk(fields) && Typed(fields, slots) && SlotsFit(fields, slots)
    requires EncodeFields(fields, slots).Done? && |EncodeFields(fields, slots).bytes| < TWO32
    ensures Decode(fields, EncodeFields(fields, slots).bytes) == Some(SeenSlots(fields, slots))
    decreases fields, 4
  {
    assert fields[0..] == fields && slots[0..] == slots;
    assert Partial(fields, slots, 0) == Defaults(fields);
    FieldsRoundTrip(fields, slots, {}, 0);
  }

  // --- An unterminated string encodes but does not decode ---

  lemma {:induction false} ValueFails(k: Kind, v: Value, storage: Value, rest: Bytes)
    requires KindOk(k) && ValueTyped(k, v) && !ValueFits(k, v)
    requires EncodeValue(k, v).Done? && |EncodeValue(k, v).bytes| < TWO32
    requires k.Submessage? ==> storage == Message(Defaults(k.fields))
    ensures DecodeValue(k, storage, EncodeValue(k, v).bytes + rest).Bad?
    decreases k, 0
  {
    hide Substream, PutLengthPrefixed, DecodeFields, Varint32;
    if k.Submessage? {
      assert Typed(k.fields, v.slots) && SchemaOk(k.fields);
      var c := EncodeFields(k.fields, v.slots).bytes;
      Shorter(c);
      SubstreamReadsBack(c, rest);
      MessageFails(k.fields, v.slots);
    } else {
      SubstreamReadsBack(v.b, rest);
    }
  }

  lemma {:induction false} TaggedFails(fields: seq<Field>, st: seq<Slot>, seen: set<nat>, i: nat, v: Value, rest: Bytes)
    requires SchemaOk(fields) && |st| == |fields| && i < |fields|
    requires var f := fields[i];
             && ValueTyped(f.kind, v) && !ValueFits(f.kind, v)
             && TagValue(f, v).Done? && |TagValue(f, v).bytes| < TWO32
             && (f.kind.Submessage? ==> Storage(f, st[i]) == Message(Defaults(f.kind.fields)))
    ensures DecodeFields(fields, st, seen, TagValue(fields[i], v).bytes + rest) == None
    decreases fields[i], 0
  {
    hide DecodeFields, DecodeValue, TagBytes, Stored;
    var f := fields[i];
    assert FieldOk(f);
    var b := EncodeValue(f.kind, v).bytes;
    ValueFails(f.kind, v, Storage(f, st[i]), rest);
    TagStep(fields, st, seen, i, WireType(f.kind), b + rest);
    assert TagFor(f) + b + rest == TagFor(f) + (b + rest);
  }

  lemma {:induction false} ItemsFail(fields: seq<Field>, st: seq<Slot>, seen: set<nat>, i: nat, items: seq<Value>,
                                     rest: Bytes)
    requires SchemaOk(fields) && |st| == |fields| && i < |fields| && st[i].Many?
    requires var f := fields[i];
             && f.rule.Repeated? && !Packable(f.kind) && |st[i].items| + |items| <= f.rule.max
             && (forall j :: 0 <= j < |items| ==> ValueTyped(f.kind, items[j]))
             && (exists j :: 0 <= j < |items| && !ValueFits(f.kind, items[j]))
             && TagItems(f, items).Done? && |TagItems(f, items).bytes| < TWO32
    ensures DecodeFields(fields, st, seen, TagItems(fields[i], items).bytes + rest) == None
    decreases fields[i], 1, |items|
  {
    hide DecodeFields, TagValue, ValueFits;
    var f := fields[i];
    var v, more := items[0], items[1..];
    var b := TagValue(f, v).bytes;
    var b' := TagItems(f, more).bytes;
    assert b + b' + rest == b + (b' + rest);
    if ValueFits(f.kind, v) {
      var j :| 0 <= j < |items| && !ValueFits(f.kind, items[j]);
      assert more[j - 1] == items[j];
      TaggedStep(fields, st, seen, i, v, b' + rest);
      var st' := st[i := Many(st[i].items + [SeenValue(f.kind, v)])];
      assert Stored(fields, st, i, SeenValue(f.kind, v)) == st';
      ItemsFail(fields, st', seen + {i}, i, more, rest);
    } else {
      TaggedFails(fields, st, seen, i, v, b' + rest);
    }
  }

  lemma {:induction false} FieldFails(fields: seq<Field>, slots: seq<Slot>, seen: set<nat>, i: nat, rest: Bytes)
    requires SchemaOk(fields) && Typed(fields, slots) && i < |fields|
    requires SlotTyped(fields[i], slots[i]) && !SlotFits(fields[i], slots[i])
    requires EncodeField(fields[i], slots[i]).Done? && |EncodeField(fields[i], slots[i]).bytes| < TWO32
    ensures DecodeFields(fields, Partial(fields, slots, i), seen, EncodeField(fields[i], slots[i]).bytes + rest) == None
    decreases fields[i], 2
  {
    hide DecodeFields, Partial, ValueFits;
    var f, s := fields[i], slots[i];
    assert FieldOk(f);
    var st := Partial(fields, slots, i);
    NextPartial(fields, slots, i);
    match f.rule
    case Repeated(_) =>
      PackableFits(f.kind);
      ItemsFail(fields, st, seen, i, s.items, rest);
    case Oneof(_) => TaggedFails(fields, st, seen, i, s.chosen.value, rest);
    case _ => TaggedFails(fields, st, seen, i, s.v, rest);
  }

  lemma {:induction false} PackableFits(k: Kind)
    ensures forall v :: ValueTyped(k, v) && Packable(k) ==> ValueFits(k, v)
  {
  }

  lemma {:induction false} FieldsFail(fields: seq<Field>, slots: seq<Slot>, seen: set<nat>, i: nat, bad: nat)
    requires SchemaOk(fields) && Typed(fields, slots) && i <= bad < |fields|
    requires SlotTyped(fields[bad], slots[bad]) && !SlotFits(fields[bad], slots[bad])
    requires EncodeFields(fields[i..], slots[i..]).Done? && |EncodeFields(fields[i..], slots[i..]).bytes| < TWO32
    ensures DecodeFields(fields, Partial(fields, slots, i), seen, EncodeFields(fields[i..], slots[i..]).bytes) == None
    decreases fields, 3, |fields| - i
  {
    hide DecodeFields, Partial, SlotFits;
    var b := EncodeField(fields[i], slots[i]).bytes;
    assert fields[i..][1..] == fields[i + 1..] && slots[i..][1..] == slots[i + 1..];
    var rest := EncodeFields(fields[i + 1..], slots[i + 1..]).bytes;
    if SlotFits(fields[i], slots[i]) {
      FieldStep(fields, slots, seen, i, rest);
      FieldsFail(fields, slots, if b == [] then seen else seen + {i}, i + 1, bad);
    } else {
      FieldFails(fields, slots, seen, i, rest);
    }
  }

  lemma {:induction false} MessageFails(fields: seq<Field>, slots: seq<Slot>)
    requires SchemaOk(fields) && Typed(fields, slots) && !SlotsFit(fields, slots)
    requires EncodeFields(fields, slots).Done? && |EncodeFields(fields, slots).bytes| < TWO32
    ensures Decode(fields, EncodeFields(fields, slots).bytes) == None
    decreases fields, 4
  {
    assert fields[0..] == fields && slots[0..] == slots;
    assert Partial(fields, slots, 0) == Defaults(fields);
    var bad :| 0 <= bad < |fields| && !SlotFits(fields[bad], slots[bad]);
    FieldsFail(fields, slots, {}, 0, bad);
  }

  // The round trip holds exactly when every string that is set ends before the end of its array.
  lemma {:induction false} RoundTripIff(fields: seq<Field>, slots: seq<Slot>)
    requires SchemaOk(fields) && Typed(fields, slots)
    requires EncodeFields(fields, slots).Done? && |EncodeFields(fields, slots).bytes| < TWO32
    ensures Decode(fields, EncodeFields(fields, slots).bytes) == Some(SeenSlots(fields, slots))
            <==> SlotsFit(fields, slots)
  {
    if SlotsFit(fields, slots) {
      MessageRoundTrip(fields, slots);
    } else {
      MessageFails(fields, slots);
    }
  }
}
