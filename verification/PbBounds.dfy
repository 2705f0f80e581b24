/** Whatever bytes arrive, a struct the nanopb decoder accepts fits its static storage (pb_decode.c 406-483, 934-1096,
    1284-1560): no array, byte array or string is overrun at any depth, and every number is in the range of its field. */
module PbBounds {
  import opened InternalKeys
  import opened Coding
  import opened PbMessage
  import opened PbEncode
  import opened PbDecode
  import opened PbRoundTrip

  ghost predicate HeldValue(k: Kind, v: Value)
    decreases k
  {
    match k
    case ByteArray(capacity) => v.Blob? && |v.b| <= capacity
    case Str(dataSize) => v.Blob? && |v.b| < dataSize && 0 !in v.b
    case FixedBytes(length) => v.Blob? && |v.b| == length
    case Submessage(fields) => v.Message? && Held(fields, v.slots)
    case Bool => v == Num(0) || v == Num(1)
    case Int(size) => v.Num? && Signed(size, v.n)
    case UInt(size) => v.Num? && Unsigned(size, v.n)
    case SInt(size) => v.Num? && Signed(size, v.n)
    case Fixed32 => v.Num? && 0 <= v.n < TWO32
    case Fixed64 => v.Num? && 0 <= v.n < TWO64
  }

  ghost predicate HeldSlot(f: Field, s: Slot)
    decreases f
  {
    match f.rule
    case Required => s.One? && HeldValue(f.kind, s.v)
    case Singular => s.One? && HeldValue(f.kind, s.v)
    case Optional => s.Maybe? && HeldValue(f.kind, s.v)
    case Repeated(max) => s.Many? && |s.items| <= max && forall i :: 0 <= i < |s.items| ==> HeldValue(f.kind, s.items[i])
    case Oneof(_) => s.Member? && (s.chosen.Some? ==> HeldValue(f.kind, s.chosen.value))
  }

  ghost predicate Held(fields: seq<Field>, slots: seq<Slot>)
    decreases fields
  {
    && |slots| == |fields|
    && OneChosen(fields, slots)
    && forall i :: 0 <= i < |fields| ==> HeldSlot(fields[i], slots[i])
  }

  // The initial values of the descriptors are values of the C types, at every depth.
  ghost predicate DefaultsHeld(fields: seq<Field>)
    decreases fields
  {
    forall i :: 0 <= i < |fields| ==> DefaultHeld(fields[i])
  }

  ghost predicate DefaultHeld(f: Field)
    decreases f
  {
    if f.kind.Submessage? then DefaultsHeld(f.kind.fields) else HeldValue(f.kind, f.default)
  }

  lemma {:induction false} DefaultValueHeld(f: Field)
    requires DefaultHeld(f)
    ensures HeldValue(f.kind, DefaultValue(f))
    decreases f, 0
  {
    if f.kind.Submessage? {
      DefaultsAreHeld(f.kind.fields);
    }
  }

  lemma {:induction false} DefaultsAreHeld(fields: seq<Field>)
    requires DefaultsHeld(fields)
    ensures Held(fields, Defaults(fields))
    decreases fields, 1
  {
    hide HeldValue, DefaultHeld, DefaultValue;
    forall i | 0 <= i < |fields| ensures HeldSlot(fields[i], Defaults(fields)[i]) {
      assert DefaultHeld(fields[i]);
      DefaultValueHeld(fields[i]);
    }
  }

  // --- One value ---

  lemma {:induction false} NoZeroInside(b: Bytes)
    ensures |CString(b)| <= |b| && 0 !in CString(b)
  {
    if b != [] && b[0] != 0 {
      NoZeroInside(b[1..]);
    }
  }

  lemma {:induction false} FixedHeld(k: Kind, s: Bytes)
    requires k.Fixed32? || k.Fixed64?
    ensures DecodeScalar(k, s).Good? ==> HeldValue(k, DecodeScalar(k, s).value)
  {
    hide DecodeFixed;
    var n := if k.Fixed32? then 4 else 8;
    if |s| >= n {
      DecodeFixedBound(s[..n]);
      assert Pow256(4) == TWO32;
      assert Pow256(8) == 256 * (256 * (256 * (256 * Pow256(4))));
    }
  }

  lemma {:induction false} ScalarHeld(k: Kind, s: Bytes)
    requires !k.Submessage?
    ensures DecodeScalar(k, s).Good? ==> HeldValue(k, DecodeScalar(k, s).value)
  {
    hide Varint32, VarintBytes, DecodeFixed;
    if k.Fixed32? || k.Fixed64? {
      FixedHeld(k, s);
    } else if k.Str? {
      forall b: Bytes ensures |CString(b)| <= |b| && 0 !in CString(b) {
        NoZeroInside(b);
      }
    }
  }

  // A packed array ends inside its storage.
  lemma {:induction false} UnpackHeld(k: Kind, max: nat, items: seq<Value>, s: Bytes)
    requires !k.Submessage? && |items| <= max && forall i :: 0 <= i < |items| ==> HeldValue(k, items[i])
    ensures var r := Unpack(k, max, items, s);
            r.Some? ==> |r.value| <= max && forall i :: 0 <= i < |r.value| ==> HeldValue(k, r.value[i])
    decreases |s|
  {
    hide DecodeScalar, HeldValue;
    if s != [] && |items| < max {
      ScalarHeld(k, s);
      var r := DecodeScalar(k, s);
      if r.Good? {
        UnpackHeld(k, max, items + [r.value], r.rest);
      }
    }
  }

  // --- Whole messages ---

  lemma {:induction false} StorageHeld(f: Field, s: Slot)
    requires HeldSlot(f, s) && DefaultHeld(f)
    ensures HeldValue(f.kind, Storage(f, s))
  {
    hide HeldValue, DefaultHeld, DefaultValue;
    DefaultValueHeld(f);
  }

  lemma {:induction false} StoredHeld(fields: seq<Field>, slots: seq<Slot>, i: nat, v: Value)
    requires Held(fields, slots) && i < |fields| && HeldValue(fields[i].kind, v)
    requires fields[i].rule.Repeated? ==> |Items(slots[i])| < fields[i].rule.max
    ensures Held(fields, Stored(fields, slots, i, v))
  {
    hide HeldValue;
    var r := Stored(fields, slots, i, v);
    assert HeldSlot(fields[i], slots[i]);
    forall j | 0 <= j < |fields| ensures HeldSlot(fields[j], r[j]) {
      assert HeldSlot(fields[j], slots[j]);
    }
  }

  lemma {:induction false} ManyHeld(fields: seq<Field>, slots: seq<Slot>, i: nat, items: seq<Value>)
    requires Held(fields, slots) && i < |fields| && fields[i].rule.Repeated? && |items| <= fields[i].rule.max
    requires forall j :: 0 <= j < |items| ==> HeldValue(fields[i].kind, items[j])
    ensures Held(fields, slots[i := Many(items)])
  {
    hide HeldValue;
  }

  lemma {:induction false} ValueHeld(k: Kind, storage: Value, s: Bytes)
    requires k.Submessage? ==> DefaultsHeld(k.fields) && HeldValue(k, storage)
    ensures DecodeValue(k, storage, s).Good? ==> HeldValue(k, DecodeValue(k, storage, s).value)
    decreases |s|, 0
  {
    hide DecodeScalar, Substream, DecodeFields, HeldSlot, OneChosen;
    if k.Submessage? {
      var sub := Substream(s);
      if sub.Good? {
        FieldsHeld(k.fields, StructOf(k.fields, storage), {}, sub.value);
      }
    } else {
      ScalarHeld(k, s);
    }
  }

  lemma {:induction false} FieldHeld(fields: seq<Field>, slots: seq<Slot>, i: nat, wireType: nat, s: Bytes)
    requires Held(fields, slots) && DefaultsHeld(fields) && i < |fields|
    ensures DecodeField(fields, slots, i, wireType, s).Good?
            ==> Held(fields, DecodeField(fields, slots, i, wireType, s).value)
    decreases |s|, 1
  {
    hide DecodeValue, Substream, Unpack, Stored, HeldValue, OneChosen, Storage;
    var f := fields[i];
    assert HeldSlot(f, slots[i]) && DefaultHeld(f);
    if f.rule.Repeated? && wireType == WT_STRING && Packable(f.kind) {
      var sub := Substream(s);
      if sub.Good? {
        UnpackHeld(f.kind, f.rule.max, Items(slots[i]), sub.value);
        var items := Unpack(f.kind, f.rule.max, Items(slots[i]), sub.value);
        if items.Some? {
          ManyHeld(fields, slots, i, items.value);
        }
      }
    } else if !(f.rule.Repeated? && |Items(slots[i])| >= f.rule.max) {
      StorageHeld(f, slots[i]);
      ValueHeld(f.kind, Storage(f, slots[i]), s);
      var v := DecodeValue(f.kind, Storage(f, slots[i]), s);
      if v.Good? {
        StoredHeld(fields, slots, i, v.value);
      }
    }
  }

  lemma {:induction false} FieldsHeld(fields: seq<Field>, slots: seq<Slot>, seen: set<nat>, s: Bytes)
    requires Held(fields, slots) && DefaultsHeld(fields)
    ensures DecodeFields(fields, slots, seen, s).Some? ==> Held(fields, DecodeFields(fields, slots, seen, s).value)
    decreases |s|, 2
  {
    hide Varint32, DecodeField, SkipField, Held, RequiredSeen;
    Sized(fields, slots);
    if s != [] {
      var t := Varint32(s);
      if t.Good? && t.value != 0 {
        var i := FindTag(fields, t.value / 8);
        if i == |fields| {
          var after := SkipField(t.value % 8, t.rest);
          if after.Good? {
            FieldsHeld(fields, slots, seen, after.rest);
          }
        } else {
          FieldHeld(fields, slots, i, t.value % 8, t.rest);
          var r := DecodeField(fields, slots, i, t.value % 8, t.rest);
          if r.Good? {
            FieldsHeld(fields, r.value, seen + {i}, r.rest);
          }
        }
      }
    }
  }

  lemma {:induction false} Sized(fields: seq<Field>, slots: seq<Slot>)
    requires Held(fields, slots)
    ensures |slots| == |fields|
  {
  }

  // For every input: what is decoded fits.
  lemma {:induction false} DecodedFits(fields: seq<Field>, s: Bytes)
    requires DefaultsHeld(fields)
    ensures Decode(fields, s).Some? ==> Held(fields, Decode(fields, s).value)
  {
    DefaultsAreHeld(fields);
    FieldsHeld(fields, Defaults(fields), {}, s);
  }

  // --- What is decoded can be sent on ---

  lemma {:induction false} HeldIsTyped(fields: seq<Field>, slots: seq<Slot>)
    requires SchemaOk(fields) && Held(fields, slots)
    ensures Typed(fields, slots) && SlotsFit(fields, slots)
    decreases fields
  {
    forall i | 0 <= i < |fields| ensures SlotTyped(fields[i], slots[i]) && SlotFits(fields[i], slots[i]) {
      assert FieldOk(fields[i]) && HeldSlot(fields[i], slots[i]);
      HeldSlotIsTyped(fields[i], slots[i]);
    }
  }

  lemma {:induction false} HeldSlotIsTyped(f: Field, s: Slot)
    requires FieldOk(f) && HeldSlot(f, s)
    ensures SlotTyped(f, s) && SlotFits(f, s)
    decreases f
  {
    hide HeldValue, ValueTyped, ValueFits, KindOk;
    forall v | HeldValue(f.kind, v) ensures ValueTyped(f.kind, v) && ValueFits(f.kind, v) {
      HeldValueIsTyped(f.kind, v);
    }
  }

  lemma {:induction false} HeldValueIsTyped(k: Kind, v: Value)
    requires KindOk(k) && HeldValue(k, v)
    ensures ValueTyped(k, v) && ValueFits(k, v)
    decreases k
  {
    if k.Submessage? {
      HeldIsTyped(k.fields, v.slots);
    }
  }

  // Any accepted input, encoded again, decodes to what a reader saw in it.
  lemma {:induction false} DecodedSendsOn(fields: seq<Field>, s: Bytes)
    requires SchemaOk(fields) && DefaultsHeld(fields) && Decode(fields, s).Some?
    ensures Typed(fields, Decode(fields, s).value)
    ensures var m := Decode(fields, s).value;
            EncodeFields(fields, m).Done? && |EncodeFields(fields, m).bytes| < TWO32
            ==> Decode(fields, EncodeFields(fields, m).bytes) == Some(SeenSlots(fields, m))
  {
    hide Decode, Held, SchemaOk, EncodeFields, SlotsFit;
    DecodedFits(fields, s);
    var m := Decode(fields, s).value;
    HeldIsTyped(fields, m);
    if EncodeFields(fields, m).Done? && |EncodeFields(fields, m).bytes| < TWO32 {
      MessageRoundTrip(fields, m);
    }
  }
}
