/** nanopb schemas and message structs (pb.h): statically allocated fields, no callbacks, extensions or pointers.

    A struct is a sequence of slots, one for each field descriptor.  The C types fix the shape and the numeric ranges;
    a count or a byte-array size may exceed its array, which the encoder reports. */
module PbMessage {
  import opened InternalKeys
  import opened Coding

  const WT_VARINT := 0
  const WT_64BIT := 1
  const WT_STRING := 2
  const WT_32BIT := 5

  // PB_LTYPE with data_size.
  datatype Kind =
    | Bool
    | Int(size: nat)
    | UInt(size: nat)
    | SInt(size: nat)
    | Fixed32
    | Fixed64
    | ByteArray(capacity: nat)
    | Str(dataSize: nat)
    | FixedBytes(length: nat)
    | Submessage(fields: seq<Field>)

  // PB_HTYPE; Singular is an optional field without a has_ flag (proto3), Repeated(max) has a count.
  datatype Rule = Required | Optional | Singular | Repeated(max: nat) | Oneof(group: nat)

  datatype Field = Field(tag: nat, rule: Rule, kind: Kind, default: Value)

  datatype Value = Num(n: int) | Blob(b: Bytes) | Message(slots: seq<Slot>)

  datatype Slot = One(v: Value) | Maybe(has: bool, v: Value) | Many(items: seq<Value>) | Member(chosen: Option<Value>)

  // PB_LTYPE <= PB_LTYPE_LAST_PACKABLE
  predicate Packable(k: Kind) {
    k.Bool? || k.Int? || k.UInt? || k.SInt? || k.Fixed32? || k.Fixed64?
  }

  predicate ValidSize(size: nat) {
    size == 1 || size == 2 || size == 4 || size == 8
  }

  // Half the number of values of an integer of `size` bytes.
  function Half(size: nat): nat
    requires ValidSize(size)
  {
    if size == 1 then 0x80 else if size == 2 then 0x8000 else if size == 4 then 0x8000_0000 else 0x8000_0000_0000_0000
  }

  predicate Signed(size: nat, n: int) {
    ValidSize(size) ==> -(Half(size) as int) <= n < Half(size)
  }

  predicate Unsigned(size: nat, n: int) {
    ValidSize(size) ==> 0 <= n < 2 * Half(size)
  }

  // The two's complement and the unsigned range of `size` bytes.
  lemma Ranges(size: nat, n: int)
    requires ValidSize(size)
    ensures Signed(size, n) <==> -(Pow256(size) as int) <= 2 * n < Pow256(size)
    ensures Unsigned(size, n) <==> 0 <= n < Pow256(size)
  {
    assert Pow256(2) == 256 * (256 * Pow256(0));
    assert Pow256(4) == 256 * (256 * Pow256(2));
    assert Pow256(8) == 256 * (256 * (256 * (256 * Pow256(4))));
  }

  // --- What a struct of the C type can hold ---

  ghost predicate ValueTyped(k: Kind, v: Value)
    decreases k
  {
    match k
    case Bool => v.Num? && (v.n == 0 || v.n == 1)
    case Int(size) => v.Num? && Signed(size, v.n)
    case UInt(size) => v.Num? && Unsigned(size, v.n)
    case SInt(size) => v.Num? && Signed(size, v.n)
    case Fixed32 => v.Num? && 0 <= v.n < TWO32
    case Fixed64 => v.Num? && 0 <= v.n < TWO64
    case ByteArray(_) => v.Blob? && |v.b| < TWO32
    case Str(size) => v.Blob? && |v.b| <= size && 0 !in v.b
    case FixedBytes(length) => v.Blob? && |v.b| == length
    case Submessage(fields) => v.Message? && Typed(fields, v.slots)
  }

  ghost predicate SlotTyped(f: Field, s: Slot)
    decreases f
  {
    match f.rule
    case Required => s.One? && ValueTyped(f.kind, s.v)
    case Singular => s.One? && ValueTyped(f.kind, s.v)
    case Optional => s.Maybe? && ValueTyped(f.kind, s.v)
    case Repeated(_) => s.Many? && forall i :: 0 <= i < |s.items| ==> ValueTyped(f.kind, s.items[i])
    case Oneof(_) => s.Member? && (s.chosen.Some? ==> ValueTyped(f.kind, s.chosen.value))
  }

  ghost predicate Typed(fields: seq<Field>, slots: seq<Slot>)
    decreases fields
  {
    && |slots| == |fields|
    && OneChosen(fields, slots)
    && forall i :: 0 <= i < |fields| ==> SlotTyped(fields[i], slots[i])
  }

  // A oneof has one which_ tag, so at most one of its members is set.
  ghost predicate OneChosen(fields: seq<Field>, slots: seq<Slot>)
    requires |slots| == |fields|
  {
    forall i, j :: 0 <= i < j < |fields| && fields[i].rule.Oneof? && fields[i].rule == fields[j].rule
                   ==> slots[i] == Member(None) || slots[j] == Member(None)
  }

  // --- Defaults (pb_message_set_to_defaults) ---

  function DefaultValue(f: Field): Value
    decreases f, 0
  {
    if f.kind.Submessage? then Message(Defaults(f.kind.fields)) else f.default
  }

  function DefaultSlot(f: Field): Slot
    decreases f, 1
  {
    match f.rule
    case Required => One(DefaultValue(f))
    case Singular => One(DefaultValue(f))
    case Optional => Maybe(false, DefaultValue(f))
    case Repeated(_) => Many([])
    case Oneof(_) => Member(None)
  }

  function Defaults(fields: seq<Field>): (slots: seq<Slot>)
    decreases fields
  {
    seq(|fields|, i requires 0 <= i < |fields| => DefaultSlot(fields[i]))
  }

  // --- Schemas ---

  // The field descriptors that the generator emits: distinct field numbers that fit a tag, and zero defaults for
  // proto3 fields.
  ghost predicate SchemaOk(fields: seq<Field>)
    decreases fields
  {
    && (forall i :: 0 <= i < |fields| ==> FieldOk(fields[i]))
    && (forall i, j :: 0 <= i < j < |fields| ==> fields[i].tag != fields[j].tag)
  }

  ghost predicate FieldOk(f: Field)
    decreases f
  {
    && 0 < f.tag < 0x2000_0000
    && (f.rule.Singular? && !f.kind.Submessage? ==> IsZero(f.kind, f.default))
    && KindOk(f.kind)
  }

  // pb_size_t has 32 bits.
  ghost predicate KindOk(k: Kind)
    decreases k
  {
    match k
    case ByteArray(capacity) => capacity < TWO32
    case Str(size) => size < TWO32
    case FixedBytes(length) => length < TWO32
    case Submessage(fields) => SchemaOk(fields)
    case _ => true
  }

  // The value a proto3 reader takes for absent; fixed-length bytes are absent only when their length is zero.
  predicate IsZero(k: Kind, v: Value) {
    match k
    case ByteArray(_) => v == Blob([])
    case Str(_) => v == Blob([])
    case FixedBytes(length) => v == Blob(seq(length, _ => 0))
    case _ => v == Num(0)
  }

  // --- The message a reader sees: unset optional fields read as defaults ---

  ghost function SeenValue(k: Kind, v: Value): Value
    requires ValueTyped(k, v)
    decreases k, 0
  {
    if k.Submessage? then Message(SeenSlots(k.fields, v.slots)) else v
  }

  ghost function SeenItems(k: Kind, items: seq<Value>): (r: seq<Value>)
    requires forall i :: 0 <= i < |items| ==> ValueTyped(k, items[i])
    ensures |r| == |items|
    decreases k, 1
  {
    seq(|items|, i requires 0 <= i < |items| => SeenValue(k, items[i]))
  }

  ghost function SeenSlot(f: Field, s: Slot): Slot
    requires SlotTyped(f, s)
    decreases f
  {
    match f.rule
    case Required => One(SeenValue(f.kind, s.v))
    case Singular => One(SeenValue(f.kind, s.v))
    case Optional => if s.has then Maybe(true, SeenValue(f.kind, s.v)) else DefaultSlot(f)
    case Repeated(_) => Many(SeenItems(f.kind, s.items))
    case Oneof(_) => if s.chosen.Some? then Member(Some(SeenValue(f.kind, s.chosen.value))) else s
  }

  ghost function SeenSlots(fields: seq<Field>, slots: seq<Slot>): (r: seq<Slot>)
    requires Typed(fields, slots)
    ensures |r| == |fields|
    decreases fields
  {
    seq(|fields|, i requires 0 <= i < |fields| => SeenSlot(fields[i], slots[i]))
  }
}
