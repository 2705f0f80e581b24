/** The nanopb encoder (pb_encode.c): what a message encodes to, and the two-pass stream encoder that produces it. */
module PbEncode {
  import opened InternalKeys
  import opened Coding
  import opened PbMessage

  datatype Error = ArrayTooLong | BytesTooLong | InvalidDataSize | StreamFull | SizeChanged

  datatype Coded = Fail(error: Error) | Done(bytes: Bytes)

  function Join(a: Coded, b: Coded): Coded {
    if a.Fail? then a else if b.Fail? then b else Done(a.bytes + b.bytes)
  }

  function WireType(k: Kind): nat {
    match k
    case Fixed32 => WT_32BIT
    case Fixed64 => WT_64BIT
    case ByteArray(_) => WT_STRING
    case Str(_) => WT_STRING
    case FixedBytes(_) => WT_STRING
    case Submessage(_) => WT_STRING
    case _ => WT_VARINT
  }

  function TagBytes(wireType: nat, tag: nat): Bytes {
    EncodeVarint(tag * 8 + wireType)
  }

  function TagFor(f: Field): Bytes {
    TagBytes(WireType(f.kind), f.tag)
  }

  // Conversion of a signed 64-bit integer to unsigned.
  function ToUnsigned(n: int): int {
    if n < 0 then n + TWO64 else n
  }

  function ZigZag(n: int): int {
    if n < 0 then -2 * n - 1 else 2 * n
  }

  // --- Absent proto3 fields (pb_check_proto3_default_value) ---

  predicate ZeroValue(k: Kind, v: Value)
    decreases k, 0
  {
    match k
    case ByteArray(_) => v == Blob([])
    case Str(_) => v == Blob([])
    case FixedBytes(length) => length == 0
    case Submessage(fields) => v.Message? && |v.slots| == |fields| && AllAbsent(fields, v.slots)
    case _ => v == Num(0)
  }

  // A oneof member asks whether its group is unset; over all fields that is asking each member.
  predicate Absent(f: Field, s: Slot)
    decreases f
  {
    match f.rule
    case Required => false
    case Repeated(_) => s == Many([])
    case Oneof(_) => s == Member(None)
    case Optional => s.Maybe? && !s.has
    case Singular => s.One? && ZeroValue(f.kind, s.v)
  }

  predicate AllAbsent(fields: seq<Field>, slots: seq<Slot>)
    requires |slots| == |fields|
    decreases fields
  {
    forall i :: 0 <= i < |fields| ==> Absent(fields[i], slots[i])
  }

  // --- What a message encodes to ---

  ghost function EncodeValue(k: Kind, v: Value): Coded
    requires ValueTyped(k, v)
    decreases k, 0
  {
    match k
    case Bool => Done(EncodeVarint(v.n))
    case Int(size) => if ValidSize(size) then Done(EncodeVarint(ToUnsigned(v.n))) else Fail(InvalidDataSize)
    case UInt(size) => if ValidSize(size) then Done(EncodeVarint(v.n)) else Fail(InvalidDataSize)
    case SInt(size) => if ValidSize(size) then Done(EncodeVarint(ZigZag(v.n))) else Fail(InvalidDataSize)
    case Fixed32 => Done(EncodeFixed32(v.n))
    case Fixed64 => Done(EncodeFixed64(v.n))
    case ByteArray(capacity) => if |v.b| > capacity then Fail(BytesTooLong) else Done(PutLengthPrefixed(v.b))
    case Str(_) => Done(PutLengthPrefixed(v.b))
    case FixedBytes(_) => Done(PutLengthPrefixed(v.b))
    case Submessage(fields) => assert Typed(fields, v.slots); Delimited(EncodeFields(fields, v.slots))
  }

  function Delimited(c: Coded): Coded {
    if c.Fail? then c else Done(PutLengthPrefixed(c.bytes))
  }

  // The payload of a packed array.
  ghost function PackItems(k: Kind, items: seq<Value>): Coded
    requires forall i :: 0 <= i < |items| ==> ValueTyped(k, items[i])
    decreases k, 1, |items|
  {
    if items == [] then Done([]) else Join(EncodeValue(k, items[0]), PackItems(k, items[1..]))
  }

  // Unpacked items, each with its tag.
  ghost function TagItems(f: Field, items: seq<Value>): Coded
    requires forall i :: 0 <= i < |items| ==> ValueTyped(f.kind, items[i])
    decreases f, 0, |items|
  {
    if items == [] then Done([]) else Join(TagValue(f, items[0]), TagItems(f, items[1..]))
  }

  ghost function TagValue(f: Field, v: Value): Coded
    requires ValueTyped(f.kind, v)
    decreases f, 0, 0
  {
    Join(Done(TagFor(f)), EncodeValue(f.kind, v))
  }

  ghost function EncodeField(f: Field, s: Slot): Coded
    requires SlotTyped(f, s)
    decreases f, 1
  {
    match f.rule
    case Required => TagValue(f, s.v)
    case Optional => if s.has then TagValue(f, s.v) else Done([])
    case Singular => if Absent(f, s) then Done([]) else TagValue(f, s.v)
    case Repeated(max) =>
      if s.items == [] then Done([])
      else if |s.items| > max then Fail(ArrayTooLong)
      else if Packable(f.kind) then
        Join(Done(TagBytes(WT_STRING, f.tag)), Delimited(PackItems(f.kind, s.items)))
      else TagItems(f, s.items)
    case Oneof(_) => if s.chosen.Some? then TagValue(f, s.chosen.value) else Done([])
  }

  ghost function EncodeFields(fields: seq<Field>, slots: seq<Slot>): Coded
    requires |slots| == |fields| && forall i :: 0 <= i < |fields| ==> SlotTyped(fields[i], slots[i])
    decreases fields
  {
    if fields == [] then Done([])
    else Join(EncodeField(fields[0], slots[0]), EncodeFields(fields[1..], slots[1..]))
  }
}
