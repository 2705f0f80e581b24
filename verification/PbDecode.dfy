/** The nanopb decoder (pb_decode.c, pb_common.c) as functions of the remaining input. */
module PbDecode {
  import opened InternalKeys
  import opened Coding
  import opened PbMessage

  const MAX_REQUIRED_FIELDS := 64

  // --- Varints of 32 bits (pb_decode_varint32) ---

  function Varint32(s: Bytes): (r: Parsed<Word32>)
    ensures r.Good? ==> |r.rest| < |s|
  {
    if s == [] then Bad
    else if s[0] < 128 then Good(s[0], s[1..])
    else Varint32Tail(s[1..], 1, s[0] - 128)
  }

  // From group j on.  Beyond 32 bits only zero groups or a sign extension may follow.
  function Varint32Tail(s: Bytes, j: nat, result: Word32): (r: Parsed<Word32>)
    ensures r.Good? ==> |r.rest| < |s|
    decreases |s|
  {
    if s == [] then Bad
    else
      var byte, low := s[0], s[0] % 128;
      if 7 * j >= 32 then
        var signExtension := if 7 * j < 63 then 255 else 1;
        if low != 0 && (result < 0x8000_0000 || byte != signExtension) then Bad
        else if byte >= 128 then Varint32Tail(s[1..], j + 1, result)
        else Good(result, s[1..])
      else
        var sum := (result + low * Pow128(j)) % TWO32;
        if byte >= 128 then Varint32Tail(s[1..], j + 1, sum)
        else if j == 4 && low >= 16 then Bad
        else Good(sum, s[1..])
  }

  // pb_make_string_substream
  function Substream(s: Bytes): (r: Parsed<Bytes>)
    ensures r.Good? ==> |r.value| + |r.rest| < |s|
  {
    match Varint32(s)
    case Bad => Bad
    case Good(n, rest) => if |rest| < n then Bad else Good(rest[..n], rest[n..])
  }

  function Take(s: Bytes, n: nat): (r: Parsed<Bytes>)
    ensures r.Good? ==> |r.value| == n && |r.rest| + n == |s|
  {
    if |s| < n then Bad else Good(s[..n], s[n..])
  }

  function SkipVarint(s: Bytes): (r: Parsed<Bytes>)
    ensures r.Good? ==> |r.rest| < |s|
  {
    if s == [] then Bad else if s[0] < 128 then Good([], s[1..]) else SkipVarint(s[1..])
  }

  // pb_skip_field
  function SkipField(wireType: nat, s: Bytes): (r: Parsed<Bytes>)
    ensures r.Good? ==> |r.rest| <= |s|
  {
    if wireType == WT_VARINT then SkipVarint(s)
    else if wireType == WT_64BIT then Take(s, 8)
    else if wireType == WT_STRING then Substream(s)
    else if wireType == WT_32BIT then Take(s, 4)
    else Bad
  }

  // --- Scalars, byte arrays and strings ---

  function ToSigned(n: nat, half: nat): int {
    if n < half then n else n - 2 * half
  }

  function UnZigZag(n: nat): int {
    if n % 2 == 1 then -(n / 2) - 1 else n / 2
  }

  // A value that does not survive the cast to the field's size is an error.
  function Checked(ok: bool, n: int, rest: Bytes): Parsed<Value> {
    if ok then Good(Num(n), rest) else Bad
  }

  function CString(b: Bytes): Bytes {
    if b == [] || b[0] == 0 then [] else [b[0]] + CString(b[1..])
  }

  function DecodeInt(k: Kind, value: Word64, rest: Bytes): (r: Parsed<Value>)
    ensures r.Good? ==> r.rest == rest
  {
    match k
    case Int(size) =>
      var n := if size == 8 then ToSigned(value, 0x8000_0000_0000_0000) else ToSigned(value % TWO32, 0x8000_0000);
      Checked(ValidSize(size) && Signed(size, n), n, rest)
    case UInt(size) => Checked(ValidSize(size) && Unsigned(size, value), value, rest)
    case SInt(size) => Checked(ValidSize(size) && Signed(size, UnZigZag(value)), UnZigZag(value), rest)
    case _ => Bad
  }

  function Blobs(k: Kind, s: Bytes): (r: Parsed<Value>)
    requires k.ByteArray? || k.Str? || k.FixedBytes?
    ensures r.Good? ==> |r.rest| < |s|
  {
    match Varint32(s)
    case Bad => Bad
    case Good(n, rest) => BlobOf(k, n, rest)
  }

  // After the length; an empty fixed-length field stands for zeros, and a string ends at its first zero byte.
  function BlobOf(k: Kind, n: nat, s: Bytes): (r: Parsed<Value>)
    requires k.ByteArray? || k.Str? || k.FixedBytes?
    ensures r.Good? ==> |r.rest| <= |s|
  {
    if k.ByteArray? && n > k.capacity then Bad
    else if k.Str? && n + 1 > k.dataSize then Bad
    else if k.FixedBytes? && n == 0 then Good(Blob(seq(k.length, _ => 0)), s)
    else if k.FixedBytes? && n != k.length then Bad
    else
      match Take(s, n)
      case Bad => Bad
      case Good(b, rest) => Good(Blob(if k.Str? then CString(b) else b), rest)
  }

  function DecodeScalar(k: Kind, s: Bytes): (r: Parsed<Value>)
    ensures r.Good? ==> |r.rest| < |s|
  {
    match k
    case Bool =>
      (match Varint32(s)
       case Bad => Bad
       case Good(n, rest) => Good(Num(if n != 0 then 1 else 0), rest))
    case Fixed32 => Fixed(s, 4)
    case Fixed64 => Fixed(s, 8)
    case Submessage(_) => Bad
    case ByteArray(_) => Blobs(k, s)
    case Str(_) => Blobs(k, s)
    case FixedBytes(_) => Blobs(k, s)
    case _ =>
      (match VarintBytes(s)
       case Bad => Bad
       case Good(n, rest) => DecodeInt(k, n, rest))
  }

  function VarintBytes(s: Bytes): (r: Parsed<Word64>)
    ensures r.Good? ==> |r.rest| < |s|
  {
    ParseShrinks(s, 10);
    GetVarint64(s)
  }

  function Fixed(s: Bytes, n: nat): (r: Parsed<Value>)
    ensures r.Good? ==> |r.rest| + n == |s|
  {
    match Take(s, n)
    case Bad => Bad
    case Good(b, rest) => Good(Num(DecodeFixed(b)), rest)
  }

  // The loop over a packed array: it stops at the array size, and what is left then is an overflow.
  function Unpack(k: Kind, max: nat, items: seq<Value>, s: Bytes): Option<seq<Value>>
    decreases |s|
  {
    if s == [] then Some(items)
    else if |items| >= max then None
    else
      match DecodeScalar(k, s)
      case Bad => None
      case Good(v, rest) => Unpack(k, max, items + [v], rest)
  }

  // --- Messages ---

  function FindTag(fields: seq<Field>, tag: nat): (i: nat)
    ensures i <= |fields|
    ensures i < |fields| ==> fields[i].tag == tag
    ensures forall j :: 0 <= j < i ==> fields[j].tag != tag
  {
    if fields == [] || fields[0].tag == tag then 0
    else
      assert forall j :: 1 <= j < |fields| ==> fields[j] == fields[1..][j - 1];
      1 + FindTag(fields[1..], tag)
  }

  // The storage of a field before it is decoded; a oneof member that was not chosen starts from its defaults.
  function Storage(f: Field, s: Slot): Value {
    match s
    case One(v) => v
    case Maybe(_, v) => v
    case Many(_) => DefaultValue(f)
    case Member(chosen) => if chosen.Some? then chosen.value else DefaultValue(f)
  }

  function Items(s: Slot): seq<Value> {
    if s.Many? then s.items else []
  }

  function StructOf(fields: seq<Field>, v: Value): (slots: seq<Slot>)
    ensures |slots| == |fields|
  {
    if v.Message? && |v.slots| == |fields| then v.slots else Defaults(fields)
  }

  // Setting one member of a oneof unsets the others.
  function Choose(fields: seq<Field>, slots: seq<Slot>, i: nat, v: Value): (r: seq<Slot>)
    requires |slots| == |fields| && i < |fields|
    ensures |r| == |slots|
  {
    seq(|fields|, j requires 0 <= j < |fields| =>
      if j == i then Member(Some(v))
      else if fields[j].rule.Oneof? && fields[j].rule == fields[i].rule then Member(None)
      else slots[j])
  }

  function DecodeValue(k: Kind, storage: Value, s: Bytes): (r: Parsed<Value>)
    ensures r.Good? ==> |r.rest| < |s|
    decreases |s|, 0
  {
    if k.Submessage? then
      match Substream(s)
      case Bad => Bad
      case Good(sub, rest) =>
        match DecodeFields(k.fields, StructOf(k.fields, storage), {}, sub)
        case None => Bad
        case Some(slots) => Good(Message(slots), rest)
    else
      DecodeScalar(k, s)
  }

  // decode_static_field; array entries start from defaults.
  function DecodeField(fields: seq<Field>, slots: seq<Slot>, i: nat, wireType: nat, s: Bytes): (r: Parsed<seq<Slot>>)
    requires |slots| == |fields| && i < |fields|
    ensures r.Good? ==> |r.rest| < |s| && |r.value| == |fields|
    decreases |s|, 1
  {
    var f := fields[i];
    if f.rule.Repeated? && wireType == WT_STRING && Packable(f.kind) then
      match Substream(s)
      case Bad => Bad
      case Good(sub, rest) =>
        match Unpack(f.kind, f.rule.max, Items(slots[i]), sub)
        case None => Bad
        case Some(items) => Good(slots[i := Many(items)], rest)
    else if f.rule.Repeated? && |Items(slots[i])| >= f.rule.max then Bad
    else
      match DecodeValue(f.kind, Storage(f, slots[i]), s)
      case Bad => Bad
      case Good(v, rest) => Good(Stored(fields, slots, i, v), rest)
  }

  function Stored(fields: seq<Field>, slots: seq<Slot>, i: nat, v: Value): (r: seq<Slot>)
    requires |slots| == |fields| && i < |fields|
    ensures |r| == |slots|
  {
    match fields[i].rule
    case Required => slots[i := One(v)]
    case Singular => slots[i := One(v)]
    case Optional => slots[i := Maybe(true, v)]
    case Repeated(_) => slots[i := Many(Items(slots[i]) + [v])]
    case Oneof(_) => Choose(fields, slots, i, v)
  }

  // The number of required fields before position i.
  function RequiredIndex(fields: seq<Field>, i: nat): nat
    requires i <= |fields|
  {
    if i == 0 then 0 else RequiredIndex(fields, i - 1) + if fields[i - 1].rule.Required? then 1 else 0
  }

  // The final check covers the first 64 required fields only.
  predicate RequiredSeen(fields: seq<Field>, seen: set<nat>) {
    forall i :: 0 <= i < |fields| && fields[i].rule.Required? && RequiredIndex(fields, i) < MAX_REQUIRED_FIELDS
                ==> i in seen
  }

  // pb_decode_noinit: the struct after all of the input.
  function DecodeFields(fields: seq<Field>, slots: seq<Slot>, seen: set<nat>, s: Bytes): (r: Option<seq<Slot>>)
    requires |slots| == |fields|
    ensures r.Some? ==> |r.value| == |fields|
    decreases |s|, 2
  {
    if s == [] then Finish(fields, slots, seen)
    else
      match Varint32(s)
      case Bad => None
      case Good(t, rest) =>
        if t == 0 then Finish(fields, slots, seen)
        else
          var i := FindTag(fields, t / 8);
          if i == |fields| then
            match SkipField(t % 8, rest)
            case Bad => None
            case Good(_, after) => DecodeFields(fields, slots, seen, after)
          else
            match DecodeField(fields, slots, i, t % 8, rest)
            case Bad => None
            case Good(slots', after) => DecodeFields(fields, slots', seen + {i}, after)
  }

  function Finish(fields: seq<Field>, slots: seq<Slot>, seen: set<nat>): (r: Option<seq<Slot>>)
    requires |slots| == |fields|
    ensures r.Some? ==> |r.value| == |fields|
  {
    if RequiredSeen(fields, seen) then Some(slots) else None
  }

  // pb_decode
  function Decode(fields: seq<Field>, s: Bytes): Option<seq<Slot>> {
    DecodeFields(fields, Defaults(fields), {}, s)
  }
}
