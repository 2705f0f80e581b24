/** What the nanopb decoder makes of any sequence of well-formed wire fields, known or unknown, in any order and any
    number (pb_decode.c 187-483, 934-1082; sections "Base 128 Varints", "Message Structure", "Length-Delimited Records",
    "Optional and Repeated Elements" and "Last One Wins" of the Protocol Buffers Encoding specification). */
module PbWire {
  import opened InternalKeys
  import opened Coding
  import opened PbMessage
  import opened PbEncode
  import opened PbDecode
  import opened PbRoundTrip

  // --- Wire fields ---

  datatype Width = AsVarint | As32 | As64

  // A length-delimited record is a plain blob, a packed array or a nested message.
  datatype Wire =
    | Varint(tag: nat, n: Word64)
    | I64(tag: nat, n: Word64)
    | I32(tag: nat, m: Word32)
    | Len(tag: nat, b: Bytes)
    | Packed(tag: nat, width: Width, ns: seq<Word64>)
    | Nested(tag: nat, sub: seq<Wire>)

  function WireTypeOf(w: Wire): nat {
    match w
    case Varint(_, _) => 0
    case I64(_, _) => 1
    case I32(_, _) => 5
    case _ => 2
  }

  function Element(width: Width, n: Word64): Bytes {
    match width
    case AsVarint => EncodeVarint(n)
    case As32 => EncodeFixed32(n % TWO32)
    case As64 => EncodeFixed64(n)
  }

  function Elements(width: Width, ns: seq<Word64>): Bytes {
    if ns == [] then [] else Element(width, ns[0]) + Elements(width, ns[1..])
  }

  function Payload(w: Wire): Bytes
    requires w.Len? || w.Packed? || w.Nested?
    decreases w, 0
  {
    match w
    case Len(_, b) => b
    case Packed(_, width, ns) => Elements(width, ns)
    case Nested(_, sub) => Encoded(sub)
  }

  function Body(w: Wire): Bytes
    decreases w, 1
  {
    match w
    case Varint(_, n) => EncodeVarint(n)
    case I64(_, n) => EncodeFixed64(n)
    case I32(_, m) => EncodeFixed32(m)
    case _ => PutLengthPrefixed(Payload(w))
  }

  function Encoded(ws: seq<Wire>): Bytes
    decreases ws
  {
    if ws == [] then [] else TagBytes(WireTypeOf(ws[0]), ws[0].tag) + Body(ws[0]) + Encoded(ws[1..])
  }

  // Tags are in range and payloads shorter than 4 GB.
  ghost predicate WireOk(w: Wire)
    decreases w
  {
    && 0 < w.tag < 0x2000_0000
    && (w.Len? || w.Packed? || w.Nested? ==> |Payload(w)| < TWO32)
    && (w.Nested? ==> AllOk(w.sub))
  }

  ghost predicate AllOk(ws: seq<Wire>)
    decreases ws
  {
    forall i :: 0 <= i < |ws| ==> WireOk(ws[i])
  }

  // A field of the schema is sent in its own wire form; a field the schema does not have may be anything.
  ghost predicate Suits(f: Field, w: Wire)
    decreases w
  {
    match w
    case Varint(_, _) => WireType(f.kind) == WT_VARINT
    case I64(_, _) => f.kind.Fixed64?
    case I32(_, _) => f.kind.Fixed32?
    case Len(_, _) => f.kind.ByteArray? || f.kind.Str? || f.kind.FixedBytes?
    case Packed(_, width, _) => f.rule.Repeated? && Packable(f.kind) && width == WidthOf(f.kind)
    case Nested(_, sub) => f.kind.Submessage? && AllSuit(f.kind.fields, sub)
  }

  ghost predicate AllSuit(fields: seq<Field>, ws: seq<Wire>)
    decreases ws
  {
    forall i :: 0 <= i < |ws| && FindTag(fields, ws[i].tag) < |fields|
                ==> Suits(fields[FindTag(fields, ws[i].tag)], ws[i])
  }

  function WidthOf(k: Kind): Width {
    if k.Fixed32? then As32 else if k.Fixed64? then As64 else AsVarint
  }

  // --- What the fields mean ---

  // The numbers a 32-bit varint reader accepts: those of 32 bits, and ten-byte ones with bit 31 set whose groups from
  // bit 35 on are empty or a sign extension.
  predicate Fits32(n: Word64) {
    n < TWO32 || (n / 0x8000_0000 % 2 == 1 && n >= 0x8_0000_0000 && SignGroups(n / 0x8_0000_0000, 5))
  }

  // The groups from group j on, least significant first.
  predicate SignGroups(m: nat, j: nat)
    decreases m
  {
    if m < 128 then m == 0 || (m == 1 && j >= 9)
    else (m % 128 == 0 || (m % 128 == 127 && j < 9)) && SignGroups(m / 128, j + 1)
  }

  function InRange(ok: bool, n: int): Option<Value> {
    if ok then Some(Num(n)) else None
  }

  // The value of a number, None when the field cannot hold it.
  function Number(k: Kind, n: Word64): Option<Value> {
    match k
    case Bool => if Fits32(n) then Some(Num(if n % TWO32 == 0 then 0 else 1)) else None
    case Int(size) =>
      var bits := if size == 8 then TWO64 else TWO32;
      var v := if n % bits < bits / 2 then n % bits else n % bits - bits;
      InRange(ValidSize(size) && Signed(size, v), v)
    case UInt(size) => InRange(ValidSize(size) && Unsigned(size, n), n)
    case SInt(size) =>
      var v := if n % 2 == 0 then n / 2 else -((n + 1) / 2);
      InRange(ValidSize(size) && Signed(size, v), v)
    case Fixed32 => Some(Num(n % TWO32))
    case Fixed64 => Some(Num(n))
    case _ => None
  }

  // A blob fits its array, with room for the terminator of a string; an empty fixed-length one stands for zeros.
  function BlobValue(k: Kind, b: Bytes): Option<Value> {
    match k
    case ByteArray(capacity) => if |b| <= capacity then Some(Blob(b)) else None
    case Str(dataSize) => if |b| < dataSize then Some(Blob(CString(b))) else None
    case FixedBytes(length) =>
      if b == [] then Some(Blob(Zeros(length))) else if |b| == length then Some(Blob(b)) else None
    case _ => None
  }

  function Numbers(k: Kind, ns: seq<Word64>): Option<seq<Value>> {
    if ns == [] then Some([])
    else
      match Number(k, ns[0])
      case None => None
      case Some(v) =>
        match Numbers(k, ns[1..])
        case None => None
        case Some(vs) => Some([v] + vs)
  }

  // One value; a nested message is read into what is there, and needs its own required fields.
  function ValueOf(k: Kind, storage: Value, w: Wire): Option<Value>
    decreases w, 0
  {
    match w
    case Varint(_, n) => Number(k, n)
    case I64(_, n) => Number(k, n)
    case I32(_, m) => Number(k, m)
    case Len(_, b) => BlobValue(k, b)
    case Packed(_, _, _) => None
    case Nested(_, sub) =>
      if !k.Submessage? then None
      else
        match AbsorbAll(k.fields, StructOf(k.fields, storage), sub)
        case None => None
        case Some(slots) => if RequiredSeen(k.fields, Named(k.fields, sub)) then Some(Message(slots)) else None
  }

  // The struct after one field: an unknown one changes nothing, an array takes no more than its size.
  function Absorb(fields: seq<Field>, slots: seq<Slot>, w: Wire): (r: Option<seq<Slot>>)
    requires |slots| == |fields|
    ensures r.Some? ==> |r.value| == |fields|
    decreases w, 1
  {
    var i := FindTag(fields, w.tag);
    if i == |fields| then Some(slots)
    else
      var f, have := fields[i], Items(slots[i]);
      if w.Packed? then
        match Numbers(f.kind, w.ns)
        case None => None
        case Some(vs) =>
          if vs != [] && f.rule.Repeated? && |have| + |vs| > f.rule.max then None else Some(slots[i := Many(have + vs)])
      else if f.rule.Repeated? && |have| >= f.rule.max then None
      else
        match ValueOf(f.kind, Storage(f, slots[i]), w)
        case None => None
        case Some(v) => Some(Stored(fields, slots, i, v))
  }

  function AbsorbAll(fields: seq<Field>, slots: seq<Slot>, ws: seq<Wire>): (r: Option<seq<Slot>>)
    requires |slots| == |fields|
    ensures r.Some? ==> |r.value| == |fields|
    decreases ws
  {
    if ws == [] then Some(slots)
    else
      match Absorb(fields, slots, ws[0])
      case None => None
      case Some(slots') => AbsorbAll(fields, slots', ws[1..])
  }

  // The fields of the schema that occur.
  function Named(fields: seq<Field>, ws: seq<Wire>): set<nat> {
    if ws == [] then {}
    else
      var i := FindTag(fields, ws[0].tag);
      (if i < |fields| then {i} else {}) + Named(fields, ws[1..])
  }

  // --- Varints of 64 bits in a 32-bit reader ---

  // Past bit 34 only empty groups and a sign extension are accepted.
  lemma {:induction false} PastBit34(w: nat, j: nat, result: Word32, rest: Bytes)
    requires j >= 5 && w > 0
    ensures Varint32Tail(EncodeVarint(w) + rest, j, result)
            == if result >= 0x8000_0000 && SignGroups(w, j) then Good(result, rest) else Bad
    decreases w
  {
    var s := EncodeVarint(w) + rest;
    if w < 128 {
      assert s[1..] == rest;
    } else {
      assert s[1..] == EncodeVarint(w / 128) + rest;
      PastBit34(w / 128, j + 1, result, rest);
    }
  }

  // n once its first j groups have been read.
  predicate Split32(n: nat, w: nat, j: nat, result: Word32) {
    1 <= j <= 4 && w > 0 && result < Pow128(j) && n == result + w * Pow128(j)
  }

  lemma {:induction false} Group28(n: nat, w: nat, result: Word32, rest: Bytes)
    requires w > 0 && result < 0x1000_0000 && n == result + w * 0x1000_0000 && n < TWO64
    ensures Varint32Tail(EncodeVarint(w) + rest, 4, result) == if Fits32(n) then Good(n % TWO32, rest) else Bad
  {
    hide SignGroups;
    var s := EncodeVarint(w) + rest;
    assert Pow128(4) == 0x1000_0000;
    if w < 128 {
      assert s[1..] == rest;
    } else {
      assert s[1..] == EncodeVarint(w / 128) + rest;
      var sum := (result + w % 128 * 0x1000_0000) % TWO32;
      assert n == result + w % 128 * 0x1000_0000 + w / 128 * 0x8_0000_0000;
      HighPart(result + w % 128 * 0x1000_0000, w / 128);
      PastBit34(w / 128, 5, sum, rest);
    }
  }

  lemma {:induction false} HighPart(low: nat, high: nat)
    requires low < 0x8_0000_0000
    ensures var n := low + high * 0x8_0000_0000;
            && n % TWO32 == low % TWO32 && n / 0x8_0000_0000 == high
            && (n / 0x8000_0000 % 2 == 1 <==> low % TWO32 >= 0x8000_0000)
  {
    Remainder(low, 8 * high, TWO32);
    Remainder(low, high, 0x8_0000_0000);
    Remainder(low, 16 * high, 0x8000_0000);
    Remainder(low / 0x8000_0000, 8 * high, 2);
    Bit31(low);
  }

  lemma {:induction false} Bit31(n: nat)
    ensures n / 0x8000_0000 % 2 == 1 <==> n % TWO32 >= 0x8000_0000
  {
    var q, r := n / TWO32, n % TWO32;
    assert n == q * TWO32 + r;
    Remainder(r, 2 * q, 0x8000_0000);
    Remainder(r / 0x8000_0000, q, 2);
  }

  lemma {:induction false} Remainder(low: nat, k: nat, m: nat)
    requires m > 0
    ensures (low + k * m) % m == low % m && (low + k * m) / m == low / m + k
  {
    var n := low + k * m;
    assert n == (low / m + k) * m + low % m by {
      assert low == low / m * m + low % m;
    }
    Quotient(n, low / m + k, low % m, m);
  }

  lemma {:induction false} Quotient(n: nat, q: nat, r: nat, m: nat)
    requires m > 0 && n == q * m + r && r < m
    ensures n / m == q && n % m == r
  {
    var d: int := n / m - q;
    assert n == n / m * m + n % m;
    assert d * m == r - n % m;
    assert d >= 1 ==> d * m >= m;
    assert d <= -1 ==> (d + 1) * m <= 0;
    assert d * m == (d + 1) * m - m;
  }

  lemma {:induction false} TailReads(n: Word64, w: nat, j: nat, result: Word32, rest: Bytes)
    requires Split32(n, w, j, result)
    ensures Varint32Tail(EncodeVarint(w) + rest, j, result) == if Fits32(n) then Good(n % TWO32, rest) else Bad
    decreases w
  {
    hide Fits32;
    Powers();
    if j == 4 {
      Group28(n, w, result, rest);
    } else {
      var s := EncodeVarint(w) + rest;
      var p := Pow128(j);
      SplitGroup(w % 128, w / 128, p);
      assert w == w % 128 + 128 * (w / 128);
      TailStep(s, j, result);
      if w < 128 {
        assert s[1..] == rest;
        FitsSmall(n);
      } else {
        assert s[1..] == EncodeVarint(w / 128) + rest;
        TailReads(n, w / 128, j + 1, result + w % 128 * p, rest);
      }
    }
  }

  lemma {:induction false} Powers()
    ensures Pow128(1) == 128 && Pow128(2) == 0x4000 && Pow128(3) == 0x20_0000 && Pow128(4) == 0x1000_0000
  {
  }

  lemma {:induction false} FitsSmall(n: Word64)
    ensures n < TWO32 ==> Fits32(n) && n % TWO32 == n
  {
  }

  // Which 64-bit numbers a 32-bit varint reader takes, and as what.
  lemma {:induction false} Varint32Reads(n: Word64, rest: Bytes)
    ensures Varint32(EncodeVarint(n) + rest) == if Fits32(n) then Good(n % TWO32, rest) else Bad
  {
    hide Fits32, Varint32Tail;
    var s := EncodeVarint(n) + rest;
    FitsSmall(n);
    if n < 128 {
      assert s[1..] == rest;
    } else {
      assert s[1..] == EncodeVarint(n / 128) + rest;
      Powers();
      TailReads(n, n / 128, 1, n % 128, rest);
    }
  }

  // In particular a negative 32-bit number, sign-extended to ten bytes as any encoder sends it.
  lemma {:induction false} NegativeFits(n: Word64)
    requires n >= TWO64 - 0x8000_0000
    ensures Fits32(n) && n % TWO32 >= 0x8000_0000
  {
    var m := n / 0x8_0000_0000;
    assert m == 0x1FFF_FFFF;
    assert SignGroups(1, 9) && SignGroups(255, 8) && SignGroups(0x7FFF, 7) && SignGroups(0x3F_FFFF, 6);
  }

  // --- One value ---

  lemma {:induction false} NumberReads(k: Kind, n: Word64, rest: Bytes)
    requires WireType(k) == WT_VARINT
    ensures DecodeScalar(k, EncodeVarint(n) + rest) == ToParsed(Number(k, n), rest)
  {
    hide Varint32, GetVarint64, EncodeVarint, Fits32;
    if k.Bool? {
      Varint32Reads(n, rest);
    } else {
      Varint64RoundTrip(n, rest);
      IntReads(k, n, rest);
    }
  }

  lemma {:induction false} IntReads(k: Kind, n: Word64, rest: Bytes)
    requires k.Int? || k.UInt? || k.SInt?
    ensures DecodeInt(k, n, rest) == ToParsed(Number(k, n), rest)
  {
  }

  function ToParsed<T>(v: Option<T>, rest: Bytes): Parsed<T> {
    if v.Some? then Good(v.value, rest) else Bad
  }

  lemma {:induction false} FixedReads(k: Kind, b: Bytes, rest: Bytes)
    requires (k.Fixed32? && |b| == 4) || (k.Fixed64? && |b| == 8)
    ensures DecodeScalar(k, b + rest) == Good(Num(DecodeFixed(b)), rest)
  {
    hide DecodeFixed;
    FixedReadsBack(b, rest);
  }

  lemma {:induction false} BlobReads(k: Kind, b: Bytes, rest: Bytes)
    requires (k.ByteArray? || k.Str? || k.FixedBytes?) && |b| < TWO32
    ensures DecodeScalar(k, PutLengthPrefixed(b) + rest) == ToParsed(BlobValue(k, b), rest)
  {
    hide Varint32, PutLengthPrefixed;
    SubstreamReadsBack(b, rest);
    assert (b + rest)[..|b|] == b && (b + rest)[|b|..] == rest;
    assert Take(b + rest, |b|) == Good(b, rest);
    if |b| == 0 {
      assert b + rest == rest && b == [];
    }
  }

  lemma {:induction false} ElementReads(k: Kind, n: Word64, rest: Bytes)
    requires Packable(k)
    ensures DecodeScalar(k, Element(WidthOf(k), n) + rest) == ToParsed(Number(k, n), rest)
    ensures Element(WidthOf(k), n) != []
  {
    hide EncodeVarint, DecodeScalar;
    match k
    case Fixed32 => FixedReads(k, EncodeFixed32(n % TWO32), rest); Fixed32RoundTrip(n % TWO32);
    case Fixed64 => FixedReads(k, EncodeFixed64(n), rest); Fixed64RoundTrip(n);
    case _ => NumberReads(k, n, rest);
  }

  // A packed array is its numbers one by one, as far as the array goes.
  lemma {:induction false} PackedReads(k: Kind, max: nat, have: seq<Value>, ns: seq<Word64>)
    requires Packable(k)
    ensures Unpack(k, max, have, Elements(WidthOf(k), ns))
            == match Numbers(k, ns)
               case None => None
               case Some(vs) => if vs != [] && |have| + |vs| > max then None else Some(have + vs)
    decreases |ns|
  {
    hide DecodeScalar, Element, Number;
    if ns == [] {
      assert have + [] == have;
    } else {
      ElementReads(k, ns[0], Elements(WidthOf(k), ns[1..]));
      var v := Number(k, ns[0]);
      if v.Some? && |have| < max {
        PackedReads(k, max, have + [v.value], ns[1..]);
        NumbersLength(k, ns[1..]);
        if Numbers(k, ns[1..]).Some? {
          var vs := Numbers(k, ns[1..]).value;
          assert have + [v.value] + vs == have + ([v.value] + vs);
        }
      }
    }
  }

  lemma {:induction false} NumbersLength(k: Kind, ns: seq<Word64>)
    ensures Numbers(k, ns).Some? ==> |Numbers(k, ns).value| == |ns|
    decreases |ns|
  {
    if ns != [] {
      NumbersLength(k, ns[1..]);
    }
  }

  // --- Every sequence of wire fields ---

  lemma {:induction false} ValueReads(k: Kind, storage: Value, w: Wire, rest: Bytes)
    requires KindOk(k) && WireOk(w) && !w.Packed?
    requires match w
             case Varint(_, _) => WireType(k) == WT_VARINT
             case I64(_, _) => k.Fixed64?
             case I32(_, _) => k.Fixed32?
             case Len(_, _) => k.ByteArray? || k.Str? || k.FixedBytes?
             case Nested(_, sub) => k.Submessage? && AllSuit(k.fields, sub)
    ensures DecodeValue(k, storage, Body(w) + rest) == ToParsed(ValueOf(k, storage, w), rest)
    decreases w, 0
  {
    hide DecodeScalar, Substream, PutLengthPrefixed, DecodeFields, Number, BlobValue, EncodeVarint, EncodeFixed, DecodeFixed;
    match w
    case Varint(_, n) => NumberReads(k, n, rest);
    case I64(_, n) => FixedReads(k, EncodeFixed64(n), rest); Fixed64RoundTrip(n); FixedNumber(k, n);
    case I32(_, m) => FixedReads(k, EncodeFixed32(m), rest); Fixed32RoundTrip(m); FixedNumber(k, m);
    case Len(_, b) => BlobReads(k, b, rest);
    case Nested(_, sub) =>
      SubstreamReadsBack(Encoded(sub), rest);
      FieldsRead(k.fields, StructOf(k.fields, storage), {}, sub, []);
      assert Encoded(sub) + [] == Encoded(sub);
      Ends(k.fields, StructOf(k.fields, storage), sub);
  }

  lemma {:induction false} FixedNumber(k: Kind, n: Word64)
    ensures k.Fixed64? ==> Number(k, n) == Some(Num(n))
    ensures k.Fixed32? && n < TWO32 ==> Number(k, n) == Some(Num(n))
  {
  }

  // At the end of its fields a message is complete or not.
  lemma {:induction false} Ends(fields: seq<Field>, slots: seq<Slot>, ws: seq<Wire>)
    requires |slots| == |fields|
    ensures {} + Named(fields, ws) == Named(fields, ws)
    ensures forall st :: |st| == |fields| ==>
              DecodeFields(fields, st, Named(fields, ws), [])
              == if RequiredSeen(fields, Named(fields, ws)) then Some(st) else None
  {
    hide Named, RequiredSeen;
  }

  lemma {:induction false} FieldReads(fields: seq<Field>, slots: seq<Slot>, w: Wire, rest: Bytes)
    requires SchemaOk(fields) && |slots| == |fields| && WireOk(w)
    requires FindTag(fields, w.tag) < |fields| && Suits(fields[FindTag(fields, w.tag)], w)
    ensures DecodeField(fields, slots, FindTag(fields, w.tag), WireTypeOf(w), Body(w) + rest)
            == ToParsed(Absorb(fields, slots, w), rest)
    decreases w, 1
  {
    hide DecodeValue, Substream, PutLengthPrefixed, Unpack, ValueOf, Stored, Storage, Elements, Numbers, Encoded;
    var i := FindTag(fields, w.tag);
    var f := fields[i];
    assert FieldOk(f);
    if w.Packed? {
      SubstreamReadsBack(Payload(w), rest);
      PackedReads(f.kind, f.rule.max, Items(slots[i]), w.ns);
    } else {
      ValueReads(f.kind, Storage(f, slots[i]), w, rest);
    }
  }

  // A field the schema does not have is skipped whole, whatever the state and whatever follows.
  lemma {:induction false} UnknownIsSkipped(fields: seq<Field>, slots: seq<Slot>, seen: set<nat>, w: Wire, rest: Bytes)
    requires |slots| == |fields| && WireOk(w) && forall i :: 0 <= i < |fields| ==> fields[i].tag != w.tag
    ensures DecodeFields(fields, slots, seen, TagBytes(WireTypeOf(w), w.tag) + Body(w) + rest)
            == DecodeFields(fields, slots, seen, rest)
  {
    hide Varint32, EncodeVarint, Substream, PutLengthPrefixed, SkipVarint, EncodeFixed, Payload;
    var t := w.tag * 8 + WireTypeOf(w);
    var s := TagBytes(WireTypeOf(w), w.tag) + Body(w) + rest;
    assert s == EncodeVarint(t) + (Body(w) + rest);
    Varint32ReadsBack(t, Body(w) + rest);
    assert t / 8 == w.tag && t % 8 == WireTypeOf(w);
    assert FindTag(fields, w.tag) == |fields|;
    match w
    case Varint(_, n) => SkipsVarint(n, rest);
    case I64(_, n) => assert (EncodeFixed64(n) + rest)[8..] == rest;
    case I32(_, m) => assert (EncodeFixed32(m) + rest)[4..] == rest;
    case _ => SubstreamReadsBack(Payload(w), rest);
  }

  lemma {:induction false} SkipsVarint(n: nat, rest: Bytes)
    ensures SkipVarint(EncodeVarint(n) + rest) == Good([], rest)
    decreases n
  {
    var s := EncodeVarint(n) + rest;
    if n < 128 {
      assert s[1..] == rest;
    } else {
      assert s[1..] == EncodeVarint(n / 128) + rest;
      SkipsVarint(n / 128, rest);
    }
  }

  // Reading any fields and then the rest of the input, from any state.
  lemma {:induction false} FieldsRead(fields: seq<Field>, slots: seq<Slot>, seen: set<nat>, ws: seq<Wire>, rest: Bytes)
    requires SchemaOk(fields) && |slots| == |fields| && AllOk(ws) && AllSuit(fields, ws)
    ensures DecodeFields(fields, slots, seen, Encoded(ws) + rest)
            == match AbsorbAll(fields, slots, ws)
               case None => None
               case Some(out) => DecodeFields(fields, out, seen + Named(fields, ws), rest)
    decreases ws
  {
    hide DecodeFields, DecodeField, Absorb, Body, TagBytes, WireTypeOf, Suits, WireOk, SchemaOk;
    if ws == [] {
      assert Encoded(ws) + rest == rest && seen + {} == seen;
    } else {
      var w, more := ws[0], ws[1..];
      var i := FindTag(fields, w.tag);
      var next := Encoded(more) + rest;
      var head := TagBytes(WireTypeOf(w), w.tag);
      assert Encoded(ws) + rest == head + Body(w) + next;
      assert AllOk(more) && AllSuit(fields, more);
      if i == |fields| {
        UnknownIsSkipped(fields, slots, seen, w, next);
        FieldsRead(fields, slots, seen, more, rest);
        UnknownAbsorbs(fields, slots, w);
        assert {} + Named(fields, more) == Named(fields, more);
      } else {
        FieldReads(fields, slots, w, next);
        assert head + Body(w) + next == head + (Body(w) + next);
        TypeBound(w);
        TagStep(fields, slots, seen, i, WireTypeOf(w), Body(w) + next);
        var out := Absorb(fields, slots, w);
        if out.Some? {
          FieldsRead(fields, out.value, seen + {i}, more, rest);
          assert seen + {i} + Named(fields, more) == seen + ({i} + Named(fields, more));
        }
      }
    }
  }

  lemma {:induction false} TypeBound(w: Wire)
    ensures WireTypeOf(w) < 8
  {
  }

  lemma {:induction false} UnknownAbsorbs(fields: seq<Field>, slots: seq<Slot>, w: Wire)
    requires |slots| == |fields| && FindTag(fields, w.tag) == |fields|
    ensures Absorb(fields, slots, w) == Some(slots)
  {
  }
}
