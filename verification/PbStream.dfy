/** The nanopb output stream and the two-pass encoder (pb_encode.c): every length-delimited value is first measured on
    a stream that only counts, then written.  The encoder is proved to write exactly what the message encodes to. */
module PbStream {
  import opened InternalKeys
  import opened Coding
  import opened PbMessage
  import opened PbEncode

  datatype Status = Ok | Err(error: Error)

  datatype State = State(written: nat, data: Bytes)

  // From state a to state b the stream has written c: it succeeds exactly when c has no error of its own and, on a
  // stream with a buffer, there is room for all of it.
  ghost predicate Wrote(sizing: bool, maxSize: nat, a: State, b: State, c: Coded, status: Status) {
    && (status.Ok? <==> c.Done? && (sizing || a.written + |c.bytes| <= maxSize))
    && (status.Ok? ==> b == State(a.written + |c.bytes|, if sizing then a.data else a.data + c.bytes))
    && (status.Err? ==> status.error != SizeChanged)
  }

  lemma WroteBoth(sizing: bool, maxSize: nat, a: State, b: State, c: State, x: Coded, y: Coded, status: Status)
    requires Wrote(sizing, maxSize, a, b, x, Ok) && Wrote(sizing, maxSize, b, c, y, status)
    ensures Wrote(sizing, maxSize, a, c, Join(x, y), status)
  {
    if x.Done? && y.Done? {
      assert a.data + (x.bytes + y.bytes) == a.data + x.bytes + y.bytes;
    }
  }

  lemma WroteFirst(sizing: bool, maxSize: nat, a: State, b: State, x: Coded, y: Coded, status: Status)
    requires Wrote(sizing, maxSize, a, b, x, status) && status.Err?
    ensures Wrote(sizing, maxSize, a, b, Join(x, y), status)
  {
  }

  lemma WroteNothing(sizing: bool, maxSize: nat, a: State)
    requires !sizing ==> a.written <= maxSize
    ensures Wrote(sizing, maxSize, a, a, Done([]), Ok)
  {
    assert a.data + [] == a.data;
  }

  class OStream {
    const sizing: bool           // callback == NULL
    const maxSize: nat
    var data: Bytes              // the buffer up to the stream's position
    var bytesWritten: nat

    ghost predicate Valid()
      reads this
    {
      !sizing ==> bytesWritten == |data| <= maxSize
    }

    ghost function Now(): State
      reads this
    {
      State(bytesWritten, data)
    }

    constructor Sizing()
      ensures Valid() && sizing && Now() == State(0, [])
    {
      sizing, maxSize, data, bytesWritten := true, 0, [], 0;
    }

    constructor FromBuffer(size: nat)
      ensures Valid() && !sizing && maxSize == size && Now() == State(0, [])
    {
      sizing, maxSize, data, bytesWritten := false, size, [], 0;
    }

    method Write(buf: Bytes) returns (status: Status)
      requires Valid()
      modifies this
      ensures Valid() && Wrote(sizing, maxSize, old(Now()), Now(), Done(buf), status)
    {
      if |buf| > 0 && !sizing {
        if bytesWritten + |buf| > maxSize {
          return Err(StreamFull);
        }
        data := data + buf;
      }
      bytesWritten := bytesWritten + |buf|;
      return Ok;
    }

    // pb_encode_varint: groups in a buffer, the top bit of the last one cleared.
    method WriteVarint(value: nat) returns (status: Status)
      requires Valid()
      modifies this
      ensures Valid() && Wrote(sizing, maxSize, old(Now()), Now(), Done(EncodeVarint(value)), status)
    {
      hide Wrote;
      if value <= 0x7F {
        status := Write([value]);
        return;
      }
      var buffer: Bytes, v: nat := [], value;
      while v != 0
        invariant Now() == old(Now())
        invariant v == 0 ==> buffer != [] && buffer[|buffer| - 1] >= 128
        invariant if v != 0 then buffer + EncodeVarint(v) == EncodeVarint(value)
                  else buffer[..|buffer| - 1] + [buffer[|buffer| - 1] - 128] == EncodeVarint(value)
        decreases v
      {
        ghost var before := buffer;
        buffer := buffer + [v % 128 + 128];
        assert buffer[..|buffer| - 1] == before;
        v := v / 128;
      }
      buffer := buffer[|buffer| - 1 := buffer[|buffer| - 1] - 128];
      assert buffer == EncodeVarint(value);
      status := Write(buffer);
    }

    // pb_encode_string
    method WriteString(buf: Bytes) returns (status: Status)
      requires Valid()
      modifies this
      ensures Valid() && Wrote(sizing, maxSize, old(Now()), Now(), Done(PutLengthPrefixed(buf)), status)
    {
      hide EncodeVarint;
      ghost var n := EncodeVarint(|buf|);
      status := WriteVarint(|buf|);
      if status.Err? {
        WroteFirst(sizing, maxSize, old(Now()), Now(), Done(n), Done(buf), status);
        return;
      }
      ghost var mid := Now();
      status := Write(buf);
      WroteBoth(sizing, maxSize, old(Now()), mid, Now(), Done(n), Done(buf), status);
    }

    // pb_encode_tag_for_field and then the value.
    method WriteTagged(f: Field, v: Value) returns (status: Status)
      requires Valid() && ValueTyped(f.kind, v)
      modifies this
      ensures Valid() && Wrote(sizing, maxSize, old(Now()), Now(), TagValue(f, v), status)
      decreases f, 0, 0
    {
      hide EncodeVarint, EncodeValue, Wrote;
      status := WriteVarint(f.tag * 8 + WireType(f.kind));
      ghost var t, c := Done(TagFor(f)), EncodeValue(f.kind, v);
      if status.Err? {
        WroteFirst(sizing, maxSize, old(Now()), Now(), t, c, status);
        return;
      }
      ghost var mid := Now();
      status := WriteValue(f.kind, v);
      WroteBoth(sizing, maxSize, old(Now()), mid, Now(), t, c, status);
    }

    // The field encoders of PB_ENCODERS.
    method WriteValue(k: Kind, v: Value) returns (status: Status)
      requires Valid() && ValueTyped(k, v)
      modifies this
      ensures Valid() && Wrote(sizing, maxSize, old(Now()), Now(), EncodeValue(k, v), status)
      decreases k, 0
    {
      hide EncodeVarint, EncodeFixed, PutLengthPrefixed;
      match k
      case Bool => status := WriteVarint(v.n);
      case Int(size) =>
        if !ValidSize(size) { return Err(InvalidDataSize); }
        status := WriteVarint(ToUnsigned(v.n));
      case UInt(size) =>
        if !ValidSize(size) { return Err(InvalidDataSize); }
        status := WriteVarint(v.n);
      case SInt(size) =>
        if !ValidSize(size) { return Err(InvalidDataSize); }
        status := WriteVarint(ZigZag(v.n));
      case Fixed32 => status := Write(EncodeFixed32(v.n));
      case Fixed64 => status := Write(EncodeFixed64(v.n));
      case ByteArray(capacity) =>
        if |v.b| > capacity { return Err(BytesTooLong); }
        status := WriteString(v.b);
      case Str(_) => status := WriteString(v.b);
      case FixedBytes(_) => status := WriteString(v.b);
      case Submessage(fields) => status := WriteSubmessage(fields, v.slots);
    }

    // pb_encode_submessage: measure, write the length, write the message into exactly that much room.
    method WriteSubmessage(fields: seq<Field>, slots: seq<Slot>) returns (status: Status)
      requires Valid() && Typed(fields, slots)
      modifies this
      ensures Valid() && Wrote(sizing, maxSize, old(Now()), Now(), Delimited(EncodeFields(fields, slots)), status)
      decreases fields, 2
    {
      hide EncodeVarint, EncodeFields;
      ghost var c := EncodeFields(fields, slots);
      var counter := new OStream.Sizing();
      status := counter.WriteMessage(fields, slots);
      if status.Err? {
        return;
      }
      var size := counter.bytesWritten;
      status := WriteVarint(size);
      if status.Err? {
        return;
      }
      if sizing {
        bytesWritten := bytesWritten + size;
        return;
      }
      if bytesWritten + size > maxSize {
        return Err(StreamFull);
      }
      var sub := new OStream.FromBuffer(size);
      status := sub.WriteMessage(fields, slots);
      data := data + sub.data;
      bytesWritten := bytesWritten + sub.bytesWritten;
      if sub.bytesWritten != size {
        return Err(SizeChanged);
      }
      assert old(data) + (EncodeVarint(size) + c.bytes) == old(data) + EncodeVarint(size) + c.bytes;
    }

    // encode_array
    method WriteArray(f: Field, items: seq<Value>, max: nat) returns (status: Status)
      requires Valid() && f.rule == Repeated(max) && SlotTyped(f, Many(items))
      modifies this
      ensures Valid() && Wrote(sizing, maxSize, old(Now()), Now(), EncodeField(f, Many(items)), status)
      decreases f, 0, 2
    {
      hide Wrote;
      if items == [] {
        WroteNothing(sizing, maxSize, Now());
        return Ok;
      }
      if |items| > max {
        Refused(sizing, maxSize, Now(), ArrayTooLong);
        return Err(ArrayTooLong);
      }
      if Packable(f.kind) {
        status := WritePacked(f, items);
      } else {
        status := WriteUnpacked(f, items);
      }
    }

    method WritePacked(f: Field, items: seq<Value>) returns (status: Status)
      requires Valid() && Packable(f.kind) && forall i :: 0 <= i < |items| ==> ValueTyped(f.kind, items[i])
      modifies this
      ensures Valid()
      ensures Wrote(sizing, maxSize, old(Now()), Now(),
                    Join(Done(TagBytes(WT_STRING, f.tag)), Delimited(PackItems(f.kind, items))), status)
      decreases f, 0, 1
    {
      hide EncodeVarint, PackItems, Wrote;
      ghost var t, p := Done(TagBytes(WT_STRING, f.tag)), Delimited(PackItems(f.kind, items));
      status := WriteVarint(f.tag * 8 + WT_STRING);
      if status.Err? {
        WroteFirst(sizing, maxSize, old(Now()), Now(), t, p, status);
        return;
      }
      ghost var mid := Now();
      status := WritePayload(f.kind, items);
      WroteBoth(sizing, maxSize, old(Now()), mid, Now(), t, p, status);
    }

    // The length of a packed array and its entries.
    method WritePayload(k: Kind, items: seq<Value>) returns (status: Status)
      requires Valid() && Packable(k) && forall i :: 0 <= i < |items| ==> ValueTyped(k, items[i])
      modifies this
      ensures Valid() && Wrote(sizing, maxSize, old(Now()), Now(), Delimited(PackItems(k, items)), status)
      decreases k, 2
    {
      hide EncodeVarint, PackItems;
      ghost var p := PackItems(k, items);
      var size: nat;
      if k.Fixed32? {
        size := 4 * |items|;
        FixedSize(k, 4, items);
      } else if k.Fixed64? {
        size := 8 * |items|;
        FixedSize(k, 8, items);
      } else {
        var counter := new OStream.Sizing();
        status := counter.WriteItems(k, items);
        if status.Err? {
          return;
        }
        size := counter.bytesWritten;
      }
      assert p.Done? && size == |p.bytes|;
      status := WriteVarint(size);
      if status.Err? {
        return;
      }
      if sizing {
        bytesWritten := bytesWritten + size;
        return Ok;
      }
      ghost var mid := Now();
      status := WriteItems(k, items);
      WroteBoth(sizing, maxSize, old(Now()), mid, Now(), Done(EncodeVarint(size)), p, status);
    }

    // The loop over the entries of a packed array.
    method WriteItems(k: Kind, items: seq<Value>) returns (status: Status)
      requires Valid() && forall i :: 0 <= i < |items| ==> ValueTyped(k, items[i])
      modifies this
      ensures Valid() && Wrote(sizing, maxSize, old(Now()), Now(), PackItems(k, items), status)
      decreases k, 1
    {
      hide EncodeValue, Wrote;
      WroteNothing(sizing, maxSize, Now());
      ghost var done := Done([]);
      for i := 0 to |items|
        invariant Valid() && Wrote(sizing, maxSize, old(Now()), Now(), done, Ok)
        invariant done.Done? && Join(done, PackItems(k, items[i..])) == PackItems(k, items)
      {
        ghost var mid, c := Now(), EncodeValue(k, items[i]);
        ghost var more := PackItems(k, items[i + 1..]);
        assert items[i..][1..] == items[i + 1..];
        JoinAssociates(done, c, more);
        status := WriteValue(k, items[i]);
        WroteBoth(sizing, maxSize, old(Now()), mid, Now(), done, c, status);
        if status.Err? {
          WroteFirst(sizing, maxSize, old(Now()), Now(), Join(done, c), more, status);
          return;
        }
        SucceedsDone(sizing, maxSize, mid, Now(), c);
        done := Join(done, c);
      }
      JoinNothing(done);
      return Ok;
    }

    method WriteUnpacked(f: Field, items: seq<Value>) returns (status: Status)
      requires Valid() && forall i :: 0 <= i < |items| ==> ValueTyped(f.kind, items[i])
      modifies this
      ensures Valid() && Wrote(sizing, maxSize, old(Now()), Now(), TagItems(f, items), status)
      decreases f, 0, 1
    {
      hide TagValue, Wrote;
      WroteNothing(sizing, maxSize, Now());
      ghost var done := Done([]);
      for i := 0 to |items|
        invariant Valid() && Wrote(sizing, maxSize, old(Now()), Now(), done, Ok)
        invariant done.Done? && Join(done, TagItems(f, items[i..])) == TagItems(f, items)
      {
        ghost var mid, c := Now(), TagValue(f, items[i]);
        ghost var more := TagItems(f, items[i + 1..]);
        assert items[i..][1..] == items[i + 1..];
        JoinAssociates(done, c, more);
        status := WriteTagged(f, items[i]);
        WroteBoth(sizing, maxSize, old(Now()), mid, Now(), done, c, status);
        if status.Err? {
          WroteFirst(sizing, maxSize, old(Now()), Now(), Join(done, c), more, status);
          return;
        }
        SucceedsDone(sizing, maxSize, mid, Now(), c);
        done := Join(done, c);
      }
      JoinNothing(done);
      return Ok;
    }

    // encode_basic_field
    method WriteField(f: Field, s: Slot) returns (status: Status)
      requires Valid() && SlotTyped(f, s)
      modifies this
      ensures Valid() && Wrote(sizing, maxSize, old(Now()), Now(), EncodeField(f, s), status)
      decreases f, 1
    {
      hide TagValue, Wrote;
      WroteNothing(sizing, maxSize, Now());
      match f.rule
      case Required => status := WriteTagged(f, s.v);
      case Optional =>
        if s.has {
          status := WriteTagged(f, s.v);
        } else {
          status := Ok;
        }
      case Singular =>
        if Absent(f, s) {
          status := Ok;
        } else {
          status := WriteTagged(f, s.v);
        }
      case Repeated(max) => status := WriteArray(f, s.items, max);
      case Oneof(_) =>
        if s.chosen.Some? {
          status := WriteTagged(f, s.chosen.value);
        } else {
          status := Ok;
        }
    }

    // pb_encode
    method WriteMessage(fields: seq<Field>, slots: seq<Slot>) returns (status: Status)
      requires Valid() && Typed(fields, slots)
      modifies this
      ensures Valid() && Wrote(sizing, maxSize, old(Now()), Now(), EncodeFields(fields, slots), status)
      decreases fields, 1
    {
      hide EncodeField, Wrote;
      WroteNothing(sizing, maxSize, Now());
      ghost var done := Done([]);
      for i := 0 to |fields|
        invariant Valid() && Wrote(sizing, maxSize, old(Now()), Now(), done, Ok)
        invariant done.Done? && Join(done, EncodeFields(fields[i..], slots[i..])) == EncodeFields(fields, slots)
      {
        ghost var mid, c := Now(), EncodeField(fields[i], slots[i]);
        ghost var more := EncodeFields(fields[i + 1..], slots[i + 1..]);
        assert fields[i..][1..] == fields[i + 1..] && slots[i..][1..] == slots[i + 1..];
        JoinAssociates(done, c, more);
        status := WriteField(fields[i], slots[i]);
        WroteBoth(sizing, maxSize, old(Now()), mid, Now(), done, c, status);
        if status.Err? {
          WroteFirst(sizing, maxSize, old(Now()), Now(), Join(done, c), more, status);
          return;
        }
        SucceedsDone(sizing, maxSize, mid, Now(), c);
        done := Join(done, c);
      }
      JoinNothing(done);
      return Ok;
    }
  }

  lemma JoinAssociates(a: Coded, b: Coded, c: Coded)
    ensures Join(Join(a, b), c) == Join(a, Join(b, c))
  {
    if a.Done? && b.Done? && c.Done? {
      assert a.bytes + b.bytes + c.bytes == a.bytes + (b.bytes + c.bytes);
    }
  }

  lemma JoinNothing(a: Coded)
    ensures Join(a, Done([])) == a
  {
    if a.Done? {
      assert a.bytes + [] == a.bytes;
    }
  }

  lemma SucceedsDone(sizing: bool, maxSize: nat, a: State, b: State, c: Coded)
    requires Wrote(sizing, maxSize, a, b, c, Ok)
    ensures c.Done?
  {
  }

  lemma Refused(sizing: bool, maxSize: nat, a: State, e: Error)
    requires e != SizeChanged
    ensures Wrote(sizing, maxSize, a, a, Fail(e), Err(e))
  {
  }

  lemma {:induction false} FixedSize(k: Kind, n: nat, items: seq<Value>)
    requires (k.Fixed32? && n == 4) || (k.Fixed64? && n == 8)
    requires forall i :: 0 <= i < |items| ==> ValueTyped(k, items[i])
    ensures PackItems(k, items).Done? && |PackItems(k, items).bytes| == n * |items|
    decreases |items|
  {
    if items != [] {
      FixedSize(k, n, items[1..]);
    }
  }

  // pb_get_encoded_size
  method EncodedSize(fields: seq<Field>, slots: seq<Slot>) returns (status: Status, size: nat)
    requires Typed(fields, slots)
    ensures status.Ok? <==> EncodeFields(fields, slots).Done?
    ensures status.Ok? ==> size == |EncodeFields(fields, slots).bytes|
  {
    var counter := new OStream.Sizing();
    status := counter.WriteMessage(fields, slots);
    size := counter.bytesWritten;
  }

  // If sizing returns n, a buffer of at least n bytes suffices and receives exactly n bytes: the encoding.
  method EncodeMeasured(fields: seq<Field>, slots: seq<Slot>, room: nat) returns (sized: Status, status: Status, out: Bytes)
    requires Typed(fields, slots)
    ensures sized.Ok? <==> EncodeFields(fields, slots).Done?
    ensures sized.Ok? ==> status.Ok? && out == EncodeFields(fields, slots).bytes
  {
    var size;
    sized, size := EncodedSize(fields, slots);
    var stream := new OStream.FromBuffer(size + room);
    status := stream.WriteMessage(fields, slots);
    out := stream.data;
  }
}
