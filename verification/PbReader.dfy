/** The nanopb input stream, field iterator and decoding loops (pb_decode.c, pb_common.c), proved against the functions
    of PbDecode. */
module PbReader {
  import opened InternalKeys
  import opened Coding
  import opened PbMessage
  import opened PbDecode

  // --- pb_field_iter_t ---

  class FieldIter {
    const fields: seq<Field>
    var pos: nat
    var requiredIndex: nat

    ghost predicate Valid()
      reads this
    {
      && (if fields == [] then pos == 0 else pos < |fields|)
      && requiredIndex == RequiredIndex(fields, pos)
    }

    constructor (fields: seq<Field>)
      ensures Valid() && this.fields == fields && pos == 0
    {
      this.fields := fields;
      pos, requiredIndex := 0, 0;
    }

    // Past the last field the iterator wraps to the first and returns false.
    method Next() returns (more: bool)
      requires Valid()
      modifies this
      ensures Valid() && (more <==> old(pos) + 1 < |fields|) && pos == if more then old(pos) + 1 else 0
    {
      if fields == [] {
        return false;
      }
      if pos + 1 == |fields| {
        pos, requiredIndex := 0, 0;
        return false;
      }
      if fields[pos].rule.Required? {
        requiredIndex := requiredIndex + 1;
      }
      pos := pos + 1;
      return true;
    }

    // Runs to the last field to count the required ones.
    method CountRequired() returns (count: nat)
      requires Valid()
      modifies this
      ensures count == RequiredIndex(fields, |fields|)
    {
      if fields == [] {
        return 0;
      }
      var lastRequired := fields[pos].rule.Required?;
      count := requiredIndex;
      var more := Next();
      while more
        invariant Valid() && (!more ==> count == RequiredIndex(fields, |fields| - 1))
        invariant !more ==> lastRequired == fields[|fields| - 1].rule.Required?
        decreases if more then |fields| - pos else 0
      {
        count, lastRequired := requiredIndex, fields[pos].rule.Required?;
        more := Next();
      }
      if lastRequired {
        count := count + 1;
      }
    }

    // The wrap-around search visits every field once.
    method Find(tag: nat) returns (found: bool)
      requires Valid()
      modifies this
      ensures Valid()
      ensures found ==> pos < |fields| && fields[pos].tag == tag
      ensures !found ==> forall i :: 0 <= i < |fields| ==> fields[i].tag != tag
    {
      if fields == [] {
        return false;
      }
      var start := pos;
      var wrapped := false;
      while true
        invariant Valid() && start < |fields| && (wrapped ==> pos < start) && (!wrapped ==> start <= pos)
        invariant forall i :: start <= i < (if wrapped then |fields| else pos) ==> fields[i].tag != tag
        invariant wrapped ==> forall i :: 0 <= i < pos ==> fields[i].tag != tag
        decreases if wrapped then start - pos else start + |fields| - pos
      {
        if fields[pos].tag == tag {
          return true;
        }
        var more := Next();
        if !more {
          wrapped := true;
        }
        if pos == start {
          return false;
        }
      }
    }
  }

  // --- pb_istream_t over a buffer ---

  class IStream {
    var input: Bytes

    constructor (input: Bytes)
      ensures this.input == input
    {
      this.input := input;
    }

    method ReadByte() returns (r: Option<Byte>)
      modifies this
      ensures old(input) == [] ==> r == None && input == []
      ensures old(input) != [] ==> r == Some(old(input)[0]) && input == old(input)[1..]
    {
      if input == [] {
        return None;
      }
      r := Some(input[0]);
      input := input[1..];
    }

    method Read(n: nat) returns (r: Option<Bytes>)
      modifies this
      ensures match Take(old(input), n)
              case Bad => r == None
              case Good(b, rest) => r == Some(b) && input == rest
    {
      if |input| < n {
        return None;
      }
      r := Some(input[..n]);
      input := input[n..];
    }

    // pb_decode_varint32_eof; group is bitpos / 7.
    method ReadVarint32() returns (r: Option<Word32>)
      modifies this
      ensures match Varint32(old(input))
              case Bad => r == None
              case Good(n, rest) => r == Some(n) && input == rest
    {
      var byte := ReadByte();
      if byte.None? {
        return None;
      }
      if byte.value < 128 {
        return Some(byte.value);
      }
      var group: nat, result: Word32 := 1, byte.value - 128;
      while true
        invariant Varint32Tail(input, group, result) == Varint32(old(input))
        decreases |input|
      {
        var next := ReadByte();
        if next.None? {
          return None;
        }
        var b := next.value;
        if 7 * group >= 32 {
          var signExtension := if 7 * group < 63 then 255 else 1;
          if b % 128 != 0 && (result < 0x8000_0000 || b != signExtension) {
            return None;
          }
        } else {
          result := (result + b % 128 * Pow128(group)) % TWO32;
        }
        group := group + 1;
        if b < 128 {
          if group == 5 && b % 128 >= 16 {
            return None;
          }
          return Some(result);
        }
      }
    }

    // pb_decode_varint
    method ReadVarint64() returns (r: Option<Word64>)
      modifies this
      ensures match VarintBytes(old(input))
              case Bad => r == None
              case Good(n, rest) => r == Some(n) && input == rest
    {
      var parsed := ReadVarint(input, 10);
      match parsed
      case Bad => return None;
      case Good(n, rest) =>
        input := rest;
        return Some(n % TWO64);
    }

    // pb_make_string_substream
    method MakeSubstream() returns (r: Option<Bytes>)
      modifies this
      ensures match Substream(old(input))
              case Bad => r == None
              case Good(b, rest) => r == Some(b) && input == rest
    {
      hide Varint32;
      var size := ReadVarint32();
      if size.None? {
        return None;
      }
      r := Read(size.value);
    }

    method Skip(wireType: nat) returns (ok: bool)
      modifies this
      ensures match SkipField(wireType, old(input))
              case Bad => !ok
              case Good(_, rest) => ok && input == rest
    {
      hide Varint32, Substream;
      if wireType == WT_VARINT {
        while true
          invariant SkipVarint(input) == SkipVarint(old(input))
          decreases |input|
        {
          var byte := ReadByte();
          if byte.None? {
            return false;
          }
          if byte.value < 128 {
            return true;
          }
        }
      } else if wireType == WT_64BIT {
        var b := Read(8);
        return b.Some?;
      } else if wireType == WT_STRING {
        var b := MakeSubstream();
        return b.Some?;
      } else if wireType == WT_32BIT {
        var b := Read(4);
        return b.Some?;
      }
      return false;
    }

    // The field decoders of PB_DECODERS except the submessage one.
    method ReadScalar(k: Kind) returns (r: Option<Value>)
      requires !k.Submessage?
      modifies this
      ensures match DecodeScalar(k, old(input))
              case Bad => r == None
              case Good(v, rest) => r == Some(v) && input == rest
    {
      hide Varint32, VarintBytes, DecodeFixed;
      if k.Bool? || k.ByteArray? || k.Str? || k.FixedBytes? {
        var size := ReadVarint32();
        if size.None? {
          return None;
        }
        if k.Bool? {
          return Some(Num(if size.value != 0 then 1 else 0));
        }
        r := ReadBlob(k, size.value);
      } else if k.Fixed32? || k.Fixed64? {
        var b := Read(if k.Fixed32? then 4 else 8);
        return if b.None? then None else Some(Num(DecodeFixed(b.value)));
      } else {
        var value := ReadVarint64();
        if value.None? {
          return None;
        }
        var checked := DecodeInt(k, value.value, input);
        return if checked.Bad? then None else Some(checked.value);
      }
    }

    // pb_dec_bytes, pb_dec_string and pb_dec_fixed_length_bytes after the length.
    method ReadBlob(k: Kind, size: nat) returns (r: Option<Value>)
      requires k.ByteArray? || k.Str? || k.FixedBytes?
      modifies this
      ensures match BlobOf(k, size, old(input))
              case Bad => r == None
              case Good(v, rest) => r == Some(v) && input == rest
    {
      if k.ByteArray? && size > k.capacity {
        return None;
      }
      if k.Str? && size + 1 > k.dataSize {
        return None;
      }
      if k.FixedBytes? {
        if size == 0 {
          return Some(Blob(seq(k.length, _ => 0)));
        }
        if size != k.length {
          return None;
        }
      }
      var b := Read(size);
      return if b.None? then None else Some(Blob(if k.Str? then CString(b.value) else b.value));
    }

    // pb_dec_submessage, or a scalar.
    method ReadValue(k: Kind, storage: Value) returns (r: Option<Value>)
      requires KindOk(k)
      modifies this
      ensures match DecodeValue(k, storage, old(input))
              case Bad => r == None
              case Good(v, rest) => r == Some(v) && input == rest
      decreases |input|, 0
    {
      hide DecodeFields, Varint32, DecodeScalar;
      if k.Submessage? {
        var sub := MakeSubstream();
        if sub.None? {
          return None;
        }
        var stream := new IStream(sub.value);
        var slots := stream.DecodeNoInit(k.fields, StructOf(k.fields, storage));
        return if slots.None? then None else Some(Message(slots.value));
      }
      r := ReadScalar(k);
    }

    // The packed-array loop of decode_static_field on the substream.
    method ReadPacked(k: Kind, max: nat, items: seq<Value>) returns (r: Option<seq<Value>>)
      requires !k.Submessage?
      modifies this
      ensures r == Unpack(k, max, items, old(input))
    {
      hide DecodeScalar;
      var all := items;
      while input != [] && |all| < max
        invariant Unpack(k, max, all, input) == Unpack(k, max, items, old(input))
        decreases |input|
      {
        var v := ReadScalar(k);
        if v.None? {
          return None;
        }
        all := all + [v.value];
      }
      return if input != [] then None else Some(all);
    }

    // decode_static_field
    method ReadField(fields: seq<Field>, slots: seq<Slot>, i: nat, wireType: nat) returns (r: Option<seq<Slot>>)
      requires SchemaOk(fields) && |slots| == |fields| && i < |fields|
      modifies this
      ensures match DecodeField(fields, slots, i, wireType, old(input))
              case Bad => r == None
              case Good(slots', rest) => r == Some(slots') && input == rest
      decreases |input|, 1
    {
      hide DecodeValue, Varint32, Unpack, Stored;
      var f := fields[i];
      assert FieldOk(f);
      if f.rule.Repeated? && wireType == WT_STRING && Packable(f.kind) {
        var sub := MakeSubstream();
        if sub.None? {
          return None;
        }
        var stream := new IStream(sub.value);
        var items := stream.ReadPacked(f.kind, f.rule.max, Items(slots[i]));
        return if items.None? then None else Some(slots[i := Many(items.value)]);
      }
      if f.rule.Repeated? && |Items(slots[i])| >= f.rule.max {
        return None;
      }
      var v := ReadValue(f.kind, Storage(f, slots[i]));
      return if v.None? then None else Some(Stored(fields, slots, i, v.value));
    }

    // pb_decode_noinit: fields are looked up from where the last one was found, and required ones are ticked off in a
    // bitmap by their rank.
    method DecodeNoInit(fields: seq<Field>, slots: seq<Slot>) returns (r: Option<seq<Slot>>)
      requires SchemaOk(fields) && |slots| == |fields|
      modifies this
      ensures r == DecodeFields(fields, slots, {}, old(input))
      decreases |input|, 2
    {
      hide Varint32, DecodeField, SkipField;
      var dest, fieldsSeen: set<nat> := slots, {};
      ghost var seen: set<nat> := {};
      var it := new FieldIter(fields);
      while input != []
        invariant |dest| == |fields| && it.Valid() && it.fields == fields && fresh(it)
        invariant fieldsSeen == Ranks(fields, seen) && |input| <= |old(input)|
        invariant DecodeFields(fields, dest, seen, input) == DecodeFields(fields, slots, {}, old(input))
        decreases |input|
      {
        var t := ReadVarint32();
        if t.None? {
          return None;
        }
        if t.value == 0 {
          break;
        }
        var found := it.Find(t.value / 8);
        if !found {
          assert FindTag(fields, t.value / 8) == |fields|;
          var ok := Skip(t.value % 8);
          if !ok {
            return None;
          }
        } else {
          var i := it.pos;
          TagPosition(fields, t.value / 8, i);
          if fields[i].rule.Required? && it.requiredIndex < MAX_REQUIRED_FIELDS {
            fieldsSeen := fieldsSeen + {it.requiredIndex};
          }
          AddRank(fields, seen, i);
          var decoded := ReadField(fields, dest, i, t.value % 8);
          if decoded.None? {
            return None;
          }
          dest, seen := decoded.value, seen + {i};
        }
      }
      var count := it.CountRequired();
      RanksComplete(fields, seen);
      if forall rank :: 0 <= rank < count && rank < MAX_REQUIRED_FIELDS ==> rank in fieldsSeen {
        return Some(dest);
      }
      return None;
    }

    // pb_decode
    method Decode(fields: seq<Field>) returns (r: Option<seq<Slot>>)
      requires SchemaOk(fields)
      modifies this
      ensures r == PbDecode.Decode(fields, old(input))
    {
      r := DecodeNoInit(fields, Defaults(fields));
    }
  }

  // --- The bitmap of required fields ---

  // The ranks, among required fields, of the fields seen.
  ghost function Ranks(fields: seq<Field>, seen: set<nat>): set<nat> {
    set i | i in seen && Counted(fields, i) :: RequiredIndex(fields, i)
  }

  ghost predicate Counted(fields: seq<Field>, i: nat) {
    i < |fields| && fields[i].rule.Required? && RequiredIndex(fields, i) < MAX_REQUIRED_FIELDS
  }

  lemma {:induction false} AddRank(fields: seq<Field>, seen: set<nat>, i: nat)
    ensures Ranks(fields, seen + {i})
            == if Counted(fields, i) then Ranks(fields, seen) + {RequiredIndex(fields, i)} else Ranks(fields, seen)
  {
  }

  lemma {:induction false} TagPosition(fields: seq<Field>, tag: nat, i: nat)
    requires SchemaOk(fields) && i < |fields| && fields[i].tag == tag
    ensures FindTag(fields, tag) == i
  {
  }

  lemma {:induction false} RankGrows(fields: seq<Field>, i: nat, j: nat)
    requires i < j <= |fields|
    ensures RequiredIndex(fields, i) <= RequiredIndex(fields, j)
    ensures fields[i].rule.Required? ==> RequiredIndex(fields, i) < RequiredIndex(fields, j)
    decreases j
  {
    if i < j - 1 {
      RankGrows(fields, i, j - 1);
    }
  }

  // Every rank below the count belongs to a required field.
  lemma {:induction false} RankTaken(fields: seq<Field>, n: nat, rank: nat) returns (i: nat)
    requires n <= |fields| && rank < RequiredIndex(fields, n)
    ensures i < n && fields[i].rule.Required? && RequiredIndex(fields, i) == rank
    decreases n
  {
    if RequiredIndex(fields, n - 1) == rank {
      i := n - 1;
    } else {
      i := RankTaken(fields, n - 1, rank);
    }
  }

  // All ranks are ticked off exactly when all of the first 64 required fields were seen.
  lemma {:induction false} RanksComplete(fields: seq<Field>, seen: set<nat>)
    ensures RequiredSeen(fields, seen)
            <==> forall rank :: 0 <= rank < RequiredIndex(fields, |fields|) && rank < MAX_REQUIRED_FIELDS
                                ==> rank in Ranks(fields, seen)
  {
    var ranks, count := Ranks(fields, seen), RequiredIndex(fields, |fields|);
    if RequiredSeen(fields, seen) {
      forall rank | 0 <= rank < count && rank < MAX_REQUIRED_FIELDS ensures rank in ranks {
        var i := RankTaken(fields, |fields|, rank);
        assert i in seen && Counted(fields, i);
      }
    }
    if forall rank :: 0 <= rank < count && rank < MAX_REQUIRED_FIELDS ==> rank in ranks {
      forall i | 0 <= i < |fields| && Counted(fields, i) ensures i in seen {
        RankGrows(fields, i, |fields|);
        assert RequiredIndex(fields, i) in ranks;
        var j :| j in seen && Counted(fields, j) && RequiredIndex(fields, j) == RequiredIndex(fields, i);
        if i < j {
          RankGrows(fields, i, j);
        } else if j < i {
          RankGrows(fields, j, i);
        }
      }
    }
  }
}
