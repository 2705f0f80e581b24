/** What every reader of Protocol Buffers promises its writers, proved of the nanopb decoder: unknown fields are ignored
    at every depth, the last value of a field wins, split messages are merged, and required fields are required. */
module PbLaws {
  import opened InternalKeys
  import opened Coding
  import opened PbMessage
  import opened PbEncode
  import opened PbDecode
  import opened PbRoundTrip
  import opened PbWire

  // --- The whole message ---

  ghost predicate Present(fields: seq<Field>, ws: seq<Wire>, i: nat)
    requires i < |fields|
  {
    exists j :: 0 <= j < |ws| && ws[j].tag == fields[i].tag
  }

  // The first 64 required fields occur.
  ghost predicate RequiredPresent(fields: seq<Field>, ws: seq<Wire>) {
    forall i :: 0 <= i < |fields| && fields[i].rule.Required? && RequiredIndex(fields, i) < 64 ==> Present(fields, ws, i)
  }

  lemma {:induction false} NamedIff(fields: seq<Field>, ws: seq<Wire>, i: nat)
    requires SchemaOk(fields) && i < |fields|
    ensures i in Named(fields, ws) <==> Present(fields, ws, i)
    decreases ws
  {
    if ws != [] {
      NamedIff(fields, ws[1..], i);
      assert ws == [ws[0]] + ws[1..];
    }
  }

  // A message decodes exactly when each field can be stored and the required ones occur; the struct is then the
  // defaults with the fields stored one after the other.
  lemma {:induction false} DecodeReads(fields: seq<Field>, ws: seq<Wire>)
    requires SchemaOk(fields) && AllOk(ws) && AllSuit(fields, ws)
    ensures Decode(fields, Encoded(ws))
            == if RequiredPresent(fields, ws) then AbsorbAll(fields, Defaults(fields), ws) else None
  {
    hide Encoded, DecodeFields, AbsorbAll, Named, RequiredSeen, AllOk, AllSuit, SchemaOk;
    FieldsRead(fields, Defaults(fields), {}, ws, []);
    assert Encoded(ws) + [] == Encoded(ws);
    Ends(fields, Defaults(fields), ws);
    RequiredIff(fields, ws);
  }

  lemma {:induction false} RequiredIff(fields: seq<Field>, ws: seq<Wire>)
    requires SchemaOk(fields)
    ensures RequiredSeen(fields, Named(fields, ws)) <==> RequiredPresent(fields, ws)
  {
    hide Named, SchemaOk, Present;
    forall i | 0 <= i < |fields| ensures i in Named(fields, ws) <==> Present(fields, ws, i) {
      NamedIff(fields, ws, i);
    }
  }

  // --- Unknown fields ---

  // The fields without those the schema does not have, also inside submessages.
  function Strip(fields: seq<Field>, ws: seq<Wire>): seq<Wire>
    decreases ws
  {
    if ws == [] then []
    else
      var i, rest := FindTag(fields, ws[0].tag), Strip(fields, ws[1..]);
      if i == |fields| then rest else [StripOne(fields[i], ws[0])] + rest
  }

  function StripOne(f: Field, w: Wire): (r: Wire)
    ensures r.tag == w.tag
    decreases w
  {
    if w.Nested? && f.kind.Submessage? then Nested(w.tag, Strip(f.kind.fields, w.sub)) else w
  }

  lemma {:induction false} VarintGrows(a: nat, b: nat)
    requires a <= b
    ensures |EncodeVarint(a)| <= |EncodeVarint(b)|
    decreases b
  {
    if a >= 128 {
      VarintGrows(a / 128, b / 128);
    }
  }

  lemma {:induction false} StripOneKeeps(f: Field, w: Wire)
    requires WireOk(w) && Suits(f, w)
    ensures WireOk(StripOne(f, w)) && Suits(f, StripOne(f, w)) && WireTypeOf(StripOne(f, w)) == WireTypeOf(w)
    ensures |Body(StripOne(f, w))| <= |Body(w)|
    decreases w, 0
  {
    hide EncodeVarint, Encoded;
    if w.Nested? {
      StripKeeps(f.kind.fields, w.sub);
      VarintGrows(|Encoded(Strip(f.kind.fields, w.sub))|, |Encoded(w.sub)|);
    }
  }

  lemma {:induction false} StripKeeps(fields: seq<Field>, ws: seq<Wire>)
    requires AllOk(ws) && AllSuit(fields, ws)
    ensures AllOk(Strip(fields, ws)) && AllSuit(fields, Strip(fields, ws))
    ensures |Encoded(Strip(fields, ws))| <= |Encoded(ws)|
    decreases ws
  {
    hide WireOk, Suits, Body, TagBytes, StripOne;
    if ws != [] {
      var w, more := ws[0], ws[1..];
      var i := FindTag(fields, w.tag);
      assert AllOk(more) && AllSuit(fields, more);
      StripKeeps(fields, more);
      if i < |fields| {
        StripOneKeeps(fields[i], w);
        var r, rest := StripOne(fields[i], w), Strip(fields, more);
        assert Strip(fields, ws) == [r] + rest;
        assert ([r] + rest)[1..] == rest;
      }
    }
  }

  lemma {:induction false} StripOneMeans(fields: seq<Field>, slots: seq<Slot>, w: Wire)
    requires |slots| == |fields| && FindTag(fields, w.tag) < |fields|
    ensures Absorb(fields, slots, StripOne(fields[FindTag(fields, w.tag)], w)) == Absorb(fields, slots, w)
    decreases w, 0
  {
    hide AbsorbAll, Named, Stored, Storage, Numbers, RequiredSeen;
    var f := fields[FindTag(fields, w.tag)];
    if w.Nested? && f.kind.Submessage? {
      var k := f.kind;
      var r := StripOne(f, w);
      assert r == Nested(w.tag, Strip(k.fields, w.sub));
      StripMeans(k.fields, StructOf(k.fields, Storage(f, slots[FindTag(fields, w.tag)])), w.sub);
    }
  }

  lemma {:induction false} StripMeans(fields: seq<Field>, slots: seq<Slot>, ws: seq<Wire>)
    requires |slots| == |fields|
    ensures AbsorbAll(fields, slots, Strip(fields, ws)) == AbsorbAll(fields, slots, ws)
    ensures Named(fields, Strip(fields, ws)) == Named(fields, ws)
    decreases ws
  {
    hide Absorb, StripOne;
    if ws != [] {
      var w, more := ws[0], ws[1..];
      var i := FindTag(fields, w.tag);
      if i == |fields| {
        UnknownAbsorbs(fields, slots, w);
        StripMeans(fields, slots, more);
      } else {
        var r, rest := StripOne(fields[i], w), Strip(fields, more);
        assert ([r] + rest)[0] == r && ([r] + rest)[1..] == rest;
        StripOneMeans(fields, slots, w);
        var out := Absorb(fields, slots, w);
        StripMeans(fields, if out.Some? then out.value else slots, more);
      }
    }
  }

  // Fields a schema does not have, of any wire type, anywhere in a message or its submessages, do not change what it
  // decodes to.
  lemma {:induction false} UnknownFieldsAreIgnored(fields: seq<Field>, ws: seq<Wire>)
    requires SchemaOk(fields) && AllOk(ws) && AllSuit(fields, ws)
    ensures Decode(fields, Encoded(ws)) == Decode(fields, Encoded(Strip(fields, ws)))
  {
    hide Encoded, Decode, AbsorbAll, Named, AllOk, AllSuit, SchemaOk, Strip, RequiredPresent;
    StripKeeps(fields, ws);
    DecodeReads(fields, ws);
    DecodeReads(fields, Strip(fields, ws));
    StripMeans(fields, Defaults(fields), ws);
    RequiredIff(fields, ws);
    RequiredIff(fields, Strip(fields, ws));
  }

  // A zero byte where a tag could be ends the message, whatever follows it.
  lemma {:induction false} ZeroEnds(fields: seq<Field>, ws: seq<Wire>, rest: Bytes)
    requires SchemaOk(fields) && AllOk(ws) && AllSuit(fields, ws)
    ensures Decode(fields, Encoded(ws) + ([0] + rest)) == Decode(fields, Encoded(ws))
  {
    hide Encoded, DecodeFields, AbsorbAll, Named, AllOk, AllSuit, SchemaOk;
    var st := Defaults(fields);
    FieldsRead(fields, st, {}, ws, [0] + rest);
    FieldsRead(fields, st, {}, ws, []);
    assert Encoded(ws) + [] == Encoded(ws);
    var out := AbsorbAll(fields, st, ws);
    if out.Some? {
      EndsAtZero(fields, out.value, {} + Named(fields, ws), rest);
    }
  }

  lemma {:induction false} EndsAtZero(fields: seq<Field>, slots: seq<Slot>, seen: set<nat>, rest: Bytes)
    requires |slots| == |fields|
    ensures DecodeFields(fields, slots, seen, [0] + rest) == DecodeFields(fields, slots, seen, [])
  {
  }

  // --- Repeated occurrences of a field ---

  lemma {:induction false} AbsorbAppend(fields: seq<Field>, slots: seq<Slot>, a: seq<Wire>, b: seq<Wire>)
    requires |slots| == |fields|
    ensures AbsorbAll(fields, slots, a + b)
            == match AbsorbAll(fields, slots, a)
               case None => None
               case Some(out) => AbsorbAll(fields, out, b)
    ensures Named(fields, a + b) == Named(fields, a) + Named(fields, b)
    decreases a
  {
    hide Absorb;
    if a == [] {
      assert a + b == b;
    } else {
      assert (a + b)[0] == a[0] && (a + b)[1..] == a[1..] + b;
      var out := Absorb(fields, slots, a[0]);
      AbsorbAppend(fields, if out.Some? then out.value else slots, a[1..], b);
    }
  }

  // Two neighbouring fields may be replaced by one that leaves the same struct.
  lemma {:induction false} Replace(fields: seq<Field>, a: seq<Wire>, two: seq<Wire>, one: seq<Wire>, b: seq<Wire>)
    requires SchemaOk(fields) && AllOk(a + two + b) && AllSuit(fields, a + two + b)
    requires AllOk(a + one + b) && AllSuit(fields, a + one + b) && Named(fields, one) == Named(fields, two)
    requires forall st :: |st| == |fields| && AbsorbAll(fields, st, two).Some?
                          ==> AbsorbAll(fields, st, one) == AbsorbAll(fields, st, two)
    ensures Decode(fields, Encoded(a + two + b)).Some?
            ==> Decode(fields, Encoded(a + one + b)) == Decode(fields, Encoded(a + two + b))
  {
    hide Encoded, Decode, AbsorbAll, Named, AllOk, AllSuit, SchemaOk, RequiredPresent;
    DecodeReads(fields, a + two + b);
    DecodeReads(fields, a + one + b);
    RequiredIff(fields, a + two + b);
    RequiredIff(fields, a + one + b);
    var st := Defaults(fields);
    AbsorbAppend(fields, st, a + two, b);
    AbsorbAppend(fields, st, a + one, b);
    AbsorbAppend(fields, st, a, two);
    AbsorbAppend(fields, st, a, one);
  }

  predicate KeepsOne(r: Rule) {
    r.Required? || r.Singular? || r.Optional?
  }

  // Of two values of a field that keeps one, the last is what a reader sees.
  lemma {:induction false} LastOneWins(fields: seq<Field>, a: seq<Wire>, v: Wire, w: Wire, b: seq<Wire>)
    requires SchemaOk(fields) && AllOk(a + [v, w] + b) && AllSuit(fields, a + [v, w] + b)
    requires AllOk(a + [w] + b) && AllSuit(fields, a + [w] + b)
    requires v.tag == w.tag && !v.Nested? && !w.Nested? && !v.Packed? && !w.Packed?
    requires FindTag(fields, v.tag) < |fields| && KeepsOne(fields[FindTag(fields, v.tag)].rule)
    ensures Decode(fields, Encoded(a + [v, w] + b)).Some?
            ==> Decode(fields, Encoded(a + [w] + b)) == Decode(fields, Encoded(a + [v, w] + b))
  {
    hide Encoded, Decode, AllOk, AllSuit, SchemaOk, AbsorbAll;
    forall st | |st| == |fields| && AbsorbAll(fields, st, [v, w]).Some?
      ensures AbsorbAll(fields, st, [w]) == AbsorbAll(fields, st, [v, w])
    {
      Two(fields, st, v, w);
      Overwrites(fields, st, v, w);
    }
    NamedTwo(fields, v, w);
    Replace(fields, a, [v, w], [w], b);
  }

  lemma {:induction false} NamedTwo(fields: seq<Field>, v: Wire, w: Wire)
    requires v.tag == w.tag
    ensures Named(fields, [v, w]) == Named(fields, [w])
  {
    assert [v, w][1..] == [w] && [w][1..] == [];
  }

  lemma {:induction false} Two(fields: seq<Field>, st: seq<Slot>, v: Wire, w: Wire)
    requires |st| == |fields|
    ensures AbsorbAll(fields, st, [w]) == Absorb(fields, st, w)
    ensures AbsorbAll(fields, st, [v, w])
            == match Absorb(fields, st, v)
               case None => None
               case Some(out) => Absorb(fields, out, w)
  {
    hide Absorb;
    assert [v, w][1..] == [w] && [w][1..] == [];
    var out := Absorb(fields, st, v);
    if out.Some? {
      Only(fields, out.value, w);
    }
    Only(fields, st, w);
  }

  lemma {:induction false} Only(fields: seq<Field>, st: seq<Slot>, w: Wire)
    requires |st| == |fields|
    ensures AbsorbAll(fields, st, [w]) == Absorb(fields, st, w)
  {
    hide Absorb;
    assert [w][1..] == [];
    var out := Absorb(fields, st, w);
    if out.Some? {
      Done0(fields, out.value);
    }
  }

  lemma {:induction false} Done0(fields: seq<Field>, st: seq<Slot>)
    requires |st| == |fields|
    ensures AbsorbAll(fields, st, []) == Some(st)
  {
  }

  lemma {:induction false} Overwrites(fields: seq<Field>, st: seq<Slot>, v: Wire, w: Wire)
    requires |st| == |fields| && v.tag == w.tag && !v.Nested? && !w.Nested? && !v.Packed? && !w.Packed?
    requires FindTag(fields, v.tag) < |fields| && KeepsOne(fields[FindTag(fields, v.tag)].rule)
    requires Absorb(fields, st, v).Some?
    ensures Absorb(fields, Absorb(fields, st, v).value, w) == Absorb(fields, st, w)
  {
    hide Number, BlobValue, Storage, Stored;
    var i := FindTag(fields, v.tag);
    StoredTwice(fields, st, i, ValueOf(fields[i].kind, Storage(fields[i], st[i]), v).value);
  }

  // A submessage sent in two parts is the submessage of their fields in order.
  lemma {:induction false} PartsAreMerged(fields: seq<Field>, a: seq<Wire>, tag: nat, x: seq<Wire>, y: seq<Wire>, b: seq<Wire>)
    requires SchemaOk(fields)
    requires var two := a + [Nested(tag, x), Nested(tag, y)] + b; AllOk(two) && AllSuit(fields, two)
    requires var one := a + [Nested(tag, x + y)] + b; AllOk(one) && AllSuit(fields, one)
    requires FindTag(fields, tag) < |fields| && !fields[FindTag(fields, tag)].rule.Repeated?
    ensures Decode(fields, Encoded(a + [Nested(tag, x), Nested(tag, y)] + b)).Some?
            ==> Decode(fields, Encoded(a + [Nested(tag, x + y)] + b))
                == Decode(fields, Encoded(a + [Nested(tag, x), Nested(tag, y)] + b))
  {
    hide Encoded, Decode, AllOk, AllSuit, SchemaOk, AbsorbAll;
    var v, w, both := Nested(tag, x), Nested(tag, y), Nested(tag, x + y);
    forall st | |st| == |fields| && AbsorbAll(fields, st, [v, w]).Some?
      ensures AbsorbAll(fields, st, [both]) == AbsorbAll(fields, st, [v, w])
    {
      Two(fields, st, v, w);
      Only(fields, st, both);
      Merges(fields, st, tag, x, y);
    }
    NamedTwo(fields, v, w);
    NamedTwo(fields, both, w);
    NamedTwo(fields, w, both);
    Replace(fields, a, [v, w], [both], b);
  }

  lemma {:induction false} Merges(fields: seq<Field>, st: seq<Slot>, tag: nat, x: seq<Wire>, y: seq<Wire>)
    requires |st| == |fields| && FindTag(fields, tag) < |fields| && !fields[FindTag(fields, tag)].rule.Repeated?
    requires var first := Absorb(fields, st, Nested(tag, x));
             first.Some? && Absorb(fields, first.value, Nested(tag, y)).Some?
    ensures Absorb(fields, st, Nested(tag, x + y))
            == Absorb(fields, Absorb(fields, st, Nested(tag, x)).value, Nested(tag, y))
  {
    hide AbsorbAll, Named, RequiredSeen, Defaults;
    var i := FindTag(fields, tag);
    var f := fields[i];
    var k := f.kind;
    var start := StructOf(k.fields, Storage(f, st[i]));
    AbsorbAppend(k.fields, start, x, y);
    SeenGrows(k.fields, Named(k.fields, x), Named(k.fields, x + y));
    SeenGrows(k.fields, Named(k.fields, y), Named(k.fields, x + y));
    var out := AbsorbAll(k.fields, start, x).value;
    var mid := Stored(fields, st, i, Message(out));
    assert Storage(f, mid[i]) == Message(out);
    StoredTwice(fields, st, i, Message(out));
  }

  lemma {:induction false} SeenGrows(fields: seq<Field>, seen: set<nat>, more: set<nat>)
    requires seen <= more && RequiredSeen(fields, seen)
    ensures RequiredSeen(fields, more)
  {
  }

  lemma {:induction false} StoredTwice(fields: seq<Field>, st: seq<Slot>, i: nat, v: Value)
    requires |st| == |fields| && i < |fields| && !fields[i].rule.Repeated?
    ensures forall w :: Stored(fields, Stored(fields, st, i, v), i, w) == Stored(fields, st, i, w)
  {
    forall w ensures Stored(fields, Stored(fields, st, i, v), i, w) == Stored(fields, st, i, w) {
      if fields[i].rule.Oneof? {
        assert Choose(fields, Choose(fields, st, i, v), i, w) == Choose(fields, st, i, w);
      } else {
        assert Stored(fields, Stored(fields, st, i, v), i, w) == Stored(fields, st, i, w);
      }
    }
  }

  // --- The specification's own examples ---

  // The numbers in the examples of the Protocol Buffers Encoding specification.
  lemma {:induction false} ExampleVarints()
    ensures EncodeVarint(150) == [0x96, 0x01] && EncodeVarint(270) == [0x8E, 0x02] && EncodeVarint(3) == [0x03]
    ensures EncodeVarint(86942) == [0x9E, 0xA7, 0x05]
  {
    assert EncodeVarint(1) == [1] && EncodeVarint(2) == [2] && EncodeVarint(5) == [5];
    assert EncodeVarint(679) == [0xA7] + EncodeVarint(5);
    assert EncodeVarint(86942) == [0x9E] + EncodeVarint(679);
  }

  // 150 in field 1, and 3, 270 and 86942 packed in field 6.
  lemma {:induction false} ExampleMessages()
    ensures TagValue(Field(1, Required, Int(4), Num(0)), Num(150)) == Done([0x08, 0x96, 0x01])
    ensures EncodeField(Field(6, Repeated(3), Int(4), Num(0)), Many([Num(3), Num(270), Num(86942)]))
            == Done([0x32, 0x06, 0x03, 0x8E, 0x02, 0x9E, 0xA7, 0x05])
  {
    hide EncodeVarint;
    ExampleVarints();
    ExampleTags();
    var items := [Num(3), Num(270), Num(86942)];
    ExamplePacked(items);
  }

  lemma {:induction false} ExampleTags()
    ensures EncodeVarint(8) == [0x08] && EncodeVarint(0x32) == [0x32] && EncodeVarint(6) == [0x06]
  {
  }

  lemma {:induction false} ExamplePacked(items: seq<Value>)
    requires items == [Num(3), Num(270), Num(86942)]
    ensures PackItems(Int(4), items) == Done([0x03, 0x8E, 0x02, 0x9E, 0xA7, 0x05])
  {
    hide EncodeVarint;
    ExampleVarints();
    assert items[1..] == [Num(270), Num(86942)] && items[1..][1..] == [Num(86942)] && items[1..][1..][1..] == [];
    assert PackItems(Int(4), items[1..][1..]) == Done([0x9E, 0xA7, 0x05]);
    assert PackItems(Int(4), items[1..]) == Done([0x8E, 0x02, 0x9E, 0xA7, 0x05]);
  }

  // The table of ZigZag numbers.
  lemma {:induction false} ExampleZigZag()
    ensures ZigZag(0) == 0 && ZigZag(-1) == 1 && ZigZag(1) == 2 && ZigZag(-2) == 3
    ensures ZigZag(0x7FFF_FFFF) == 0xFFFF_FFFE && ZigZag(-0x8000_0000) == 0xFFFF_FFFF
  {
  }
}
