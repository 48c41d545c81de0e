/** The records that pb_encode writes: which fields of a structure, with what, and in what form. */
module WrittenRecords {
  import opened Wrappers
  import opened Schema
  import opened Varint
  import opened Streams
  import opened OutputStreams
  import opened WireFormat
  import opened WireReader
  import opened Merging
  import opened RoundTrip
  import opened Compatibility
  import opened Concatenation
  import opened Records
  import opened Occurrences

  // ----- What should be written -----

  /** A value that a field without presence is not written for: the number zero, no bytes, or a structure for which
      nothing would be written.  An array without a count is never nothing, not even one without items. */
  predicate Vanishes(f: Field, v: Val)
    decreases f, 0
  {
    match f.ltype
    case BYTES => v == BytesVal([])
    case STRING => v == BytesVal([])
    case FIXED_LENGTH_BYTES => f.dataSize == 0
    case SUBMESSAGE => v.MsgVal? && |v.m| == |f.sub| && Written(f.sub, v.m) == [] && NoFixedCount(f.sub)
    case _ => v == IntVal(0)
  }

  function ItemRecord(f: Field, i: nat, v: Val): Record
    decreases f, 0
  {
    if v.MsgVal? && |v.m| == |f.sub| then Nested(i, Written(f.sub, v.m)) else Plain(i, v)
  }

  /** The records of field `i`: one for each item, or one for a whole array of numbers. */
  function WrittenField(schema: seq<Field>, m: Message, i: nat): seq<Record>
    requires i < |schema| == |m|
    decreases schema, 0
  {
    var f := schema[i];
    match f.htype
    case REQUIRED => [ItemRecord(f, i, ItemOf(m[i]))]
    case OPTIONAL =>
      if (if f.sizeOffset != 0 then m[i].Opt? && m[i].has else !Vanishes(f, ItemOf(m[i]))) then
        [ItemRecord(f, i, ItemOf(m[i]))]
      else []
    case REPEATED => ArrayRecords(f, i, ItemsOf(m[i]))
    case ONEOF =>
      var u := m[Leader(schema, i)];
      if u.Union? && u.which == f.tag then [ItemRecord(f, i, u.v)] else []
  }

  function ArrayRecords(f: Field, i: nat, items: seq<Val>): seq<Record>
    decreases f, 1
  {
    if items == [] then []
    else if Packable(f.ltype) then [Packed(i, items)]
    else seq(|items|, k requires 0 <= k < |items| => ItemRecord(f, i, items[k]))
  }

  function WrittenFrom(schema: seq<Field>, m: Message, i: nat): seq<Record>
    requires i <= |schema| == |m|
    decreases schema, 1, |schema| - i
  {
    if i == |schema| then [] else WrittenField(schema, m, i) + WrittenFrom(schema, m, i + 1)
  }

  function Written(schema: seq<Field>, m: Message): seq<Record>
    requires |m| == |schema|
    decreases schema, 2
  {
    WrittenFrom(schema, m, 0)
  }

  // ----- Fields without presence -----

  /** pb_check_proto3_default_value says so exactly of those values. */
  lemma {:induction false} ZeroVanishes(f: Field, v: Val)
    requires FieldOk(f) && ValOk(f, v)
    ensures IsZero(f, v) <==> Vanishes(f, v)
    decreases f, 0
  {
    match f.ltype
    case SUBMESSAGE => NothingWritten(f.sub, v.m);
    case STRING => CStringWhole(v.b, f.dataSize);
    case _ =>
  }

  lemma {:induction false} NothingWritten(schema: seq<Field>, m: Message)
    requires SchemaOk(schema) && NormalForm(schema, m)
    ensures AllZero(schema, m) <==> Written(schema, m) == [] && NoFixedCount(schema)
    decreases schema, 3
  {
    if Written(schema, m) == [] && NoFixedCount(schema) {
      forall i | 0 <= i < |schema| ensures IsProto3Default(schema, i, m) {
        UnwrittenIsZero(schema, m, i);
      }
    }
    if AllZero(schema, m) {
      ZeroIsUnwritten(schema, m);
    }
  }

  lemma {:induction false} UnwrittenIsZero(schema: seq<Field>, m: Message, i: nat)
    requires SchemaOk(schema) && NormalForm(schema, m) && i < |schema|
    requires Written(schema, m) == [] && NoFixedCount(schema)
    ensures IsProto3Default(schema, i, m)
    decreases schema, 2
  {
    NoneFrom(schema, m, 0, i);
    FieldNotWritten(schema, m, i);
    if schema[i].htype.ONEOF? && !NoMember(schema, m, i) {
      var j := MemberWritten(schema, m, i);
      NoneFrom(schema, m, 0, j);
    }
  }

  lemma {:induction false} ZeroIsUnwritten(schema: seq<Field>, m: Message)
    requires SchemaOk(schema) && NormalForm(schema, m) && AllZero(schema, m)
    ensures Written(schema, m) == [] && NoFixedCount(schema)
    decreases schema, 2
  {
    forall i | 0 <= i < |schema| ensures Unwritten(schema, m, i) && !FixedCount(schema[i]) {
      FieldNotWritten(schema, m, i);
    }
    EmptyFrom(schema, m, 0);
  }

  predicate NoMember(schema: seq<Field>, m: Message, i: nat)
    requires i < |schema| == |m|
  {
    m[Leader(schema, i)].Union? && m[Leader(schema, i)].which == 0
  }

  /** A union that holds a member is written, by the descriptor of that member. */
  lemma {:induction false} MemberWritten(schema: seq<Field>, m: Message, i: nat) returns (j: nat)
    requires SchemaOk(schema) && NormalForm(schema, m) && i < |schema| && schema[i].htype.ONEOF?
    requires !NoMember(schema, m, i)
    ensures j < |schema| && !Unwritten(schema, m, j)
  {
    var l := Leader(schema, i);
    assert SlotOk(schema, l, m[l]);
    j := FindTag(schema, m[l].which);
    assert |WrittenField(schema, m, j)| == 1;
  }

  predicate Unwritten(schema: seq<Field>, m: Message, i: nat)
    requires i < |schema| == |m|
  {
    WrittenField(schema, m, i) == []
  }

  lemma {:induction false} NoneFrom(schema: seq<Field>, m: Message, i: nat, j: nat)
    requires i <= j < |schema| == |m| && WrittenFrom(schema, m, i) == []
    ensures Unwritten(schema, m, j)
    decreases |schema| - i
  {
    EmptyStep(schema, m, i);
    if i < j {
      NoneFrom(schema, m, i + 1, j);
    }
  }

  lemma {:induction false} EmptyFrom(schema: seq<Field>, m: Message, i: nat)
    requires i <= |schema| == |m| && forall j | i <= j < |schema| :: Unwritten(schema, m, j)
    ensures WrittenFrom(schema, m, i) == []
    decreases |schema| - i
  {
    if i < |schema| {
      EmptyFrom(schema, m, i + 1);
      EmptyStep(schema, m, i);
    }
  }

  lemma EmptyStep(schema: seq<Field>, m: Message, i: nat)
    requires i < |schema| == |m|
    ensures WrittenFrom(schema, m, i) == [] <==> Unwritten(schema, m, i) && WrittenFrom(schema, m, i + 1) == []
  {
    EmptySum(WrittenField(schema, m, i), WrittenFrom(schema, m, i + 1));
  }

  lemma EmptySum(a: seq<Record>, b: seq<Record>)
    ensures a + b == [] <==> a == [] && b == []
  {
    if a + b == [] { assert |a| + |b| == 0; }
  }

  lemma {:induction false} FieldNotWritten(schema: seq<Field>, m: Message, i: nat)
    requires SchemaOk(schema) && NormalForm(schema, m) && i < |schema|
    ensures if schema[i].htype.ONEOF? then IsProto3Default(schema, i, m) <==> NoMember(schema, m, i)
            else IsProto3Default(schema, i, m) <==> Unwritten(schema, m, i) && !FixedCount(schema[i])
    ensures schema[i].htype.ONEOF? ==> (NoMember(schema, m, i) ==> Unwritten(schema, m, i))
    decreases schema, 1
  {
    var f := schema[i];
    assert FieldOk(f) && SlotOk(schema, i, m[i]);
    if f.htype.OPTIONAL? && f.sizeOffset == 0 {
      ZeroVanishes(f, m[i].v);
    }
  }

  // ----- The records of what is written -----

  function Before(rs: seq<Record>, p: Parse<seq<Record>>): Parse<seq<Record>> {
    if p.Done? then Done(rs + p.v, p.rest) else Fail
  }

  lemma HeaderRecord(schema: seq<Field>, i: nat, wireType: nat, s: Bytes, r: Record, t: Bytes)
    requires SchemaOk(schema) && i < |schema| && wireType < 8
    requires FieldRecord(schema, i, wireType, s) == Done(r, t)
    ensures RecordsOf(schema, EncTag(wireType, schema[i].tag) + s) == Before([r], RecordsOf(schema, t))
  {
    assert FieldOk(schema[i]);
    TagRoundTrip(schema[i].tag, wireType, s);
    FindTagAt(schema, i);
  }

  /** One item without its tag. */
  lemma {:induction false} ItemIsRecord(schema: seq<Field>, i: nat, v: Val, t: Bytes)
    requires SchemaOk(schema) && i < |schema| && ValOk(schema[i], v)
    requires schema[i].htype.REPEATED? ==> !Packable(schema[i].ltype)
    requires EncVal(schema[i], v).Some? && |EncVal(schema[i], v).value| < 0x1_0000_0000
    ensures var f := schema[i];
            FieldRecord(schema, i, WireType(f.ltype), EncVal(f, v).value + t) == Done(ItemRecord(f, i, v), t)
    decreases schema, 0, 0
  {
    var f := schema[i];
    assert FieldOk(f);
    if f.ltype.SUBMESSAGE? {
      assert NormalForm(f.sub, v.m);
      DelimitTail(Encode(f.sub, v.m).value, t);
      EncodedRecords(f.sub, v.m);
    } else {
      ValRoundTrip(f, v, IntVal(0));
      DecValExtend(f, EncVal(f, v).value, IntVal(0), t);
      assert [] + t == t;
      assert !v.MsgVal?;
    }
  }

  lemma {:induction false} TaggedRecord(schema: seq<Field>, i: nat, v: Val, t: Bytes)
    requires SchemaOk(schema) && i < |schema| && ValOk(schema[i], v)
    requires schema[i].htype.REPEATED? ==> !Packable(schema[i].ltype)
    requires Tagged(schema[i], v).Some? && |Tagged(schema[i], v).value| < 0x1_0000_0000
    ensures RecordsOf(schema, Tagged(schema[i], v).value + t)
            == Before([ItemRecord(schema[i], i, v)], RecordsOf(schema, t))
    decreases schema, 0, 1
  {
    var f := schema[i];
    var b := EncVal(f, v).value;
    ItemIsRecord(schema, i, v, t);
    assert Tagged(f, v).value + t == EncTag(WireType(f.ltype), f.tag) + (b + t);
    HeaderRecord(schema, i, WireType(f.ltype), b + t, ItemRecord(f, i, v), t);
  }

  /** All items of an array in one payload. */
  lemma {:induction false} PackedRecord(f: Field, items: seq<Val>)
    requires Packable(f.ltype) && FieldOk(f) && forall k | 0 <= k < |items| :: ValOk(f, items[k])
    requires EncPacked(f, items).Some? && |EncPacked(f, items).value| < 0x1_0000_0000
    ensures PackedValues(f, EncPacked(f, items).value) == Some(items)
    decreases |items|
  {
    if items != [] {
      var b, t := EncVal(f, items[0]).value, EncPacked(f, items[1..]).value;
      ValRoundTrip(f, items[0], IntVal(0));
      DecValExtend(f, b, IntVal(0), t);
      assert [] + t == t;
      PackedRecord(f, items[1..]);
      assert [items[0]] + items[1..] == items;
    }
  }

  lemma {:induction false} UnpackedRecords(schema: seq<Field>, i: nat, items: seq<Val>, t: Bytes)
    requires SchemaOk(schema) && i < |schema| && schema[i].htype.REPEATED? && !Packable(schema[i].ltype)
    requires forall k | 0 <= k < |items| :: ValOk(schema[i], items[k])
    requires EncUnpacked(schema[i], items).Some? && |EncUnpacked(schema[i], items).value| < 0x1_0000_0000
    ensures RecordsOf(schema, EncUnpacked(schema[i], items).value + t)
            == Before(ArrayRecords(schema[i], i, items), RecordsOf(schema, t))
    decreases schema, 1, |items|
  {
    var f := schema[i];
    if items == [] {
      assert [] + t == t;
      BeforeNothing(RecordsOf(schema, t));
    } else {
      var a, b := Tagged(f, items[0]).value, EncUnpacked(f, items[1..]).value;
      assert a + b + t == a + (b + t);
      TaggedRecord(schema, i, items[0], b + t);
      UnpackedRecords(schema, i, items[1..], t);
      ArrayFirst(f, i, items);
      BeforeBefore([ItemRecord(f, i, items[0])], ArrayRecords(f, i, items[1..]), RecordsOf(schema, t));
    }
  }

  lemma ArrayFirst(f: Field, i: nat, items: seq<Val>)
    requires items != [] && !Packable(f.ltype)
    ensures ArrayRecords(f, i, items) == [ItemRecord(f, i, items[0])] + ArrayRecords(f, i, items[1..])
  {}

  lemma BeforeNothing(p: Parse<seq<Record>>)
    ensures Before([], p) == p
  {
    if p.Done? { assert [] + p.v == p.v; }
  }

  lemma BeforeBefore(a: seq<Record>, b: seq<Record>, p: Parse<seq<Record>>)
    ensures Before(a, Before(b, p)) == Before(a + b, p)
  {
    if p.Done? { assert a + (b + p.v) == a + b + p.v; }
  }

  /** An array of numbers is one record, whatever its length is. */
  lemma {:induction false} ArrayIsRecords(schema: seq<Field>, i: nat, items: seq<Val>, t: Bytes)
    requires SchemaOk(schema) && i < |schema| && schema[i].htype.REPEATED? && ItemsOk(schema[i], items)
    requires EncArray(schema[i], items).Some? && |EncArray(schema[i], items).value| < 0x1_0000_0000
    ensures RecordsOf(schema, EncArray(schema[i], items).value + t)
            == Before(ArrayRecords(schema[i], i, items), RecordsOf(schema, t))
    decreases schema, 2
  {
    var f := schema[i];
    if items == [] {
      assert [] + t == t;
      BeforeNothing(RecordsOf(schema, t));
    } else if Packable(f.ltype) {
      var b := EncPacked(f, items).value;
      PackedRecord(f, items);
      DelimitTail(b, t);
      BytesAssoc(EncTag(WT_STRING, f.tag), Delimit(b), t);
      PackedIsRecord(schema, i, items, b, t);
    } else {
      UnpackedRecords(schema, i, items, t);
    }
  }

  lemma BytesAssoc(a: Bytes, b: Bytes, c: Bytes)
    ensures a + b + c == a + (b + c)
  {}

  lemma PackedIsRecord(schema: seq<Field>, i: nat, items: seq<Val>, b: Bytes, t: Bytes)
    requires SchemaOk(schema) && i < |schema| && schema[i].htype.REPEATED? && Packable(schema[i].ltype)
    requires PackedValues(schema[i], b) == Some(items) && Delimited(Delimit(b) + t) == Done(b, t)
    ensures RecordsOf(schema, EncTag(WT_STRING, schema[i].tag) + (Delimit(b) + t))
            == Before([Packed(i, items)], RecordsOf(schema, t))
  {
    HeaderRecord(schema, i, WT_STRING, Delimit(b) + t, Packed(i, items), t);
  }

  lemma {:induction false} FieldRecords(schema: seq<Field>, m: Message, i: nat, t: Bytes)
    requires SchemaOk(schema) && NormalForm(schema, m) && i < |schema|
    requires EncField(schema, m, i).Some? && |EncField(schema, m, i).value| < 0x1_0000_0000
    ensures RecordsOf(schema, EncField(schema, m, i).value + t)
            == Before(WrittenField(schema, m, i), RecordsOf(schema, t))
    decreases schema, 3
  {
    var f, l := schema[i], Leader(schema, i);
    assert FieldOk(f) && SlotOk(schema, i, m[i]) && SlotOk(schema, l, m[l]);
    assert [] + t == t;
    BeforeNothing(RecordsOf(schema, t));
    match f.htype
    case REQUIRED =>
      TaggedRecord(schema, i, m[i].v, t);
    case OPTIONAL =>
      if f.sizeOffset == 0 {
        ZeroVanishes(f, m[i].v);
      }
      if EncField(schema, m, i).value != [] {
        TaggedRecord(schema, i, m[i].v, t);
      }
    case REPEATED =>
      ArrayIsRecords(schema, i, m[i].items, t);
    case ONEOF =>
      if m[l].which == f.tag {
        FindTagAt(schema, i);
        TaggedRecord(schema, i, m[l].v, t);
      }
  }

  lemma {:induction false} RecordsFrom(schema: seq<Field>, m: Message, i: nat)
    requires SchemaOk(schema) && NormalForm(schema, m) && i <= |schema|
    requires EncFrom(schema, m, i).Some? && |EncFrom(schema, m, i).value| < 0x1_0000_0000
    ensures RecordsOf(schema, EncFrom(schema, m, i).value) == Done(WrittenFrom(schema, m, i), [])
    decreases schema, 4, |schema| - i
  {
    if i < |schema| {
      FieldRecords(schema, m, i, EncFrom(schema, m, i + 1).value);
      RecordsFrom(schema, m, i + 1);
    }
  }

  /** pb_encode writes for a normal-form structure exactly these records: the required fields, the optional ones that
      are there, the members that unions hold, the fields without presence that do not vanish, and the arrays that have
      items; nothing for any other field, and an array of numbers always in one piece. */
  lemma {:induction false} EncodedRecords(schema: seq<Field>, m: Message)
    requires SchemaOk(schema) && NormalForm(schema, m)
    requires Encode(schema, m).Some? && |Encode(schema, m).value| < 0x1_0000_0000
    ensures RecordsOf(schema, Encode(schema, m).value) == Done(Written(schema, m), [])
    decreases schema, 5
  {
    RecordsFrom(schema, m, 0);
  }

  /** Those records are acceptable, and what they mean is the structure. */
  lemma {:induction false} WrittenMeansItself(schema: seq<Field>, m: Message)
    requires SchemaOk(schema) && NormalForm(schema, m)
    requires Encode(schema, m).Some? && |Encode(schema, m).value| < 0x1_0000_0000
    ensures Whole(schema, Written(schema, m)) && Counts(schema, Written(schema, m))
    ensures Meaning(schema, Written(schema, m)) == m
  {
    SchemaInPlace(schema);
    EncodedRecords(schema, m);
    MessageRoundTrip(schema, m);
    DecodeIsMeaning(schema, Encode(schema, m).value);
  }

  // ----- Readers that do not have the fields -----

  /** What is written for an item has the wire type that its tag says. */
  lemma {:induction false} TaggedSkipped(f: Field, v: Val, reader: seq<Field>, t: Bytes, st: Progress)
    requires FieldOk(f) && FindTag(reader, f.tag) == |reader| == |st.m|
    requires Tagged(f, v).Some? && |Tagged(f, v).value| < 0x1_0000_0000
    ensures Loop(reader, Tagged(f, v).value + t, st) == Loop(reader, t, st)
  {
    var b := EncVal(f, v).value;
    TagRoundTrip(f.tag, WireType(f.ltype), b);
    assert Skip(WireType(f.ltype), b) == Done((), []) by {
      if WireType(f.ltype) == WT_STRING {
        PayloadSkipped(f, v);
      } else if WireType(f.ltype) == WT_VARINT {
        var w := VarintWritten(f, v);
        EncVarintParses(w);
        assert b[|b|..] == [];
      } else {
        assert b[|b|..] == [];
      }
    }
    UnknownStep(reader, Tagged(f, v).value, t, st);
  }

  lemma {:induction false} VarintWritten(f: Field, v: Val) returns (w: nat)
    requires EncVal(f, v).Some? && WireType(f.ltype) == WT_VARINT
    ensures EncVal(f, v).value == EncVarint(w)
  {
    match f.ltype
    case BOOL => w := if v.n != 0 then 1 else 0;
    case VARINT => w := Unsigned64(v.n);
    case UVARINT => w := v.n;
    case SVARINT => w := ZigZag(v.n);
    case EXTENSION => assert false;
  }

  lemma {:induction false} PayloadSkipped(f: Field, v: Val)
    requires EncVal(f, v).Some? && WireType(f.ltype) == WT_STRING && |EncVal(f, v).value| < 0x1_0000_0000
    ensures Skip(WT_STRING, EncVal(f, v).value) == Done((), [])
  {
    match f.ltype
    case BYTES => DelimitRoundTrip(v.b);
    case STRING => DelimitRoundTrip(CString(v.b, f.dataSize));
    case FIXED_LENGTH_BYTES => DelimitRoundTrip(v.b);
    case SUBMESSAGE => DelimitRoundTrip(Encode(f.sub, v.m).value);
  }

  lemma {:induction false} ItemsSkipped(f: Field, items: seq<Val>, reader: seq<Field>, t: Bytes, st: Progress)
    requires FieldOk(f) && FindTag(reader, f.tag) == |reader| == |st.m|
    requires EncUnpacked(f, items).Some? && |EncUnpacked(f, items).value| < 0x1_0000_0000
    ensures Loop(reader, EncUnpacked(f, items).value + t, st) == Loop(reader, t, st)
    decreases |items|
  {
    if items == [] {
      assert [] + t == t;
    } else {
      var a, b := Tagged(f, items[0]).value, EncUnpacked(f, items[1..]).value;
      assert a + b + t == a + (b + t);
      TaggedSkipped(f, items[0], reader, b + t, st);
      ItemsSkipped(f, items[1..], reader, t, st);
    }
  }

  lemma {:induction false} ArraySkipped(f: Field, items: seq<Val>, reader: seq<Field>, t: Bytes, st: Progress)
    requires FieldOk(f) && FindTag(reader, f.tag) == |reader| == |st.m|
    requires EncArray(f, items).Some? && |EncArray(f, items).value| < 0x1_0000_0000
    ensures Loop(reader, EncArray(f, items).value + t, st) == Loop(reader, t, st)
  {
    if items == [] {
      assert [] + t == t;
    } else if Packable(f.ltype) {
      var b := EncPacked(f, items).value;
      UnknownFields(reader, f.tag, b, 0);
      UnknownStep(reader, EncTag(WT_STRING, f.tag) + Delimit(b), t, st);
    } else {
      ItemsSkipped(f, items, reader, t, st);
    }
  }

  /** Whatever pb_encode writes for a field, a reader that does not have the field skips all of it. */
  lemma {:induction false} FieldSkipped(schema: seq<Field>, m: Message, i: nat, reader: seq<Field>, t: Bytes,
                                        st: Progress)
    requires SchemaOk(schema) && i < |schema| == |m| && FindTag(reader, schema[i].tag) == |reader| == |st.m|
    requires EncField(schema, m, i).Some? && |EncField(schema, m, i).value| < 0x1_0000_0000
    ensures Loop(reader, EncField(schema, m, i).value + t, st) == Loop(reader, t, st)
  {
    var f, slot := schema[i], m[i];
    assert FieldOk(f);
    if EncField(schema, m, i).value == [] {
      assert [] + t == t;
    } else if f.htype.REPEATED? {
      ArraySkipped(f, slot.items, reader, t, st);
    } else {
      TaggedSkipped(f, if f.htype.ONEOF? then m[Leader(schema, i)].v else slot.v, reader, t, st);
    }
  }
}
