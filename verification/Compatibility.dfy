/** Readers and writers of different versions: unknown fields, and the limits of merging. */
module Compatibility {
  import opened Config
  import opened Wrappers
  import opened Schema
  import opened Varint
  import opened Streams
  import opened OutputStreams
  import opened WireFormat
  import opened WireReader
  import opened Merging
  import opened RoundTrip

  // ----- Unknown fields -----

  /** A field that the schema does not have, with a value of its wire type. */
  predicate UnknownField(schema: seq<Field>, u: Bytes) {
    var h := ReadTag(u);
    h.Header? && h.tag >= 1 && FindTag(schema, h.tag) == |schema| && Skip(h.wireType, h.rest) == Done((), [])
  }

  lemma {:induction false} UnknownStep(schema: seq<Field>, u: Bytes, t: Bytes, st: Progress)
    requires |st.m| == |schema| && UnknownField(schema, u)
    ensures Loop(schema, u + t, st) == Loop(schema, t, st)
  {
    ReadTagExtend(u, t);
    SkipExtend(ReadTag(u).wireType, ReadTag(u).rest, t);
    assert [] + t == t;
  }

  /** Inserting an unknown field at a field boundary changes neither the structure nor the outcome,
      wherever the boundary is, including between the items of an unpacked fixed-count array. */
  lemma {:induction false} UnknownFieldIsIgnored(schema: seq<Field>, b1: Bytes, u: Bytes, b2: Bytes, m: Message)
    requires |m| == |schema| && UnknownField(schema, u)
    requires Loop(schema, b1, Start(m)).Ended? && !Loop(schema, b1, Start(m)).zero
    ensures DecodeNoinit(schema, b1 + (u + b2), m) == DecodeNoinit(schema, b1 + b2, m)
  {
    LoopConcat(schema, b1, Start(m), u + b2);
    LoopConcat(schema, b1, Start(m), b2);
    UnknownStep(schema, u, b2, Loop(schema, b1, Start(m)).st);
  }

  /** A place in a message between two fields, or inside a submessage of it. */
  datatype Place = Between(before: Bytes, after: Bytes)
                 | Within(before: Bytes, tag: nat, inner: Place, after: Bytes)

  /** The message with something inserted in that place; the submessages around it get their lengths. */
  function Inserted(p: Place, u: Bytes): Bytes {
    match p
    case Between(before, after) => before + (u + after)
    case Within(before, tag, inner, after) =>
      before + (EncTag(WT_STRING, tag) + (Delimit(Inserted(inner, u)) + after))
  }

  /** What an item of field `i` is merged into. */
  function PreviousVal(schema: seq<Field>, i: nat, m: Message): Val
    requires i < |schema| == |m|
  {
    match schema[i].htype
    case REPEATED => UnsetVal(schema[i])
    case ONEOF => DefaultVal(schema[i])
    case _ => ItemOf(m[i])
  }

  function Previous(schema: seq<Field>, i: nat, m: Message): Message
    requires i < |schema| == |m|
  {
    Inner(schema[i], PreviousVal(schema, i, m))
  }

  /** The place is between two fields as they are read, and the submessages around it are fields of the messages
      around them; the innermost message does not have the field `u`. */
  predicate Boundary(schema: seq<Field>, p: Place, u: Bytes, m: Message)
    requires |m| == |schema|
    decreases p
  {
    var e := Loop(schema, p.before, Start(m));
    && e.Ended? && !e.zero
    && match p
       case Between(_, _) => UnknownField(schema, u)
       case Within(_, tag, inner, _) =>
         var i := FindTag(schema, tag);
         && 1 <= tag < 0x2000_0000 && i < |schema| && schema[i].ltype.SUBMESSAGE?
         && |Inserted(inner, u)| < 0x1_0000_0000 && |Inserted(inner, [])| < 0x1_0000_0000
         && Boundary(schema[i].sub, inner, u, Previous(schema, i, e.st.m))
  }

  /** At any depth: with an unknown field inserted between two fields of a message or of a submessage, nothing
      changes. */
  lemma {:induction false} UnknownFieldAtAnyDepth(schema: seq<Field>, p: Place, u: Bytes, m: Message)
    requires |m| == |schema| && Boundary(schema, p, u, m)
    ensures DecodeNoinit(schema, Inserted(p, u), m) == DecodeNoinit(schema, Inserted(p, []), m)
    decreases p
  {
    match p
    case Between(before, after) =>
      assert [] + after == after;
      UnknownFieldIsIgnored(schema, before, u, after, m);
    case Within(before, tag, inner, after) =>
      var st, i := Loop(schema, before, Start(m)).st, FindTag(schema, tag);
      UnknownFieldAtAnyDepth(schema[i].sub, inner, u, Previous(schema, i, st.m));
      SamePayload(schema, tag, Inserted(inner, u), Inserted(inner, []), after, st);
      LoopConcat(schema, before, Start(m), EncTag(WT_STRING, tag) + (Delimit(Inserted(inner, u)) + after));
      LoopConcat(schema, before, Start(m), EncTag(WT_STRING, tag) + (Delimit(Inserted(inner, [])) + after));
  }

  /** Payloads of a submessage that are read alike make no difference to the message around it. */
  lemma {:induction false} SamePayload(schema: seq<Field>, tag: nat, a: Bytes, b: Bytes, t: Bytes, st: Progress)
    requires |st.m| == |schema| && 1 <= tag < 0x2000_0000 && |a| < 0x1_0000_0000 && |b| < 0x1_0000_0000
    requires var i := FindTag(schema, tag);
             && i < |schema| && schema[i].ltype.SUBMESSAGE?
             && SameMessage(schema[i].sub, a, b, Previous(schema, i, st.m))
    ensures Loop(schema, EncTag(WT_STRING, tag) + (Delimit(a) + t), st)
            == Loop(schema, EncTag(WT_STRING, tag) + (Delimit(b) + t), st)
  {
    var i := FindTag(schema, tag);
    TagRoundTrip(tag, WT_STRING, Delimit(a) + t);
    TagRoundTrip(tag, WT_STRING, Delimit(b) + t);
    SameItem(schema, i, a, b, t, st);
  }

  predicate SameMessage(schema: seq<Field>, a: Bytes, b: Bytes, m: Message)
    requires |m| == |schema|
  {
    var p, q := DecodeNoinit(schema, a, m), DecodeNoinit(schema, b, m);
    (p.Done? <==> q.Done?) && (p.Done? ==> p.v == q.v)
  }

  lemma {:induction false} SameItem(schema: seq<Field>, i: nat, a: Bytes, b: Bytes, t: Bytes, st: Progress)
    requires i < |schema| == |st.m| && schema[i].ltype.SUBMESSAGE? && |a| < 0x1_0000_0000 && |b| < 0x1_0000_0000
    requires SameMessage(schema[i].sub, a, b, Previous(schema, i, st.m))
    ensures Known(schema, i, WT_STRING, Delimit(a) + t, st) == Known(schema, i, WT_STRING, Delimit(b) + t, st)
  {
    var f := schema[i];
    var prev := PreviousVal(schema, i, st.m);
    DelimitTail(a, t);
    DelimitTail(b, t);
    assert DecVal(f, Delimit(a) + t, prev) == DecVal(f, Delimit(b) + t, prev);
    var st1 := if FixedCount(f) && st.fix != i then st.(fix := i, fixCount := 0) else st;
    var r := ReqIndex(schema, i);
    var st2 := if f.htype.REQUIRED? && r < MAX_REQUIRED then st1.(seen := st1.seen + {r}) else st1;
    SameField(schema, i, Delimit(a) + t, Delimit(b) + t, prev, st2);
  }

  lemma {:induction false} SameField(schema: seq<Field>, i: nat, s: Bytes, s': Bytes, prev: Val, st: Progress)
    requires i < |schema| == |st.m| && schema[i].ltype.SUBMESSAGE?
    requires prev == PreviousVal(schema, i, st.m)
    requires DecVal(schema[i], s, prev) == DecVal(schema[i], s', prev)
    ensures DecField(schema, i, WT_STRING, s, st) == DecField(schema, i, WT_STRING, s', st)
  {
    if schema[i].htype.REPEATED? {
      var items := ItemsOf(st.m[i]);
      var count := if FixedCount(schema[i]) then st.fixCount else |items|;
      assert DecArray(schema[i], WT_STRING, s, items, count) == DecArray(schema[i], WT_STRING, s', items, count);
    }
  }

  /** Any value of the four wire types makes an unknown field of any tag that the schema lacks. */
  lemma {:induction false} UnknownFields(schema: seq<Field>, tag: nat, data: Bytes, v: nat)
    requires 1 <= tag < 0x2000_0000 && FindTag(schema, tag) == |schema|
    requires |data| < 0x1_0000_0000 && v < 0x1_0000_0000_0000_0000
    ensures UnknownField(schema, EncTag(WT_VARINT, tag) + EncVarint(v))
    ensures UnknownField(schema, EncTag(WT_STRING, tag) + Delimit(data))
    ensures |data| == 8 ==> UnknownField(schema, EncTag(WT_64BIT, tag) + data)
    ensures |data| == 4 ==> UnknownField(schema, EncTag(WT_32BIT, tag) + data)
  {
    TagRoundTrip(tag, WT_VARINT, EncVarint(v));
    EncVarintParses(v);
    assert EncVarint(v)[|EncVarint(v)|..] == [];
    TagRoundTrip(tag, WT_STRING, Delimit(data));
    DelimitRoundTrip(data);
    TagRoundTrip(tag, WT_64BIT, data);
    TagRoundTrip(tag, WT_32BIT, data);
    assert data[|data|..] == [];
  }

  /** What pb_encode writes for the fields before position `i`. */
  function EncUpTo(schema: seq<Field>, m: Message, i: nat): Option<Bytes>
    requires i <= |schema| == |m|
  {
    if i == 0 then Some([]) else Append(EncUpTo(schema, m, i - 1), EncField(schema, m, i - 1))
  }

  lemma {:induction false} EncodeSplit(schema: seq<Field>, m: Message, i: nat)
    requires i <= |schema| == |m|
    ensures Encode(schema, m) == Append(EncUpTo(schema, m, i), EncFrom(schema, m, i))
  {
    if i == 0 {
      if EncFrom(schema, m, 0).Some? {
        assert [] + EncFrom(schema, m, 0).value == EncFrom(schema, m, 0).value;
      }
    } else {
      EncodeSplit(schema, m, i - 1);
      var a, b, c := EncUpTo(schema, m, i - 1), EncField(schema, m, i - 1), EncFrom(schema, m, i);
      if a.Some? && b.Some? && c.Some? {
        assert a.value + (b.value + c.value) == a.value + b.value + c.value;
      }
    }
  }

  lemma {:induction false} PrefixRoundTrip(schema: seq<Field>, m: Message, i: nat) returns (st: Progress)
    requires SchemaOk(schema) && NormalForm(schema, m) && i <= |schema|
    requires EncUpTo(schema, m, i).Some? && |EncUpTo(schema, m, i).value| < 0x1_0000_0000
    ensures Loop(schema, EncUpTo(schema, m, i).value, Start(Defaults(schema))) == Ended(st, false, [])
    ensures At(schema, m, i, st)
    decreases i
  {
    if i == 0 {
      assert Partial(schema, m, 0) == Defaults(schema);
      st := Start(Defaults(schema));
    } else {
      var st1 := PrefixRoundTrip(schema, m, i - 1);
      st := FieldRoundTrip(schema, m, i - 1, st1);
      LoopConcat(schema, EncUpTo(schema, m, i - 1).value, Start(Defaults(schema)), EncField(schema, m, i - 1).value);
    }
  }

  /** Forward compatibility of the whole codec: a message that a newer writer sends, with a field more
      between any two of the known ones, is read as the structure without it. */
  lemma {:induction false} NewerWriter(schema: seq<Field>, m: Message, i: nat, u: Bytes)
    requires SchemaOk(schema) && NormalForm(schema, m) && i <= |schema| && UnknownField(schema, u)
    requires Encode(schema, m).Some? && |Encode(schema, m).value| < 0x1_0000_0000
    ensures EncUpTo(schema, m, i).Some? && EncFrom(schema, m, i).Some?
    ensures Decode(schema, EncUpTo(schema, m, i).value + (u + EncFrom(schema, m, i).value)) == Done(m, [])
  {
    EncodeSplit(schema, m, i);
    MessageRoundTrip(schema, m);
    var st := PrefixRoundTrip(schema, m, i);
    UnknownFieldIsIgnored(schema, EncUpTo(schema, m, i).value, u, EncFrom(schema, m, i).value, Defaults(schema));
  }

  // ----- Why fixed-count fields do not merge -----

  /** A fixed-count array of one bool, with tag 1. */
  function OneFlag(): Field {
    Field(1, BOOL, REPEATED, STATIC, 0, 0, 1, 1, None, [])
  }

  /** `08 01` is a whole message of this type, for any structure it is decoded into; twice in a row it is
      rejected, because the array position of the first one carries over. */
  lemma {:induction false} FixedCountDoesNotMerge(m: Message)
    requires |m| == 1
    ensures SchemaOk([OneFlag()]) && DecodeNoinit([OneFlag()], [8, 1], m).Done?
    ensures DecodeNoinit([OneFlag()], [8, 1] + [8, 1], m).Fail?
  {
    var schema, s: Bytes := [OneFlag()], [8, 1];
    assert schema[0] == OneFlag();
    assert SchemaOk([]);
    assert FieldOk(OneFlag());
    assert FixedCount(schema[0]);
    var st := FlagStep(s, [], Start(m));
    assert s + [] == s;
    var st' := FlagStep(s, s, Start(m));
    assert ReqIndex(schema, 1) == ReqIndex(schema, 0);
    assert s[1..] == [1];
    assert DecArray(OneFlag(), 0, [1], ItemsOf(st'.m[0]), 1).Fail?;
  }

  lemma {:induction false} FlagStep(s: Bytes, t: Bytes, st: Progress) returns (st': Progress)
    requires s == [8, 1] && |st.m| == 1 && st.fix != 0
    requires FixDone([OneFlag()], st)
    ensures |st'.m| == 1 && st'.fix == 0 && st'.fixCount == 1
    ensures Loop([OneFlag()], s + t, st) == Loop([OneFlag()], t, st')
  {
    var schema := [OneFlag()];
    assert schema[0] == OneFlag();
    assert (s + t)[1..] == [1] + t && ([1] + t)[1..] == t;
    assert Varint32([1] + t) == Done(1, t);
    var items := Put(ItemsOf(st.m[0]), 0, IntVal(1));
    assert DecVal(OneFlag(), [1] + t, UnsetVal(OneFlag())) == Done(IntVal(1), t);
    st' := Progress(st.m[0 := Rep(items)], st.seen, 0, 1);
    assert FindTag(schema, 1) == 0;
    assert DecArray(OneFlag(), 0, [1] + t, ItemsOf(st.m[0]), 0) == Done((items, 1), t);
    assert DecField(schema, 0, 0, [1] + t, st.(fix := 0, fixCount := 0)) == Done(st', t);
    assert Step(schema, 1, 0, [1] + t, st) == Done(st', t);
  }
}
