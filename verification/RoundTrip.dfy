/** pb_decode rebuilds every normal-form structure that pb_encode can write. */
module RoundTrip {
  import opened Bits
  import opened Config
  import opened Wrappers
  import opened Schema
  import opened Varint
  import opened Streams
  import opened OutputStreams
  import opened WireFormat
  import opened WireReader
  import opened Merging

  // ----- Items -----

  lemma {:induction false} DelimitRoundTrip(b: Bytes)
    requires |b| < 0x1_0000_0000
    ensures Varint32(Delimit(b)) == Done(|b|, b)
    ensures Delimited(Delimit(b)) == Done(b, [])
  {
    DelimitShort(b);
    Varint32RoundTrip(|b|, b);
    assert b[..|b|] == b && b[|b|..] == [];
  }

  lemma {:induction false} DelimitShort(b: Bytes)
    requires |b| < 0x1_0000_0000
    ensures Delimit(b) == EncVarint(|b|) + b
  {}

  lemma {:induction false} DelimitTail(b: Bytes, t: Bytes)
    requires |b| < 0x1_0000_0000
    ensures Delimited(Delimit(b) + t) == Done(b, t)
  {
    DelimitRoundTrip(b);
    DelimitedExtend(Delimit(b), t);
    assert [] + t == t;
  }

  lemma {:induction false} CStringWhole(b: Bytes, max: nat)
    requires 0 !in b && |b| <= max
    ensures CString(b, max) == b
  {
    if b != [] {
      CStringWhole(b[1..], max - 1);
    }
  }

  lemma {:induction false} BlockRoundTrip(f: Field, v: Val)
    requires f.ltype.BYTES? || f.ltype.STRING? || f.ltype.FIXED_LENGTH_BYTES?
    requires ValOk(f, v) && f.dataSize <= SIZE_MAX
    ensures EncVal(f, v) == Some(Delimit(v.b)) && Block(Delimit(v.b), f) == Done(v, [])
  {
    DelimitRoundTrip(v.b);
    assert v.b[..|v.b|] == v.b && v.b[|v.b|..] == [];
    if f.ltype.STRING? {
      CStringWhole(v.b, f.dataSize);
    }
    if f.ltype.FIXED_LENGTH_BYTES? && f.dataSize == 0 {
      assert v.b == seq(f.dataSize, i => 0);
    }
  }

  lemma {:induction false} SignedRoundTrip(x: int, size: nat)
    requires IntSize(size) && InSigned(x, size)
    ensures -0x8000_0000_0000_0000 <= x < 0x8000_0000_0000_0000
    ensures Signed(Unsigned64(x), 0x1_0000_0000_0000_0000) == x
    ensures size != 8 ==> Signed(Unsigned64(x), 0x1_0000_0000) == x
  {}

  lemma {:induction false} WholeVarint(w: nat)
    requires w < 0x1_0000_0000_0000_0000
    ensures Varint64(EncVarint(w)) == Done(w, [])
    ensures w < 0x1_0000_0000 ==> Varint32(EncVarint(w)) == Done(w, [])
  {
    assert EncVarint(w) + [] == EncVarint(w);
    Varint64RoundTrip(w, []);
    if w < 0x1_0000_0000 {
      Varint32RoundTrip(w, []);
    }
  }

  lemma {:induction false} NumberRoundTrip(f: Field, v: Val)
    requires f.ltype.BOOL? || f.ltype.VARINT? || f.ltype.UVARINT? || f.ltype.SVARINT?
    requires ValOk(f, v) && FieldOk(f)
    ensures EncVal(f, v).Some? && DecVal(f, EncVal(f, v).value, IntVal(0)) == Done(v, [])
  {
    var n := v.n;
    match f.ltype
    case BOOL =>
      WholeVarint(n);
    case VARINT =>
      assert Convert(f, Unsigned64(n)) == Some(n) by { SignedRoundTrip(n, f.dataSize); }
      WholeVarint(Unsigned64(n));
    case UVARINT =>
      WholeVarint(n);
    case SVARINT =>
      assert Convert(f, ZigZag(n)) == Some(n) by { SignedRoundTrip(n, f.dataSize); }
      WholeVarint(ZigZag(n));
  }

  lemma {:induction false} FixedWidthRoundTrip(n: nat, width: nat)
    requires n < Pow256(width) && (width == 4 || width == 8)
    ensures FixedWidth(LittleEndian(n, width), width) == Done(IntVal(n), [])
  {
    var s := LittleEndian(n, width);
    assert s[..width] == s && s[width..] == [];
    Pow256IsPow2(width);
    FixedRoundTrip(n, width);
  }

  lemma {:induction false} Pow256IsPow2(width: nat)
    requires width == 4 || width == 8
    ensures Pow256(width) == Pow2(8 * width)
  {
    Pow2Byte(1);
    Pow2Byte(2);
    Pow2Byte(3);
    Pow2Byte(4);
    assert Pow2(32) == 0x1_0000_0000;
    if width == 8 {
      UpperHalf();
    }
  }

  lemma {:induction false} UpperHalf()
    ensures Pow2(64) == 0x1_0000_0000 * Pow2(32)
  {
    Pow2Byte(5);
    Pow2Byte(6);
    Pow2Byte(7);
    Pow2Byte(8);
  }

  /** Decoding an item's bytes gives the item back; a submessage does so when merged into its defaults. */
  lemma {:induction false} ValRoundTrip(f: Field, v: Val, prev: Val)
    requires FieldOk(f) && ValOk(f, v) && (f.ltype.SUBMESSAGE? ==> Inner(f, prev) == Defaults(f.sub))
    requires EncVal(f, v).Some? && |EncVal(f, v).value| < 0x1_0000_0000
    ensures DecVal(f, EncVal(f, v).value, prev) == Done(v, [])
    decreases f, 0
  {
    match f.ltype
    case FIXED32 => FixedWidthRoundTrip(v.n, 4);
    case FIXED64 => FixedWidthRoundTrip(v.n, 8);
    case BYTES => BlockRoundTrip(f, v);
    case STRING => BlockRoundTrip(f, v);
    case FIXED_LENGTH_BYTES => BlockRoundTrip(f, v);
    case SUBMESSAGE =>
      var b := Encode(f.sub, v.m).value;
      DelimitRoundTrip(b);
      MessageRoundTrip(f.sub, v.m);
    case _ => NumberRoundTrip(f, v);
  }

  // ----- Values that are not sent -----

  /** A proto3 field that the encoder leaves out holds what the decoder would put there. */
  lemma {:induction false} ZeroIsDefault(f: Field, v: Val)
    requires FieldOk(f) && f.dflt.None? && ValOk(f, v) && IsZero(f, v)
    ensures v == DefaultVal(f)
    decreases f, 0
  {
    match f.ltype
    case SUBMESSAGE => AllDefault(f.sub, v.m);
    case FIXED_LENGTH_BYTES => assert v.b == seq(f.dataSize, i => 0);
    case _ =>
  }

  lemma {:induction false} AllDefault(schema: seq<Field>, m: Message)
    requires SchemaOk(schema) && NormalForm(schema, m)
    requires AllZero(schema, m)
    ensures m == Defaults(schema)
    decreases schema, 1
  {
    forall i | 0 <= i < |schema| ensures m[i] == DefaultSlot(schema[i], !Joined(schema, i)) {
      assert IsProto3Default(schema, i, m) && SlotOk(schema, i, m[i]) && FieldOk(schema[i]);
      if schema[i].htype.OPTIONAL? && schema[i].sizeOffset == 0 {
        ZeroIsDefault(schema[i], m[i].v);
      }
    }
  }

  // ----- Fields -----

  /** Slot `j` of the structure rebuilt from the fields before position `i`. */
  function PartialSlot(schema: seq<Field>, m: Message, i: nat, j: nat): Slot
    requires j < |schema| == |m|
  {
    var sent :=
      if schema[j].htype.ONEOF? then
        m[j].Union? && m[j].which != 0 && FindTag(schema, m[j].which) < i
      else j < i;
    if sent then m[j] else DefaultSlot(schema[j], !Joined(schema, j))
  }

  function Partial(schema: seq<Field>, m: Message, i: nat): (p: Message)
    requires |m| == |schema|
    ensures |p| == |schema|
  {
    seq(|schema|, j requires 0 <= j < |schema| => PartialSlot(schema, m, i, j))
  }

  /** The decoder's state having read the fields before position `i`. */
  predicate At(schema: seq<Field>, m: Message, i: nat, st: Progress)
    requires |m| == |schema|
  {
    && i <= |schema|
    && st.m == Partial(schema, m, i)
    && st.fix < i && FixDone(schema, st)
    && forall r: nat | r < ReqIndex(schema, i) && r < MAX_REQUIRED :: r in st.seen
  }

  lemma {:induction false} TagRoundTrip(tag: nat, wireType: nat, t: Bytes)
    requires 1 <= tag < 0x2000_0000 && wireType < 8
    ensures EncTag(wireType, tag) + t != [] && ReadTag(EncTag(wireType, tag) + t) == Header(tag, wireType, t)
  {
    Varint32RoundTrip(8 * tag + wireType, t);
  }

  /** A field header is read back, and its field is found. */
  lemma {:induction false} HeaderRoundTrip(schema: seq<Field>, i: nat, wireType: nat, t: Bytes, st: Progress)
    requires SchemaOk(schema) && i < |schema| == |st.m| && wireType < 8
    ensures EncTag(wireType, schema[i].tag) + t != []
    ensures Loop(schema, EncTag(wireType, schema[i].tag) + t, st)
            == var p := Known(schema, i, wireType, t, st); if p.Done? then Loop(schema, p.rest, p.v) else LoopError
  {
    assert FieldOk(schema[i]);
    TagRoundTrip(schema[i].tag, wireType, t);
    FindTagAt(schema, i);
  }

  /** Field `i` has been read: its slot is filled, and a required field is recorded. */
  lemma {:induction false} PartialNext(schema: seq<Field>, m: Message, i: nat)
    requires SchemaOk(schema) && NormalForm(schema, m) && i < |schema|
    ensures var p, p' := Partial(schema, m, i), Partial(schema, m, i + 1);
            if !schema[i].htype.ONEOF? then p' == p[i := m[i]]
            else
              var l := Leader(schema, i);
              p' == if m[l].Union? && m[l].which == schema[i].tag then p[l := m[l]] else p
  {
    assert FieldOk(schema[i]);
    FindTagAt(schema, i);
    if schema[i].htype.ONEOF? {
      assert SlotOk(schema, Leader(schema, i), m[Leader(schema, i)]);
      forall j | 0 <= j < |schema| && PartialSlot(schema, m, i, j) != PartialSlot(schema, m, i + 1, j)
        ensures j == Leader(schema, i) && m[j].Union? && m[j].which == schema[i].tag
      {
        PartialSlotNext(schema, m, i, j);
      }
    }
  }

  lemma {:induction false} PartialSlotNext(schema: seq<Field>, m: Message, i: nat, j: nat)
    requires SchemaOk(schema) && NormalForm(schema, m) && i < |schema| && schema[i].htype.ONEOF? && j < |schema|
    requires PartialSlot(schema, m, i, j) != PartialSlot(schema, m, i + 1, j)
    ensures j == Leader(schema, i) && m[j].Union? && m[j].which == schema[i].tag
  {
    FindTagAt(schema, i);
    assert SlotOk(schema, j, m[j]);
  }

  /** One tagged item of a field that is not an array. */
  lemma {:induction false} TaggedRoundTrip(schema: seq<Field>, i: nat, v: Val, st: Progress) returns (st': Progress)
    requires SchemaOk(schema) && i < |schema| == |st.m| && !schema[i].htype.REPEATED? && ValOk(schema[i], v)
    requires !schema[i].htype.ONEOF? ==> ItemOf(st.m[i]) == DefaultVal(schema[i])
    requires Tagged(schema[i], v).Some? && |Tagged(schema[i], v).value| < 0x1_0000_0000
    ensures Loop(schema, Tagged(schema[i], v).value, st) == Ended(st', false, [])
    ensures st'.m == if schema[i].htype.ONEOF? then st.m[Leader(schema, i) := Union(schema[i].tag, v)]
                     else st.m[i := if schema[i].sizeOffset != 0 then Opt(true, v) else Single(v)]
    ensures st'.fix == st.fix && st'.fixCount == st.fixCount
    ensures st.seen <= st'.seen
    ensures schema[i].htype.REQUIRED? && ReqIndex(schema, i) < MAX_REQUIRED ==> ReqIndex(schema, i) in st'.seen
    decreases schema, 0, 0
  {
    var f := schema[i];
    assert FieldOk(f);
    var b := EncVal(f, v).value;
    HeaderRoundTrip(schema, i, WireType(f.ltype), b, st);
    ValRoundTrip(f, v, DefaultVal(f));
    var p := Known(schema, i, WireType(f.ltype), b, st);
    st' := p.v;
  }

  /** The first `k` items of an array have been stored. */
  predicate Stored(cur: seq<Val>, items: seq<Val>, k: nat) {
    k <= |items| && (|cur| == k || |cur| == |items|) && cur[..k] == items[..k]
  }

  lemma PutStored(cur: seq<Val>, items: seq<Val>, k: nat)
    requires Stored(cur, items, k) && k < |items|
    ensures Stored(Put(cur, k, items[k]), items, k + 1)
    ensures |cur| == |items| ==> |Put(cur, k, items[k])| == |items|
  {
    var cur' := Put(cur, k, items[k]);
    assert cur'[..k] == cur[..k] && cur'[k] == items[k];
    assert cur'[..k + 1] == cur'[..k] + [cur'[k]] && items[..k + 1] == items[..k] + [items[k]];
  }

  predicate ItemsOk(f: Field, items: seq<Val>) {
    FieldOk(f) && |items| <= f.arraySize && forall k | 0 <= k < |items| :: ValOk(f, items[k])
  }

  lemma {:induction false} PackedRoundTrip(f: Field, items: seq<Val>, k: nat, cur: seq<Val>)
    requires ItemsOk(f, items) && Stored(cur, items, k)
    requires EncPacked(f, items[k..]).Some? && |EncPacked(f, items[k..]).value| < 0x1_0000_0000
    ensures DecPacked(f, EncPacked(f, items[k..]).value, cur, k) == Some((items, |items|))
    decreases f, 1, |items| - k
  {
    if k == |items| {
      assert cur == items;
    } else {
      assert items[k..][1..] == items[k + 1..];
      var b, t := EncVal(f, items[k]).value, EncPacked(f, items[k + 1..]).value;
      ValRoundTrip(f, items[k], UnsetVal(f));
      DecValExtend(f, b, UnsetVal(f), t);
      assert [] + t == t;
      PutStored(cur, items, k);
      PackedRoundTrip(f, items, k + 1, Put(cur, k, items[k]));
    }
  }

  /** The decoder is about to store item `k` of the array at position `i`. */
  predicate ArrayAt(schema: seq<Field>, i: nat, items: seq<Val>, k: nat, st: Progress)
    requires i < |schema| == |st.m|
  {
    && st.m[i].Rep? && Stored(st.m[i].items, items, k)
    && (if FixedCount(schema[i]) then
          && |st.m[i].items| == |items|
          && (if st.fix == i then st.fixCount == k else k == 0 && FixDone(schema, st))
        else |st.m[i].items| == k)
  }

  /** The array at position `i` has been read. */
  predicate ArrayDone(schema: seq<Field>, i: nat, items: seq<Val>, st: Progress, st': Progress)
    requires i < |schema| == |st.m|
  {
    && st'.m == st.m[i := Rep(items)] && st'.seen == st.seen
    && (if FixedCount(schema[i]) && items != [] then st'.fix == i && st'.fixCount == |items|
        else st'.fix == st.fix && st'.fixCount == st.fixCount)
  }

  lemma {:induction false} KnownArray(schema: seq<Field>, i: nat, wireType: nat, s: Bytes, items: seq<Val>, k: nat,
                                      st: Progress)
    requires i < |schema| == |st.m| && schema[i].htype.REPEATED? && ArrayAt(schema, i, items, k, st)
    ensures var f := schema[i];
            var a := DecArray(f, wireType, s, st.m[i].items, k);
            if a.Fail? then Known(schema, i, wireType, s, st) == Fail
            else Known(schema, i, wireType, s, st)
                 == Done(st.(m := st.m[i := Rep(a.v.0)], fix := if FixedCount(f) then i else st.fix,
                             fixCount := if FixedCount(f) then a.v.1 else st.fixCount), a.rest)
  {
    var f := schema[i];
    var st1 := if FixedCount(f) && st.fix != i then st.(fix := i, fixCount := 0) else st;
    assert Known(schema, i, wireType, s, st) == DecField(schema, i, wireType, s, st1);
  }

  /** One tagged item of an array. */
  lemma {:induction false} ItemRoundTrip(schema: seq<Field>, i: nat, items: seq<Val>, k: nat, st: Progress)
    returns (st': Progress)
    requires SchemaOk(schema) && i < |schema| == |st.m| && schema[i].htype.REPEATED? && !Packable(schema[i].ltype)
    requires ItemsOk(schema[i], items) && ArrayAt(schema, i, items, k, st) && k < |items|
    requires Tagged(schema[i], items[k]).Some? && |Tagged(schema[i], items[k]).value| < 0x1_0000_0000
    ensures Loop(schema, Tagged(schema[i], items[k]).value, st) == Ended(st', false, [])
    ensures ArrayAt(schema, i, items, k + 1, st') && |st'.m| == |st.m| && st'.seen == st.seen
    ensures forall j | 0 <= j < |st.m| && j != i :: st'.m[j] == st.m[j]
    ensures if FixedCount(schema[i]) then st'.fix == i else st'.fix == st.fix && st'.fixCount == st.fixCount
    decreases schema, 0, 0
  {
    var f := schema[i];
    var b := EncVal(f, items[k]).value;
    ValRoundTrip(f, items[k], UnsetVal(f));
    HeaderRoundTrip(schema, i, WireType(f.ltype), b, st);
    KnownArray(schema, i, WireType(f.ltype), b, items, k, st);
    PutStored(st.m[i].items, items, k);
    st' := Known(schema, i, WireType(f.ltype), b, st).v;
  }

  /** The items from number `k` on have been read. */
  predicate ItemsDone(schema: seq<Field>, i: nat, items: seq<Val>, k: nat, st: Progress, st': Progress)
    requires i < |schema| == |st.m|
  {
    && st'.m == st.m[i := Rep(items)] && st'.seen == st.seen
    && if FixedCount(schema[i]) && k < |items| then st'.fix == i && st'.fixCount == |items|
       else st'.fix == st.fix && st'.fixCount == st.fixCount
  }

  lemma ItemsDoneStep(schema: seq<Field>, i: nat, items: seq<Val>, k: nat, st: Progress, st1: Progress, st': Progress)
    requires i < |schema| == |st.m| == |st1.m| && k < |items| && st1.seen == st.seen
    requires ArrayAt(schema, i, items, k + 1, st1) && ItemsDone(schema, i, items, k + 1, st1, st')
    requires forall j | 0 <= j < |st.m| && j != i :: st1.m[j] == st.m[j]
    requires if FixedCount(schema[i]) then st1.fix == i else st1.fix == st.fix && st1.fixCount == st.fixCount
    ensures ItemsDone(schema, i, items, k, st, st')
  {
    assert st1.m[i := Rep(items)] == st.m[i := Rep(items)];
  }

  lemma UnpackedSplit(f: Field, items: seq<Val>, k: nat)
    requires k < |items|
    ensures EncUnpacked(f, items[k..]) == Append(Tagged(f, items[k]), EncUnpacked(f, items[k + 1..]))
  {
    assert items[k..][1..] == items[k + 1..];
  }

  lemma {:induction false} UnpackedRoundTrip(schema: seq<Field>, i: nat, items: seq<Val>, k: nat, st: Progress)
    returns (st': Progress)
    requires SchemaOk(schema) && i < |schema| == |st.m| && schema[i].htype.REPEATED? && !Packable(schema[i].ltype)
    requires ItemsOk(schema[i], items) && ArrayAt(schema, i, items, k, st)
    requires EncUnpacked(schema[i], items[k..]).Some? && |EncUnpacked(schema[i], items[k..]).value| < 0x1_0000_0000
    ensures Loop(schema, EncUnpacked(schema[i], items[k..]).value, st) == Ended(st', false, [])
    ensures ItemsDone(schema, i, items, k, st, st')
    decreases schema, 1, |items| - k
  {
    if k == |items| {
      assert st.m[i].items == items;
      st' := st;
    } else {
      UnpackedSplit(schema[i], items, k);
      var a, t := Tagged(schema[i], items[k]).value, EncUnpacked(schema[i], items[k + 1..]).value;
      var st1 := ItemRoundTrip(schema, i, items, k, st);
      st' := UnpackedRoundTrip(schema, i, items, k + 1, st1);
      ItemsDoneStep(schema, i, items, k, st, st1, st');
      LoopConcat(schema, a, st, t);
    }
  }

  lemma {:induction false} ArrayRoundTrip(schema: seq<Field>, i: nat, items: seq<Val>, st: Progress)
    returns (st': Progress)
    requires SchemaOk(schema) && i < |schema| == |st.m| && schema[i].htype.REPEATED?
    requires ItemsOk(schema[i], items) && ArrayAt(schema, i, items, 0, st) && (FixedCount(schema[i]) ==> st.fix != i)
    requires EncArray(schema[i], items).Some? && |EncArray(schema[i], items).value| < 0x1_0000_0000
    ensures Loop(schema, EncArray(schema[i], items).value, st) == Ended(st', false, [])
    ensures ArrayDone(schema, i, items, st, st')
    decreases schema, 2
  {
    var f := schema[i];
    assert items[0..] == items;
    if items == [] {
      st' := st;
      assert st.m[i].items == items;
    } else if Packable(f.ltype) {
      var b := EncPacked(f, items).value;
      PackedRoundTrip(f, items, 0, st.m[i].items);
      DelimitRoundTrip(b);
      HeaderRoundTrip(schema, i, WT_STRING, Delimit(b), st);
      KnownArray(schema, i, WT_STRING, Delimit(b), items, 0, st);
      st' := Known(schema, i, WT_STRING, Delimit(b), st).v;
    } else {
      st' := UnpackedRoundTrip(schema, i, items, 0, st);
    }
  }

  lemma {:induction false} OptionalRoundTrip(schema: seq<Field>, m: Message, i: nat, st: Progress)
    returns (st': Progress)
    requires SchemaOk(schema) && NormalForm(schema, m) && i < |schema| && At(schema, m, i, st)
    requires schema[i].htype.OPTIONAL?
    requires EncField(schema, m, i).Some? && |EncField(schema, m, i).value| < 0x1_0000_0000
    ensures Loop(schema, EncField(schema, m, i).value, st) == Ended(st', false, [])
    ensures st'.m == st.m[i := m[i]] && st'.fix == st.fix && st'.fixCount == st.fixCount && st.seen <= st'.seen
    decreases schema, 2
  {
    var f := schema[i];
    assert FieldOk(f) && SlotOk(schema, i, m[i]);
    if f.sizeOffset != 0 && !m[i].has {
      st' := st;
    } else if f.sizeOffset == 0 && IsProto3Default(schema, i, m) {
      ZeroIsDefault(f, m[i].v);
      st' := st;
    } else {
      st' := TaggedRoundTrip(schema, i, m[i].v, st);
    }
  }

  lemma {:induction false} OneofRoundTrip(schema: seq<Field>, m: Message, i: nat, st: Progress) returns (st': Progress)
    requires SchemaOk(schema) && NormalForm(schema, m) && i < |schema| && At(schema, m, i, st)
    requires schema[i].htype.ONEOF?
    requires EncField(schema, m, i).Some? && |EncField(schema, m, i).value| < 0x1_0000_0000
    ensures Loop(schema, EncField(schema, m, i).value, st) == Ended(st', false, [])
    ensures var l := Leader(schema, i);
            st'.m == if m[l].Union? && m[l].which == schema[i].tag then st.m[l := m[l]] else st.m
    ensures st'.fix == st.fix && st'.fixCount == st.fixCount && st.seen <= st'.seen
    decreases schema, 2
  {
    var l := Leader(schema, i);
    assert FieldOk(schema[i]) && SlotOk(schema, l, m[l]);
    if m[l].which == schema[i].tag {
      FindTagAt(schema, i);
      st' := TaggedRoundTrip(schema, i, m[l].v, st);
    } else {
      st' := st;
    }
  }

  lemma {:induction false} Advance(schema: seq<Field>, m: Message, i: nat, st: Progress, st': Progress)
    requires |m| == |schema| && i < |schema| && At(schema, m, i, st)
    requires st'.m == Partial(schema, m, i + 1) && st.seen <= st'.seen
    requires schema[i].htype.REQUIRED? && ReqIndex(schema, i) < MAX_REQUIRED ==> ReqIndex(schema, i) in st'.seen
    requires (st'.fix == i && st'.fixCount == schema[i].arraySize) || (st'.fix == st.fix && st'.fixCount == st.fixCount)
    ensures At(schema, m, i + 1, st')
  {}

  /** Reading what encode_field wrote for one field. */
  lemma {:induction false} FieldRoundTrip(schema: seq<Field>, m: Message, i: nat, st: Progress) returns (st': Progress)
    requires SchemaOk(schema) && NormalForm(schema, m) && i < |schema| && At(schema, m, i, st)
    requires EncField(schema, m, i).Some? && |EncField(schema, m, i).value| < 0x1_0000_0000
    ensures Loop(schema, EncField(schema, m, i).value, st) == Ended(st', false, [])
    ensures At(schema, m, i + 1, st')
    decreases schema, 3
  {
    assert FieldOk(schema[i]) && SlotOk(schema, i, m[i]);
    PartialNext(schema, m, i);
    match schema[i].htype {
      case REQUIRED =>
        st' := TaggedRoundTrip(schema, i, m[i].v, st);
      case OPTIONAL =>
        st' := OptionalRoundTrip(schema, m, i, st);
      case ONEOF =>
        st' := OneofRoundTrip(schema, m, i, st);
      case REPEATED =>
        assert st.m[i] == DefaultSlot(schema[i], true);
        st' := ArrayRoundTrip(schema, i, m[i].items, st);
    }
    Advance(schema, m, i, st, st');
  }

  lemma {:induction false} FieldsRoundTrip(schema: seq<Field>, m: Message, i: nat, st: Progress) returns (st': Progress)
    requires SchemaOk(schema) && NormalForm(schema, m) && At(schema, m, i, st)
    requires EncFrom(schema, m, i).Some? && |EncFrom(schema, m, i).value| < 0x1_0000_0000
    ensures Loop(schema, EncFrom(schema, m, i).value, st) == Ended(st', false, [])
    ensures At(schema, m, |schema|, st')
    decreases schema, 4, |schema| - i
  {
    if i == |schema| {
      st' := st;
    } else {
      var st1 := FieldRoundTrip(schema, m, i, st);
      st' := FieldsRoundTrip(schema, m, i + 1, st1);
      LoopConcat(schema, EncField(schema, m, i).value, st, EncFrom(schema, m, i + 1).value);
    }
  }

  /** The round trip: whatever pb_encode writes for a normal-form structure, pb_decode reads back as that structure. */
  lemma {:induction false} MessageRoundTrip(schema: seq<Field>, m: Message)
    requires SchemaOk(schema) && NormalForm(schema, m)
    requires Encode(schema, m).Some? && |Encode(schema, m).value| < 0x1_0000_0000
    ensures Decode(schema, Encode(schema, m).value) == Done(m, [])
    decreases schema, 5
  {
    assert Partial(schema, m, 0) == Defaults(schema);
    var st := FieldsRoundTrip(schema, m, 0, Start(Defaults(schema)));
    forall j | 0 <= j < |schema| ensures Partial(schema, m, |schema|)[j] == m[j] {
      assert SlotOk(schema, j, m[j]);
    }
    assert st.m == m;
  }

  /** pb_encode refuses no structure in normal form. */
  lemma {:induction false} NormalFormEncodes(schema: seq<Field>, m: Message)
    requires SchemaOk(schema) && NormalForm(schema, m)
    ensures Encode(schema, m).Some?
    decreases schema, 3
  {
    NormalFieldsEncode(schema, m, 0);
  }

  lemma {:induction false} NormalFieldsEncode(schema: seq<Field>, m: Message, i: nat)
    requires SchemaOk(schema) && NormalForm(schema, m) && i <= |schema|
    ensures EncFrom(schema, m, i).Some?
    decreases schema, 2, |schema| - i
  {
    if i < |schema| {
      NormalFieldEncodes(schema, m, i);
      NormalFieldsEncode(schema, m, i + 1);
    }
  }

  lemma {:induction false} NormalFieldEncodes(schema: seq<Field>, m: Message, i: nat)
    requires SchemaOk(schema) && NormalForm(schema, m) && i < |schema|
    ensures EncField(schema, m, i).Some?
    decreases schema, 1
  {
    var f, l := schema[i], Leader(schema, i);
    assert FieldOk(f) && SlotOk(schema, i, m[i]) && SlotOk(schema, l, m[l]);
    match f.htype
    case REQUIRED =>
      NormalItemEncodes(f, m[i].v);
    case OPTIONAL =>
      if m[i].Single? || m[i].has {
        NormalItemEncodes(f, m[i].v);
      }
    case REPEATED =>
      NormalItemsEncode(f, m[i].items);
      assert EncArray(f, m[i].items).Some?;
    case ONEOF =>
      if m[l].which == f.tag {
        FindTagAt(schema, i);
        NormalItemEncodes(f, m[l].v);
      }
  }

  lemma {:induction false} NormalItemsEncode(f: Field, items: seq<Val>)
    requires FieldOk(f) && forall k | 0 <= k < |items| :: ValOk(f, items[k])
    ensures EncPacked(f, items).Some? && EncUnpacked(f, items).Some?
    decreases f, 1, |items|
  {
    if items != [] {
      NormalItemEncodes(f, items[0]);
      NormalItemsEncode(f, items[1..]);
    }
  }

  lemma {:induction false} NormalItemEncodes(f: Field, v: Val)
    requires FieldOk(f) && ValOk(f, v)
    ensures EncVal(f, v).Some? && EncVal(f, v).Some? && Tagged(f, v).Some?
    decreases f, 0
  {
    if f.ltype.SUBMESSAGE? {
      NormalFormEncodes(f.sub, v.m);
    }
  }
}
