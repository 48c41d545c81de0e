/** pb_decode "initializes every field", but not the items of static arrays before they are counted.  On which
    storage that can go astray, exactly. */
module StaleStorage {
  import opened Config
  import opened Wrappers
  import opened Schema
  import opened Varint
  import opened Streams
  import opened OutputStreams
  import opened WireReader
  import opened Presence
  import opened RoundTrip
  import opened Allocator
  import opened Ownership
  import opened HeapReader
  import opened HeapDecoder

  // ----- One field -----

  predicate StaticArray(f: Field) {
    !f.atype.PTR? && f.ltype.SUBMESSAGE? && f.htype.REPEATED?
  }

  /** The field header, and then `t`. */
  function Tagged(f: Field, t: Bytes): Bytes {
    EncTag(WT_STRING, f.tag) + t
  }

  lemma {:induction false} TaggedReading(schema: seq<Field>, i: nat, t: Bytes, c: Course)
    requires HeapSchema(schema) && i < |schema| == |c.ns|
    ensures LoopReading(schema, Tagged(schema[i], t), c)
            == match FieldReading(schema[i], WT_STRING, t, c.ns[i])
               case Accepted(n, rest) => LoopReading(schema, rest, Course(c.ns[i := n], Marked(schema, i, c.seen)))
               case Refused => Refused
               case Astray => Astray
  {
    assert HeapField(schema[i]);
    TagRoundTrip(schema[i].tag, WT_STRING, t);
    FindTagAt(schema, i);
  }

  /** A message that is cut off in the length of the next item of a static array: it goes astray exactly if the memory
      of that item is not harmless, that is if pb_release would free a pointer or walk an array of strings there. */
  lemma {:induction false} CutOffItem(schema: seq<Field>, i: nat, t: Bytes, c: Course)
    requires HeapSchema(schema) && i < |schema| == |c.ns| && StaticArray(schema[i]) && Delimited(t).Fail?
    ensures LoopReading(schema, Tagged(schema[i], t), c)
            == if c.ns[i].raw == [] || Harmless(schema[i].sub, c.ns[i].raw[0]) then Refused else Astray
  {
    TaggedReading(schema, i, t, c);
    assert FieldReading(schema[i], WT_STRING, t, c.ns[i]) == ArrayReading(schema[i], t, c.ns[i]);
  }

  /** In particular for pb_decode, where it is the first item of the array that matters, whether the count in the
      storage reached it or not. */
  lemma {:induction false} CutOffMessage(schema: seq<Field>, i: nat, t: Bytes, storage: Node)
    requires HeapSchema(schema) && Struct(MEMORY, schema, storage) && i < |schema| == |storage.kids|
    requires Delimited(t).Fail?
    requires StaticArray(schema[i]) && schema[i].arraySize > 0
    ensures var items := storage.kids[i].kids + storage.kids[i].raw;
            && |items| == schema[i].arraySize
            && MessageReading(schema, Tagged(schema[i], t), storage)
               == if Harmless(schema[i].sub, items[0]) then Refused else Astray
  {
    MembersAt(MEMORY, schema, storage.kids, i);
    var c := Course(Reset(schema, storage.kids), {});
    assert c.ns[i] == ResetField(schema[i], storage.kids[i]);
    assert c.ns[i].raw == storage.kids[i].kids + storage.kids[i].raw;
    CutOffItem(schema, i, t, c);
    assert StructReading(schema, Tagged(schema[i], t), c.ns)
           == if Harmless(schema[i].sub, c.ns[i].raw[0]) then Refused else Astray;
  }

  // ----- A message of one byte -----

  /** A static array of one structure that has one member. */
  function Holder(member: Field): Field {
    Field(1, SUBMESSAGE, REPEATED, STATIC, 0, -1, 8, 1, None, [member])
  }

  /** Its storage, with the structure not counted. */
  function Uncounted(n: Node): Node {
    Node(0, 0, [Node(0, 0, [], [Node(0, 0, [n], [])])], [])
  }

  lemma {:induction false} UncountedShape(member: Field, n: Node)
    requires HeapField(member) && Storage(MEMORY, member, n)
    ensures HeapSchema([Holder(member)]) && Struct(MEMORY, [Holder(member)], Uncounted(n))
    ensures Harmless([member], Uncounted(n).kids[0].raw[0]) <==> FieldHarmless(member, n)
  {
    var item := Node(0, 0, [n], []);
    assert [member][0] == member && HeapSchema([member]);
    assert HeapField(Holder(member)) && [Holder(member)][0] == Holder(member);
    assert item.kids[0] == n && Struct(MEMORY, [member], item);
    assert Uncounted(n).kids[0].raw[0] == item;
    assert ItemOk(MEMORY, Holder(member), item);
    assert Items(MEMORY, Holder(member), [item]);
    assert Uncounted(n).kids[0] == Node(0, 0, [], [item]) && |[item]| == 1;
    assert StaticStorage(Holder(member), Node(0, 0, [], [item]));
    assert Storage(MEMORY, Holder(member), Uncounted(n).kids[0]);
  }

  /** The message `0A`: a header without a length. */
  lemma {:induction false} OneByte(member: Field, n: Node)
    requires HeapField(member) && Storage(MEMORY, member, n)
    ensures MessageReading([Holder(member)], [10], Uncounted(n)) == if FieldHarmless(member, n) then Refused else Astray
  {
    UncountedShape(member, n);
    assert [Holder(member)][0] == Holder(member);
    assert Tagged(Holder(member), []) == [10];
    CutOffMessage([Holder(member)], 0, [], Uncounted(n));
  }

  function StringPointer(htype: HType): Field {
    Field(1, STRING, htype, PTR, 0, -2, 8, 0, None, [])
  }

  /** If the member is a pointer to a string, pb_release frees it. */
  lemma {:induction false} StalePointer(p: nat)
    ensures MessageReading([Holder(StringPointer(OPTIONAL))], [10], Uncounted(Node(p, 0, [], [])))
            == if p == 0 then Refused else Astray
  {
    assert HeapSchema([]);
    OneByte(StringPointer(OPTIONAL), Node(p, 0, [], []));
  }

  /** If it is an array of strings whose pointer is null, pb_release reads through that pointer, unless the count
      beside it is zero. */
  lemma {:induction false} StaleCount(count: nat)
    requires count <= SIZE_MAX
    ensures MessageReading([Holder(StringPointer(REPEATED))], [10], Uncounted(Node(0, count, [], [])))
            == if count == 0 then Refused else Astray
  {
    assert HeapSchema([]);
    OneByte(StringPointer(REPEATED), Node(0, count, [], []));
  }

  /** Arrays of anything else are not walked without a pointer. */
  lemma {:induction false} OtherCount(member: Field, count: nat)
    requires HeapField(member) && member.atype.PTR? && member.htype.REPEATED? && !StringLike(member)
    requires count <= SIZE_MAX
    ensures MessageReading([Holder(member)], [10], Uncounted(Node(0, count, [], []))) == Refused
  {
    OneByte(member, Node(0, count, [], []));
  }

  /** Decoding that message, with any allocator: no memory is asked for, and pb_release is about to free a pointer that
      nobody allocated, or to read through null, exactly if the memory of the structure is not harmless. */
  method DecodeOneByte(heap: Heap, member: Field, n: Node, ghost rest: multiset<nat>) returns (ok: bool, s: Node)
    requires HeapField(member) && Storage(MEMORY, member, n) && heap.Owns(rest)
    modifies heap
    ensures !ok && (heap.stray <==> !FieldHarmless(member, n)) && heap.attempts == old(heap.attempts)
  {
    UncountedShape(member, n);
    OneByte(member, n);
    assert heap.refusals == Denied(heap.refuses, heap.attempts);
    var stream := new IStream([10]);
    ok, s := PbDecode(stream, heap, [Holder(member)], Uncounted(n), rest);
    assert heap.refusals == Denied(heap.refuses, heap.attempts);
  }

  // ----- All messages -----

  /** Bytes that a required field takes: nothing but zeros, except for the lengths of structures. */
  function FillValue(f: Field): Bytes
    decreases f
  {
    match f.ltype
    case FIXED32 => [0, 0, 0, 0]
    case FIXED64 => [0, 0, 0, 0, 0, 0, 0, 0]
    case SUBMESSAGE => Delimit(Fill(f.sub))
    case _ => [0]
  }

  /** The required fields from position `i` on. */
  function FillFrom(schema: seq<Field>, i: nat): Bytes
    requires i <= |schema|
    decreases schema, |schema| - i
  {
    if i == |schema| then []
    else (if TrackedField(schema, i) then Tagged(schema[i], FillValue(schema[i])) else []) + FillFrom(schema, i + 1)
  }

  /** A message with the required fields only. */
  function Fill(schema: seq<Field>): Bytes
    decreases schema, |schema| + 1
  {
    FillFrom(schema, 0)
  }

  /** What the decoder takes as one item of an array. */
  function FullItem(f: Field): Bytes {
    Tagged(f, Delimit(Fill(f.sub)))
  }

  /** The bytes that it takes to get to any item that can be reached. */
  function Reach(schema: seq<Field>): nat
    decreases schema
  {
    if schema == [] then 0 else FieldReach(schema[0]) + Reach(schema[1..])
  }

  function FieldReach(f: Field): nat
    decreases f
  {
    (if Fillable(f.sub) then Span(f.arraySize, |FullItem(f)|) else 0) + |EncTag(WT_STRING, f.tag)| + 10 + Reach(f.sub)
  }

  lemma {:induction false} ReachAt(schema: seq<Field>, i: nat)
    requires i < |schema|
    ensures FieldReach(schema[i]) <= Reach(schema)
  {
    if i > 0 {
      ReachAt(schema[1..], i - 1);
    }
  }

  /** A field with a payload that goes astray. */
  lemma {:induction false} Nested(schema: seq<Field>, i: nat, payload: Bytes, c: Course)
    requires HeapSchema(schema) && i < |schema| == |c.ns| && |payload| < 0x1_0000_0000
    requires FieldReading(schema[i], WT_STRING, Delimit(payload), c.ns[i]).Astray?
    ensures LoopReading(schema, Tagged(schema[i], Delimit(payload)), c).Astray?
    ensures |Tagged(schema[i], Delimit(payload))| <= |EncTag(WT_STRING, schema[i].tag)| + 10 + |payload|
  {
    TaggedReading(schema, i, Delimit(payload), c);
    DelimitShort(payload);
    EncodedLength(|payload|);
  }

  lemma {:induction false} NestedInItem(f: Field, payload: Bytes, n: Node)
    requires StaticArray(f) && n.raw != [] && |payload| < 0x1_0000_0000
    requires MessageReading(f.sub, payload, n.raw[0]).Astray?
    ensures FieldReading(f, WT_STRING, Delimit(payload), n).Astray?
  {
    DelimitRoundTrip(payload);
    assert ItemReading(f.sub, Delimit(payload), n.raw[0]).Astray?;
    assert ArrayReading(f, Delimit(payload), n).Astray?;
  }

  lemma {:induction false} NestedInStruct(f: Field, payload: Bytes, n: Node)
    requires !f.atype.PTR? && f.ltype.SUBMESSAGE? && !f.htype.REPEATED? && |payload| < 0x1_0000_0000
    requires StructReading(f.sub, payload, Inside(f, n)).Astray?
    ensures FieldReading(f, WT_STRING, Delimit(payload), n).Astray?
  {
    DelimitRoundTrip(payload);
    assert MergeReading(f.sub, Delimit(payload), Inside(f, n)).Astray?;
    assert StaticReading(f, WT_STRING, Delimit(payload), n).Astray?;
  }

  /** Zeros are taken, whatever the storage is. */
  lemma {:induction false} ValueFills(f: Field, t: Bytes, n: Node)
    requires HeapField(f) && f.htype.REQUIRED? && FieldFillable(f) && |FillValue(f)| < 0x1_0000_0000
    ensures var r := FieldReading(f, WT_STRING, FillValue(f) + t, n); r.Accepted? && r.rest == t
    decreases f, 1
  {
    if f.ltype.SUBMESSAGE? {
      StructValueFills(f, t, n);
    } else if f.atype.PTR? && StringLike(f) {
      assert ([0] + t)[1..] == t && t[0..] == t;
      assert BlockReading(f, [0] + t) == Accepted((), t);
      assert TargetReading(f, [0] + t) == NewItemReading(f, 0, [0] + t);
    } else {
      PlainFills(f, t);
      assert TargetReading(f, FillValue(f) + t) == PlainReading(f, FillValue(f) + t);
      assert f.atype.PTR? ==> NewItemReading(f, 0, FillValue(f) + t) == TargetReading(f, FillValue(f) + t);
    }
  }

  lemma {:induction false} PlainFills(f: Field, t: Bytes)
    requires HeapField(f) && FieldFillable(f) && !f.ltype.SUBMESSAGE? && !(f.atype.PTR? && StringLike(f))
    ensures PlainReading(f, FillValue(f) + t) == Accepted((), t)
  {
    var s := FillValue(f) + t;
    if f.ltype.FIXED32? {
      assert s[4..] == t;
    } else if f.ltype.FIXED64? {
      assert s[8..] == t;
    } else {
      assert s[1..] == t && t[0..] == t;
      ZeroByte(t);
      ZeroFits(f);
    }
  }

  lemma ZeroByte(t: Bytes)
    ensures Varint32([0] + t) == Done(0, t) && Varint64([0] + t) == Done(0, t)
  {
    assert EncVarint(0) == [0];
    Varint32RoundTrip(0, t);
    Varint64RoundTrip(0, t);
  }

  /** Zero is a value of every integer type. */
  lemma ZeroFits(f: Field)
    requires f.ltype.VARINT? || f.ltype.UVARINT? || f.ltype.SVARINT? ==> IntSize(f.dataSize)
    ensures Packable(f.ltype) && !f.ltype.FIXED32? && !f.ltype.FIXED64? ==> Convert(f, 0) == Some(0)
  {}

  lemma {:induction false} StructValueFills(f: Field, t: Bytes, n: Node)
    requires HeapField(f) && f.htype.REQUIRED? && f.ltype.SUBMESSAGE? && FieldFillable(f)
    requires |FillValue(f)| < 0x1_0000_0000
    ensures var r := FieldReading(f, WT_STRING, FillValue(f) + t, n); r.Accepted? && r.rest == t
    decreases f, 0
  {
    var s := FillValue(f) + t;
    DelimitTail(Fill(f.sub), t);
    if f.atype.PTR? {
      StructFills(f.sub, Reset(f.sub, Zero(f.sub).kids));
      assert ItemReading(f.sub, s, Zero(f.sub)) == Accepted((), t);
      assert NewItemReading(f, 0, s) == TargetReading(f, s);
    } else {
      StructFills(f.sub, Inside(f, n));
      assert MergeReading(f.sub, s, Inside(f, n)).Accepted?;
      assert StaticReading(f, WT_STRING, s, n).Accepted?;
    }
  }

  /** The required fields from position `i` on have been seen. */
  predicate SeenFrom(schema: seq<Field>, i: nat, seen: set<nat>) {
    forall j | i <= j < |schema| && TrackedField(schema, j) :: ReqIndex(schema, j) in seen
  }

  lemma {:induction false} LoopFills(schema: seq<Field>, i: nat, c: Course)
    requires HeapSchema(schema) && Fillable(schema) && i <= |schema| == |c.ns|
    requires |FillFrom(schema, i)| < 0x1_0000_0000
    ensures var r := LoopReading(schema, FillFrom(schema, i), c);
            r.Accepted? && c.seen <= r.v.seen && SeenFrom(schema, i, r.v.seen)
    decreases schema, 0, |schema| - i
  {
    if i < |schema| {
      if TrackedField(schema, i) {
        var c' := FillNext(schema, i, c);
        LoopFills(schema, i + 1, c');
      } else {
        assert FillFrom(schema, i) == FillFrom(schema, i + 1);
        LoopFills(schema, i + 1, c);
      }
    }
  }

  lemma TaggedTail(f: Field, v: Bytes, t: Bytes)
    ensures Tagged(f, v) + t == Tagged(f, v + t)
  {
    Join(EncTag(WT_STRING, f.tag), v, t);
  }

  lemma Join(a: Bytes, b: Bytes, c: Bytes)
    ensures a + b + c == a + (b + c) && |b| + |c| <= |a + (b + c)|
  {}

  lemma FillStep(schema: seq<Field>, i: nat)
    requires i < |schema| && TrackedField(schema, i)
    ensures FillFrom(schema, i) == Tagged(schema[i], FillValue(schema[i])) + FillFrom(schema, i + 1)
  {}

  lemma {:induction false} FillNext(schema: seq<Field>, i: nat, c: Course) returns (c': Course)
    requires HeapSchema(schema) && Fillable(schema) && i < |schema| == |c.ns| && TrackedField(schema, i)
    requires |FillFrom(schema, i)| < 0x1_0000_0000
    ensures |FillFrom(schema, i + 1)| < 0x1_0000_0000
    ensures |c'.ns| == |schema| && c'.seen == c.seen + {ReqIndex(schema, i)}
    ensures LoopReading(schema, FillFrom(schema, i), c) == LoopReading(schema, FillFrom(schema, i + 1), c')
    decreases schema, 0, |schema| - i, 0
  {
    var f, t := schema[i], FillFrom(schema, i + 1);
    FillStep(schema, i);
    TaggedTail(f, FillValue(f), t);
    Join(EncTag(WT_STRING, f.tag), FillValue(f), t);
    FieldOfSchema(schema, i);
    ValueFills(f, t, c.ns[i]);
    TaggedReading(schema, i, FillValue(f) + t, c);
    var n := FieldReading(f, WT_STRING, FillValue(f) + t, c.ns[i]).v;
    c' := Course(c.ns[i := n], Marked(schema, i, c.seen));
  }

  /** A fillable structure is accepted with nothing but zeros, whatever its storage is. */
  lemma {:induction false} StructFills(schema: seq<Field>, ns: seq<Node>)
    requires HeapSchema(schema) && Fillable(schema) && |Fill(schema)| < 0x1_0000_0000 && |ns| == |schema|
    ensures StructReading(schema, Fill(schema), ns).Accepted?
    decreases schema, 1
  {
    LoopFills(schema, 0, Course(ns, {}));
    var seen := LoopReading(schema, Fill(schema), Course(ns, {})).v.seen;
    forall r: nat | r < ReqIndex(schema, |schema|) && r < MAX_REQUIRED ensures r in seen {
      var i := FieldOfBit(schema, r, |schema|);
      assert TrackedField(schema, i);
    }
  }

  /** A whole item uses up the memory of one item, whatever it holds. */
  lemma {:induction false} PassItem(schema: seq<Field>, i: nat, t: Bytes, c: Course) returns (c': Course)
    requires HeapSchema(schema) && i < |schema| == |c.ns| && StaticArray(schema[i]) && Fillable(schema[i].sub)
    requires |Fill(schema[i].sub)| < 0x1_0000_0000 && c.ns[i].raw != []
    ensures c' == Course(c.ns[i := Node(0, c.ns[i].count + 1, [], c.ns[i].raw[1..])], c.seen)
    ensures LoopReading(schema, FullItem(schema[i]) + t, c) == LoopReading(schema, t, c')
  {
    var f, n, s := schema[i], c.ns[i], Delimit(Fill(schema[i].sub)) + t;
    assert FullItem(f) + t == Tagged(f, s);
    TaggedReading(schema, i, s, c);
    FieldOfSchema(schema, i);
    ItemFills(f, t, n);
    c' := Course(c.ns[i := Node(0, n.count + 1, [], n.raw[1..])], c.seen);
  }

  lemma FieldOfSchema(schema: seq<Field>, i: nat)
    requires HeapSchema(schema) && i < |schema|
    ensures HeapField(schema[i])
  {}

  lemma {:induction false} ItemFills(f: Field, t: Bytes, n: Node)
    requires HeapField(f) && StaticArray(f) && Fillable(f.sub) && |Fill(f.sub)| < 0x1_0000_0000 && n.raw != []
    ensures FieldReading(f, WT_STRING, Delimit(Fill(f.sub)) + t, n)
            == Accepted(Node(0, n.count + 1, [], n.raw[1..]), t)
  {
    var s := Delimit(Fill(f.sub)) + t;
    DelimitTail(Fill(f.sub), t);
    StructFills(f.sub, Reset(f.sub, n.raw[0].kids));
    assert ItemReading(f.sub, s, n.raw[0]) == Accepted((), t);
    assert ArrayReading(f, s, n) == Accepted(Node(0, n.count + 1, [], n.raw[1..]), t);
  }

  /** If the memory of an item that can be reached is not clear, some input goes astray on it. */
  lemma {:induction false} AstrayAtItem(schema: seq<Field>, i: nat, k: nat, c: Course) returns (s: Bytes)
    requires HeapSchema(schema) && Reach(schema) < 0x1_0000_0000
    requires i < |schema| == |c.ns| && StaticArray(schema[i]) && Items(MEMORY, schema[i], c.ns[i].raw)
    requires k < |c.ns[i].raw| && k < schema[i].arraySize && (k == 0 || Fillable(schema[i].sub))
    requires !ItemClear(schema[i], c.ns[i].raw[k])
    ensures LoopReading(schema, s, c).Astray?
    ensures |s| <= Span(k, |FullItem(schema[i])|) + |EncTag(WT_STRING, schema[i].tag)| + 10 + Reach(schema[i].sub)
    decreases schema, 0, k + 1
  {
    var f := schema[i];
    assert HeapField(f);
    if k > 0 {
      ReachAt(schema, i);
      SpanInside(0, f.arraySize, |FullItem(f)|);
      var c' := PassItem(schema, i, [], c);
      var s' := AstrayAtItem(schema, i, k - 1, c');
      var c'' := PassItem(schema, i, s', c);
      s := FullItem(f) + s';
    } else {
      s := AstrayAtFirst(schema, i, c);
    }
  }

  lemma {:induction false} AstrayAtFirst(schema: seq<Field>, i: nat, c: Course) returns (s: Bytes)
    requires HeapSchema(schema) && Reach(schema) < 0x1_0000_0000
    requires i < |schema| == |c.ns| && StaticArray(schema[i]) && Items(MEMORY, schema[i], c.ns[i].raw)
    requires c.ns[i].raw != [] && !ItemClear(schema[i], c.ns[i].raw[0])
    ensures LoopReading(schema, s, c).Astray?
    ensures |s| <= |EncTag(WT_STRING, schema[i].tag)| + 10 + Reach(schema[i].sub)
    decreases schema, 0, 0
  {
    var f, raw := schema[i], c.ns[i].raw;
    assert HeapField(f);
    ReachAt(schema, i);
    if !Harmless(f.sub, raw[0]) {
      CutOffItem(schema, i, [], c);
      s := Tagged(f, []);
    } else {
      assert ItemOk(MEMORY, f, raw[0]);
      ResetIsStruct(f.sub, raw[0]);
      MembersRelax(OWNED, MEMORY, f.sub, Reset(f.sub, raw[0].kids));
      var payload := AstrayInput(f.sub, Reset(f.sub, raw[0].kids));
      NestedInItem(f, payload, c.ns[i]);
      Nested(schema, i, payload, c);
      s := Tagged(f, Delimit(payload));
    }
  }

  lemma {:induction false} AstrayAtSome(schema: seq<Field>, i: nat, ns: seq<Node>) returns (s: Bytes)
    requires HeapSchema(schema) && Reach(schema) < 0x1_0000_0000
    requires i < |schema| == |ns| && StaticArray(schema[i])
    requires Storage(MEMORY, schema[i], ns[i]) && !ArrayClear(schema[i], ns[i])
    ensures StructReading(schema, s, ns).Astray? && |s| <= FieldReach(schema[i])
    decreases schema, 1
  {
    var f, raw := schema[i], ns[i].raw;
    var k :| 0 <= k < |raw| && (k == 0 || Fillable(f.sub)) && !ItemClear(f, raw[k]);
    s := AstrayAtItem(schema, i, k, Course(ns, {}));
    if k > 0 {
      SpanInside(k, f.arraySize, |FullItem(f)|);
    }
  }

  lemma {:induction false} AstrayInput(schema: seq<Field>, ns: seq<Node>) returns (s: Bytes)
    requires HeapSchema(schema) && Reach(schema) < 0x1_0000_0000
    requires Members(MEMORY, schema, ns) && !ArraysClear(schema, ns)
    ensures StructReading(schema, s, ns).Astray? && |s| <= Reach(schema)
    decreases schema, 2
  {
    var i :| 0 <= i < |schema| && !ArrayClear(schema[i], ns[i]);
    MembersAt(MEMORY, schema, ns, i);
    ReachAt(schema, i);
    if schema[i].htype.REPEATED? {
      s := AstrayAtSome(schema, i, ns);
    } else {
      var payload := AstrayInside(schema[i], ns[i]);
      Nested(schema, i, payload, Course(ns, {}));
      s := Tagged(schema[i], Delimit(payload));
    }
  }

  lemma {:induction false} AstrayInside(f: Field, n: Node) returns (payload: Bytes)
    requires HeapField(f) && !f.atype.PTR? && f.ltype.SUBMESSAGE? && !f.htype.REPEATED?
    requires Reach(f.sub) < 0x1_0000_0000 && Storage(MEMORY, f, n) && !ArrayClear(f, n)
    ensures FieldReading(f, WT_STRING, Delimit(payload), n).Astray? && |payload| <= Reach(f.sub)
    decreases f
  {
    assert ItemOk(MEMORY, f, n.kids[0]) && Struct(MEMORY, f.sub, n.kids[0]);
    assert Members(MEMORY, f.sub, n.kids[0].kids) && Inside(f, n) == n.kids[0].kids;
    payload := AstrayInput(f.sub, Inside(f, n));
    NestedInStruct(f, payload, n);
  }

  /** pb_decode is safe on a memory whatever the input is, exactly if those items of its static arrays that an input
      can get to are harmless, nested arrays included: of every array the first item, and all of them if items can be
      received at all.  Where it would take 4 GB to get to an item, harmless items are still enough. */
  lemma {:induction false} SafeStorage(schema: seq<Field>, storage: Node)
    requires HeapSchema(schema) && Struct(MEMORY, schema, storage)
    ensures ArraysClear(schema, Reset(schema, storage.kids)) ==>
              forall s: Bytes :: !MessageReading(schema, s, storage).Astray?
    ensures Reach(schema) < 0x1_0000_0000 ==>
              (ArraysClear(schema, Reset(schema, storage.kids))
               <==> forall s: Bytes :: !MessageReading(schema, s, storage).Astray?)
  {
    var ns := Reset(schema, storage.kids);
    if ArraysClear(schema, ns) {
      forall s: Bytes ensures !MessageReading(schema, s, storage).Astray? {
        MessageClear(schema, s, storage);
      }
    } else if Reach(schema) < 0x1_0000_0000 {
      ResetIsStruct(schema, storage);
      MembersRelax(OWNED, MEMORY, schema, ns);
      var s := AstrayInput(schema, ns);
      assert MessageReading(schema, s, storage).Astray?;
    }
  }

  /** Of items that cannot be received, no input gets to a second one. */
  lemma {:induction false} OutOfReach(f: Field, s: Bytes, n: Node)
    requires StaticArray(f) && !Fillable(f.sub)
    ensures !ArrayReading(f, s, n).Accepted?
  {
    if n.raw != [] && ItemReading(f.sub, s, n.raw[0]).Accepted? {
      ItemFillable(f.sub, s, n.raw[0]);
    }
  }
}
