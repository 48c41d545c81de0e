/** Which messages the decoder with PB_ENABLE_MALLOC accepts, if no allocation is refused: those whose records are
    acceptable for a message type in which pointers are as good as storage of the largest size. */
module PointerRecords {
  import opened Config
  import opened Wrappers
  import opened Schema
  import opened Varint
  import opened Streams
  import opened WireReader
  import opened Presence
  import opened Allocator
  import opened Ownership
  import opened HeapReader
  import opened Records
  import opened Occurrences

  /** What a pointer makes room for: a string with its terminator in 32 bits, bytes with their count in a `size_t`, and
      PB_SIZE_MAX items. */
  function Roomy(f: Field): Field
    decreases f
  {
    f.(dataSize := if f.atype.PTR? && f.ltype.STRING? then 0xFFFF_FFFF
                   else if f.atype.PTR? && f.ltype.BYTES? then SIZE_T_MAX else f.dataSize,
       arraySize := if f.atype.PTR? then SIZE_MAX else f.arraySize,
       sub := AllRoomy(f.sub))
  }

  function AllRoomy(schema: seq<Field>): (r: seq<Field>)
    ensures |r| == |schema|
    decreases schema
  {
    seq(|schema|, i requires 0 <= i < |schema| => Roomy(schema[i]))
  }

  /** No item is too large to be allocated, nor are PB_SIZE_MAX of them. */
  predicate SizesOk(schema: seq<Field>)
    decreases schema
  {
    forall i | 0 <= i < |schema| :: SizeOk(schema[i])
  }

  predicate SizeOk(f: Field)
    decreases f
  {
    && SizesOk(f.sub)
    && (f.atype.PTR? && f.htype.REPEATED? ==> forall n | 1 <= n <= SIZE_MAX :: Allocatable(f.dataSize, n))
    && (f.atype.PTR? && !f.htype.REPEATED? && !StringLike(f) ==> Allocatable(f.dataSize, 1))
  }

  predicate PointersOk(schema: seq<Field>) {
    HeapSchema(schema) && SizesOk(schema)
  }

  predicate PointerOk(f: Field) {
    HeapField(f) && SizeOk(f)
  }

  // ----- The two message types -----

  lemma {:induction false} SameTags(schema: seq<Field>, tag: nat)
    ensures FindTag(AllRoomy(schema), tag) == FindTag(schema, tag)
  {
    if schema != [] {
      assert AllRoomy(schema)[1..] == AllRoomy(schema[1..]);
      SameTags(schema[1..], tag);
    }
  }

  lemma {:induction false} SameRequired(schema: seq<Field>, i: nat)
    requires i <= |schema|
    ensures ReqIndex(AllRoomy(schema), i) == ReqIndex(schema, i)
    ensures TrackedField(AllRoomy(schema), i) <==> TrackedField(schema, i)
  {
    if i > 0 {
      SameRequired(schema, i - 1);
    }
  }

  // ----- The storage so far -----

  /** The counts are those of the records, and static arrays have room for the rest. */
  predicate Held(schema: seq<Field>, ns: seq<Node>, rs: seq<Record>)
    decreases schema
  {
    |ns| == |schema| && forall i | 0 <= i < |schema| :: FieldHeld(schema[i], i, ns[i], rs)
  }

  predicate FieldHeld(f: Field, i: nat, n: Node, rs: seq<Record>)
    decreases f
  {
    if f.htype.REPEATED? then
      && n.count == Count(i, rs)
      && (f.ltype.SUBMESSAGE? && !f.atype.PTR? ==> n.count + |n.raw| == f.arraySize && Items(MEMORY, f, n.raw))
    else f.ltype.SUBMESSAGE? && !f.atype.PTR? ==> Held(f.sub, Inside(f, n), InnerRecords(i, rs))
  }

  lemma {:induction false} NothingHeld(schema: seq<Field>, ns: seq<Node>)
    requires HeapSchema(schema) && Members(MEMORY, schema, ns)
    ensures Held(schema, Reset(schema, ns), [])
    decreases schema
  {
    forall i | 0 <= i < |schema| ensures FieldHeld(schema[i], i, Reset(schema, ns)[i], []) {
      assert HeapField(schema[i]) && Storage(MEMORY, schema[i], ns[i]);
      NothingHeldIn(schema[i], i, ns[i]);
    }
  }

  lemma {:induction false} NothingHeldIn(f: Field, i: nat, n: Node)
    requires HeapField(f) && Storage(MEMORY, f, n)
    ensures FieldHeld(f, i, ResetField(f, n), [])
    decreases f
  {
    if f.ltype.SUBMESSAGE? && !f.htype.REPEATED? && !f.atype.PTR? {
      assert ItemOk(MEMORY, f, n.kids[0]) && Struct(MEMORY, f.sub, n.kids[0]);
      NothingHeld(f.sub, n.kids[0].kids);
    }
  }

  lemma {:induction false} OtherHeld(f: Field, i: nat, n: Node, rs: seq<Record>, r: Record)
    requires FieldHeld(f, i, n, rs) && r.i != i
    ensures FieldHeld(f, i, n, rs + [r])
  {
    CountMore(i, rs, r);
    InnerMore(i, rs, r);
    assert InnerRecords(i, rs) + [] == InnerRecords(i, rs);
  }

  // ----- Items -----

  /** The items behind a pointer are limited by their size only. */
  lemma {:induction false} PlainHeld(f: Field, s: Bytes)
    requires HeapField(f) && !f.ltype.SUBMESSAGE?
    ensures var p := DecVal(Roomy(f), s, IntVal(0));
            var r := if f.atype.PTR? then TargetReading(f, s) else PlainReading(f, s);
            if p.Done? then r == Accepted((), p.rest) else !r.Accepted?
  {
    var p := DecVal(Roomy(f), s, IntVal(0));
    if f.atype.PTR? && StringLike(f) {
      assert p == Block(s, Roomy(f));
    } else {
      assert p == DecVal(f, s, IntVal(0));
    }
  }

  /** All numbers are counted, if there is room for them. */
  predicate AllCounted(f: Field, count: nat, r: Option<nat>, vs: Option<seq<Val>>) {
    r == if vs.Some? && count + |vs.value| <= Limit(f) then Some(count + |vs.value|) else None
  }

  lemma OneMoreCounted(f: Field, count: nat, r: Option<nat>, v: Val, more: Option<seq<Val>>)
    requires AllCounted(f, count + 1, r, more)
    ensures AllCounted(f, count, r, if more.None? then None else Some([v] + more.value))
  {}

  lemma {:induction false} NumbersHeld(f: Field, s: Bytes, count: nat, room: nat)
    requires PointerOk(f) && f.htype.REPEATED? && Packable(f.ltype) && count <= Limit(f)
    ensures AllCounted(f, count, NumbersReading(f, s, count, room), PackedValues(Roomy(f), s))
    decreases |s|
  {
    if s == [] {
      assert PackedValues(Roomy(f), s) == Some([]);
    } else {
      var p := DecVal(Roomy(f), s, IntVal(0));
      PackedStep(Roomy(f), s, [], 0);
      if count == Limit(f) {
        assert NumbersReading(f, s, count, room).None?;
      } else {
        NumberStep(f, s, count, room);
        if p.Done? {
          NumbersHeld(f, p.rest, count + 1, NextRoom(f, s, count, room));
          OneMoreCounted(f, count, NumbersReading(f, s, count, room), p.v, PackedValues(Roomy(f), p.rest));
        }
      }
    }
  }

  function NextRoom(f: Field, s: Bytes, count: nat, room: nat): nat
    requires PointerOk(f) && f.htype.REPEATED? && Packable(f.ltype) && s != [] && count < Limit(f)
  {
    if f.atype.PTR? then RoomFor(f, count, room, |s|).value else room
  }

  lemma NumberStep(f: Field, s: Bytes, count: nat, room: nat)
    requires PointerOk(f) && f.htype.REPEATED? && Packable(f.ltype) && s != [] && count < Limit(f)
    ensures var p := DecVal(Roomy(f), s, IntVal(0));
            NumbersReading(f, s, count, room)
            == if p.Done? then NumbersReading(f, p.rest, count + 1, NextRoom(f, s, count, room)) else None
  {
    assert DecVal(Roomy(f), s, IntVal(0)) == DecVal(f, s, IntVal(0));
  }

  /** The next record of field `i` is read if it is acceptable, and counted. */
  predicate FieldReads(schema: seq<Field>, i: nat, rs: seq<Record>, r: Reading<Node>, q: Parse<Record>)
    requires i < |schema|
  {
    if q.Done? && InnerWhole(AllRoomy(schema), q.v) && FieldCounts(Roomy(schema[i]), i, rs + [q.v]) then
      r.Accepted? && r.rest == q.rest && FieldHeld(schema[i], i, r.v, rs + [q.v])
    else !r.Accepted?
  }

  lemma {:induction false} PackedReads(schema: seq<Field>, i: nat, s: Bytes, rs: seq<Record>, n: Node)
    requires i < |schema| && PointerOk(schema[i]) && schema[i].htype.REPEATED? && Packable(schema[i].ltype)
    requires n.count == Count(i, rs) && FieldCounts(Roomy(schema[i]), i, rs)
    ensures FieldReads(schema, i, rs, PackedReading(schema[i], s, n.count),
                       FieldRecord(AllRoomy(schema), i, WT_STRING, s))
  {
    var f, d, q := schema[i], Delimited(s), FieldRecord(AllRoomy(schema), i, WT_STRING, s);
    if d.Done? {
      NumbersHeld(f, d.v, n.count, n.count);
      if q.Done? {
        CountMore(i, rs, q.v);
      }
    }
  }

  /** One submessage, received from the start. */
  lemma {:induction false} ItemHeld(sub: seq<Field>, s: Bytes, item: Node)
    requires PointersOk(sub) && Struct(MEMORY, sub, item)
    ensures var d, r := Delimited(s), ItemReading(sub, s, item);
            var a := if d.Done? then RecordsOf(AllRoomy(sub), d.v) else Fail;
            if a.Done? && Whole(AllRoomy(sub), a.v) && Counts(AllRoomy(sub), a.v) then r == Accepted((), d.rest)
            else !r.Accepted?
    decreases |s|, 0
  {
    var d := Delimited(s);
    if d.Done? {
      NothingHeld(sub, item.kids);
      NoRecords(AllRoomy(sub));
      StructReads(sub, d.v, [], Reset(sub, item.kids));
      var a := RecordsOf(AllRoomy(sub), d.v);
      if a.Done? {
        assert [] + a.v == a.v;
      }
    }
  }

  lemma {:induction false} ArrayReads(schema: seq<Field>, i: nat, wireType: nat, s: Bytes, rs: seq<Record>, n: Node)
    requires i < |schema| && PointerOk(schema[i]) && FieldHeld(schema[i], i, n, rs)
    requires schema[i].htype.REPEATED? && schema[i].ltype.SUBMESSAGE? && !schema[i].atype.PTR?
    requires FieldCounts(Roomy(schema[i]), i, rs)
    ensures FieldReads(schema, i, rs, ArrayReading(schema[i], s, n), FieldRecord(AllRoomy(schema), i, wireType, s))
    decreases |s|, 1
  {
    var f, q := schema[i], FieldRecord(AllRoomy(schema), i, wireType, s);
    if n.raw != [] {
      assert ItemOk(MEMORY, f, n.raw[0]);
      ItemHeld(f.sub, s, n.raw[0]);
    }
    if q.Done? {
      CountMore(i, rs, q.v);
      LatestCounts(Roomy(f), i, rs, q.v);
    }
  }

  lemma {:induction false} MergeReads(schema: seq<Field>, i: nat, wireType: nat, s: Bytes, rs: seq<Record>, n: Node)
    requires i < |schema| && PointerOk(schema[i]) && FieldHeld(schema[i], i, n, rs)
    requires !schema[i].htype.REPEATED? && schema[i].ltype.SUBMESSAGE? && !schema[i].atype.PTR?
    requires FieldCounts(Roomy(schema[i]), i, rs)
    ensures FieldReads(schema, i, rs, StaticReading(schema[i], wireType, s, n),
                       FieldRecord(AllRoomy(schema), i, wireType, s))
    decreases |s|, 1
  {
    var f, d, q := schema[i], Delimited(s), FieldRecord(AllRoomy(schema), i, wireType, s);
    if d.Done? {
      StructReads(f.sub, d.v, InnerRecords(i, rs), Inside(f, n));
      if q.Done? {
        InnerMore(i, rs, q.v);
      }
    }
  }

  lemma {:induction false} PointerReads(schema: seq<Field>, i: nat, wireType: nat, s: Bytes, rs: seq<Record>, n: Node)
    requires i < |schema| && PointerOk(schema[i]) && FieldHeld(schema[i], i, n, rs) && schema[i].atype.PTR?
    requires FieldCounts(Roomy(schema[i]), i, rs)
    ensures FieldReads(schema, i, rs, PointerReading(schema[i], wireType, s, n),
                       FieldRecord(AllRoomy(schema), i, wireType, s))
    decreases |s|, 2
  {
    var f, q := schema[i], FieldRecord(AllRoomy(schema), i, wireType, s);
    if f.htype.REPEATED? && wireType == WT_STRING && Packable(f.ltype) {
      PackedReads(schema, i, s, rs, n);
    } else {
      TargetReads(schema, i, wireType, s);
      if q.Done? {
        CountMore(i, rs, q.v);
        LatestCounts(Roomy(f), i, rs, q.v);
      }
      if !f.htype.REPEATED? || n.count < SIZE_MAX {
        assert !SizeRefused(f, if f.htype.REPEATED? then n.count else 0);
      }
    }
  }

  lemma {:induction false} TargetReads(schema: seq<Field>, i: nat, wireType: nat, s: Bytes)
    requires i < |schema| && PointerOk(schema[i]) && schema[i].atype.PTR?
    requires !(schema[i].htype.REPEATED? && wireType == WT_STRING && Packable(schema[i].ltype))
    ensures var r, q := TargetReading(schema[i], s), FieldRecord(AllRoomy(schema), i, wireType, s);
            if q.Done? && Sound(Roomy(schema[i]), q.v) then r == Accepted((), q.rest) else !r.Accepted?
    decreases |s|, 1
  {
    var f := schema[i];
    if f.ltype.SUBMESSAGE? {
      ZeroIsStruct(f.sub);
      StructRelax(OWNED, MEMORY, f.sub, Zero(f.sub));
      ItemHeld(f.sub, s, Zero(f.sub));
    } else {
      PlainHeld(f, s);
    }
  }

  lemma {:induction false} PlainReads(schema: seq<Field>, i: nat, wireType: nat, s: Bytes, rs: seq<Record>, n: Node)
    requires i < |schema| && PointerOk(schema[i]) && FieldHeld(schema[i], i, n, rs)
    requires !schema[i].ltype.SUBMESSAGE? && !schema[i].atype.PTR?
    requires FieldCounts(Roomy(schema[i]), i, rs)
    ensures FieldReads(schema, i, rs, StaticReading(schema[i], wireType, s, n),
                       FieldRecord(AllRoomy(schema), i, wireType, s))
    decreases |s|, 1
  {
    var f, q := schema[i], FieldRecord(AllRoomy(schema), i, wireType, s);
    if f.htype.REPEATED? && wireType == WT_STRING && Packable(f.ltype) {
      PackedReads(schema, i, s, rs, n);
    } else {
      PlainHeld(f, s);
      if q.Done? {
        CountMore(i, rs, q.v);
      }
    }
  }

  lemma {:induction false} FieldIsRead(schema: seq<Field>, i: nat, wireType: nat, s: Bytes, rs: seq<Record>, n: Node)
    requires i < |schema| && PointerOk(schema[i]) && FieldHeld(schema[i], i, n, rs)
    requires FieldCounts(Roomy(schema[i]), i, rs)
    ensures FieldReads(schema, i, rs, FieldReading(schema[i], wireType, s, n),
                       FieldRecord(AllRoomy(schema), i, wireType, s))
    decreases |s|, 3
  {
    var f := schema[i];
    if f.atype.PTR? {
      PointerReads(schema, i, wireType, s, rs, n);
    } else if !f.ltype.SUBMESSAGE? {
      PlainReads(schema, i, wireType, s, rs, n);
    } else if f.htype.REPEATED? {
      ArrayReads(schema, i, wireType, s, rs, n);
    } else {
      MergeReads(schema, i, wireType, s, rs, n);
    }
  }

  // ----- All fields -----

  predicate StepReads(schema: seq<Field>, rs: seq<Record>, c: Course, r: Reading<Course>, q: Parse<Record>) {
    if q.Done? && Taken(AllRoomy(schema), rs, q.v, -1, 0) then
      && r.Accepted? && r.rest == q.rest && Held(schema, r.v.ns, rs + [q.v])
      && SeenAfter(schema, c.seen, [q.v], r.v.seen)
    else !r.Accepted?
  }

  lemma {:induction false} HeldMore(schema: seq<Field>, rs: seq<Record>, ns: seq<Node>, r: Record, n: Node)
    requires Held(schema, ns, rs) && (r.i < |schema| ==> FieldHeld(schema[r.i], r.i, n, rs + [r]))
    ensures Held(schema, if r.i < |schema| then ns[r.i := n] else ns, rs + [r])
  {
    forall j | 0 <= j < |schema| && j != r.i ensures FieldHeld(schema[j], j, ns[j], rs + [r]) {
      OtherHeld(schema[j], j, ns[j], rs, r);
    }
  }

  lemma {:induction false} NextReads(schema: seq<Field>, tag: nat, wireType: nat, s: Bytes, rs: seq<Record>, c: Course)
    requires PointersOk(schema) && Held(schema, c.ns, rs) && Counts(AllRoomy(schema), rs)
    ensures StepReads(schema, rs, c, NextReading(schema, tag, wireType, s, c),
                      NextRecord(AllRoomy(schema), tag, wireType, s))
    decreases |s|, 4
  {
    var i := FindTag(schema, tag);
    SameTags(schema, tag);
    if i < |schema| {
      var r, q := FieldReading(schema[i], wireType, s, c.ns[i]), FieldRecord(AllRoomy(schema), i, wireType, s);
      assert PointerOk(schema[i]) && FieldCounts(AllRoomy(schema)[i], i, rs);
      FieldIsRead(schema, i, wireType, s, rs, c.ns[i]);
      MarkedSeen(schema, i, c.seen, q);
      if q.Done? && r.Accepted? {
        HeldMore(schema, rs, c.ns, q.v, r.v);
      }
    } else {
      var r := Unknown(|schema|);
      HeldMore(schema, rs, c.ns, r, EMPTY);
      assert [r][0].i == |schema|;
    }
  }

  lemma {:induction false} MarkedSeen(schema: seq<Field>, i: nat, seen: set<nat>, q: Parse<Record>)
    requires i < |schema| && (q.Done? ==> q.v.i == i)
    ensures q.Done? ==> SeenAfter(schema, seen, [q.v], Marked(schema, i, seen))
  {
    MarkedAfter(schema, i, Progress([], seen, -1, 0), Progress([], Marked(schema, i, seen), -1, 0), q);
  }

  predicate LoopReads(schema: seq<Field>, rs: seq<Record>, c: Course, r: Reading<Course>, a: Parse<seq<Record>>) {
    if a.Done? && Passes(AllRoomy(schema), rs, a.v, -1, 0) then
      && r.Accepted? && r.rest == a.rest && Held(schema, r.v.ns, rs + a.v)
      && SeenAfter(schema, c.seen, a.v, r.v.seen)
    else !r.Accepted?
  }

  lemma {:induction false} LoopIsRead(schema: seq<Field>, s: Bytes, rs: seq<Record>, c: Course)
    requires PointersOk(schema) && Held(schema, c.ns, rs) && Counts(AllRoomy(schema), rs)
    ensures LoopReads(schema, rs, c, LoopReading(schema, s, c), RecordsOf(AllRoomy(schema), s))
    decreases |s|, 5
  {
    match ReadTag(s)
    case TagError =>
    case Stop(rest) => assert rs + [] == rs;
    case Header(tag, wireType, rest) =>
      NextReads(schema, tag, wireType, rest, rs, c);
      var r, q := NextReading(schema, tag, wireType, rest, c), NextRecord(AllRoomy(schema), tag, wireType, rest);
      if q.Done? {
        var more := RecordsOf(AllRoomy(schema), q.rest);
        NeverFixed(schema, q.v);
        PassesStep(AllRoomy(schema), rs, q.v, if more.Done? then more.v else [], -1, 0);
        if r.Accepted? {
          LoopIsRead(schema, q.rest, rs + [q.v], r.v);
          if more.Done? {
            assert rs + ([q.v] + more.v) == rs + [q.v] + more.v;
            SeenConcat(schema, c.seen, q.v, r.v.seen, more.v);
          }
        }
      }
  }

  lemma NeverFixed(schema: seq<Field>, r: Record)
    requires HeapSchema(schema)
    ensures NextFix(AllRoomy(schema), r, -1) == -1 && NextCount(AllRoomy(schema), r, -1, 0) == 0
  {
    if r.i < |schema| { assert HeapField(schema[r.i]); }
  }

  lemma {:induction false} StructReads(schema: seq<Field>, s: Bytes, rs: seq<Record>, ns: seq<Node>)
    requires PointersOk(schema) && Held(schema, ns, rs) && Counts(AllRoomy(schema), rs)
    ensures var a, r := RecordsOf(AllRoomy(schema), s), StructReading(schema, s, ns);
            if a.Done? && Whole(AllRoomy(schema), a.v) && Counts(AllRoomy(schema), rs + a.v) then
              r.Accepted? && r.rest == a.rest && Held(schema, r.v, rs + a.v)
            else !r.Accepted?
    decreases |s|, 6
  {
    var c := Course(ns, {});
    LoopIsRead(schema, s, rs, c);
    var a, r := RecordsOf(AllRoomy(schema), s), LoopReading(schema, s, c);
    if a.Done? && r.Accepted? {
      AllRequired(schema, a.v, r.v.seen);
      forall i | 0 <= i < |schema| ensures TrackedField(AllRoomy(schema), i) <==> TrackedField(schema, i) {
        SameRequired(schema, i);
      }
    }
  }

  /** The inputs that pb_decode accepts with PB_ENABLE_MALLOC if the allocator grants every request, on any storage:
      those whose records are acceptable when every pointer is taken for storage of the largest size. */
  lemma {:induction false} PointersAccept(schema: seq<Field>, s: Bytes, storage: Node)
    requires PointersOk(schema) && Struct(MEMORY, schema, storage)
    ensures var a, r := RecordsOf(AllRoomy(schema), s), MessageReading(schema, s, storage);
            if a.Done? && Whole(AllRoomy(schema), a.v) && Counts(AllRoomy(schema), a.v) then
              r.Accepted? && r.rest == a.rest && Held(schema, r.v, a.v)
            else !r.Accepted?
  {
    NothingHeld(schema, storage.kids);
    NoRecords(AllRoomy(schema));
    StructReads(schema, s, [], Reset(schema, storage.kids));
    var a := RecordsOf(AllRoomy(schema), s);
    if a.Done? {
      assert [] + a.v == a.v;
    }
  }

  // ----- The decoder without PB_ENABLE_MALLOC -----

  lemma {:induction false} AlreadyRoomy(schema: seq<Field>)
    requires SchemaOk(schema)
    ensures AllRoomy(schema) == schema && SizesOk(schema)
    decreases schema
  {
    forall i | 0 <= i < |schema| ensures Roomy(schema[i]) == schema[i] && SizeOk(schema[i]) {
      assert FieldOk(schema[i]);
      AlreadyRoomy(schema[i].sub);
    }
  }

  /** pb_decode with and without PB_ENABLE_MALLOC, for message types that have only static fields: from any storage, the
      same inputs are accepted, the same bytes are left, and all arrays have the same counts. */
  lemma {:induction false} SameInputs(schema: seq<Field>, s: Bytes, storage: Node)
    requires SchemaOk(schema) && HeapSchema(schema) && Struct(MEMORY, schema, storage)
    ensures var p, r := Decode(schema, s), MessageReading(schema, s, storage);
            if p.Fail? then !r.Accepted?
            else
              && r.Accepted? && r.rest == p.rest && RecordsOf(schema, s).Done?
              && p.v == Meaning(schema, RecordsOf(schema, s).v) && Held(schema, r.v, RecordsOf(schema, s).v)
  {
    AlreadyRoomy(schema);
    SchemaInPlace(schema);
    DecodeIsMeaning(schema, s);
    PointersAccept(schema, s, storage);
  }
}
