/** The records of a message, and what they mean for the structure, whatever comes between them. */
module Records {
  import opened Wrappers
  import opened Schema
  import opened Varint
  import opened Streams
  import opened WireReader
  import opened Presence

  /** One field as it is on the wire, by the position of its descriptor: a plain item, the items of a packed array, the
      records of a submessage, or a field that the message type does not have. */
  datatype Record = Plain(i: nat, v: Val) | Packed(i: nat, vs: seq<Val>) | Nested(i: nat, inner: seq<Record>)
                  | Unknown(i: nat)

  // ----- The records of a byte string -----

  function PackedValues(f: Field, s: Bytes): Option<seq<Val>>
    decreases |s|
  {
    if s == [] then Some([])
    else
      match DecVal(f, s, IntVal(0))
      case Fail => None
      case Done(v, rest) =>
        var more := PackedValues(f, rest);
        if more.Some? then Some([v] + more.value) else None
  }

  function FieldRecord(schema: seq<Field>, i: nat, wireType: nat, s: Bytes): (p: Parse<Record>)
    requires i < |schema|
    ensures p.Done? ==> |p.rest| < |s| && p.v.i == i && !p.v.Unknown?
    decreases |s|, 0
  {
    var f := schema[i];
    if f.ltype.SUBMESSAGE? then
      match Delimited(s)
      case Fail => Fail
      case Done(payload, rest) =>
        var inner := RecordsOf(f.sub, payload);
        if inner.Done? then Done(Nested(i, inner.v), rest) else Fail
    else if f.htype.REPEATED? && wireType == WT_STRING && Packable(f.ltype) then
      match Delimited(s)
      case Fail => Fail
      case Done(payload, rest) =>
        var vs := PackedValues(f, payload);
        if vs.Some? then Done(Packed(i, vs.value), rest) else Fail
    else
      match DecVal(f, s, IntVal(0))
      case Fail => Fail
      case Done(v, rest) => Done(Plain(i, v), rest)
  }

  /** A field that the message type does not have.  In an empty message type a zero field number is taken for a bool. */
  function UnknownRecord(schema: seq<Field>, tag: nat, wireType: nat, s: Bytes): (p: Parse<Record>)
    ensures p.Done? ==> |p.rest| < |s| && p.v.i == |schema|
  {
    match if schema == [] && tag == 0 then Discard(Varint32(s)) else Skip(wireType, s)
    case Fail => Fail
    case Done(_, rest) => Done(Unknown(|schema|), rest)
  }

  function NextRecord(schema: seq<Field>, tag: nat, wireType: nat, s: Bytes): (p: Parse<Record>)
    ensures p.Done? ==> |p.rest| < |s|
    decreases |s|, 1
  {
    var i := FindTag(schema, tag);
    if i < |schema| then FieldRecord(schema, i, wireType, s) else UnknownRecord(schema, tag, wireType, s)
  }

  /** The records up to a zero tag or the end, and what follows them. */
  function RecordsOf(schema: seq<Field>, s: Bytes): (p: Parse<seq<Record>>)
    decreases |s|, 2
  {
    match ReadTag(s)
    case TagError => Fail
    case Stop(rest) => Done([], rest)
    case Header(tag, wireType, rest) =>
      match NextRecord(schema, tag, wireType, rest)
      case Fail => Fail
      case Done(r, rest') =>
        var more := RecordsOf(schema, rest');
        if more.Done? then Done([r] + more.v, more.rest) else Fail
  }

  // ----- What they mean -----

  predicate Occurs(i: nat, rs: seq<Record>) {
    exists k | 0 <= k < |rs| :: rs[k].i == i
  }

  /** The items that a record brings. */
  function Brought(f: Field, r: Record): seq<Val>
    decreases f, 0
  {
    match r
    case Plain(_, v) => [v]
    case Packed(_, vs) => vs
    case Nested(_, inner) => [MsgVal(Meaning(f.sub, inner))]
    case Unknown(_) => []
  }

  /** The items of field `i`, in the order in which they come, packed or not. */
  function Received(f: Field, i: nat, rs: seq<Record>): seq<Val>
    decreases f, 1, |rs|
  {
    if rs == [] then []
    else
      var last := rs[|rs| - 1];
      Received(f, i, rs[..|rs| - 1]) + if last.i == i then Brought(f, last) else []
  }

  /** The records inside all occurrences of the submessage `i`, as if it had come in one piece. */
  function InnerRecords(i: nat, rs: seq<Record>): seq<Record>
  {
    if rs == [] then []
    else
      var last := rs[|rs| - 1];
      InnerRecords(i, rs[..|rs| - 1]) + if last.i == i && last.Nested? then last.inner else []
  }

  /** The last record of a member of the union at position `l`. */
  function Chosen(schema: seq<Field>, l: nat, rs: seq<Record>): (r: Option<Record>)
    ensures r.Some? ==> r.value.i < |schema|
  {
    if rs == [] then None
    else if MemberOf(schema, l, rs[|rs| - 1].i) then Some(rs[|rs| - 1])
    else Chosen(schema, l, rs[..|rs| - 1])
  }

  predicate MemberOf(schema: seq<Field>, l: nat, i: nat) {
    i < |schema| && schema[i].htype.ONEOF? && Leader(schema, i) == l
  }

  function Last(vs: seq<Val>): Val {
    if vs == [] then IntVal(0) else vs[|vs| - 1]
  }

  /** The item that came as number `d` from the end, or what there was before the first one. */
  function FromEnd(unset: Val, items: seq<Val>, d: nat): Val
    requires d > 0
  {
    if d <= |items| then items[|items| - d] else unset
  }

  /** The last items, as many as there are in an array of this size. */
  function LastItems(unset: Val, size: nat, items: seq<Val>): (last: seq<Val>)
    ensures |last| == size
  {
    seq(size, k requires 0 <= k < size => FromEnd(unset, items, size - k))
  }

  function Present(f: Field, v: Val): Slot {
    if f.htype.OPTIONAL? && f.sizeOffset != 0 then Opt(true, v) else Single(v)
  }

  /** A plain field has the last item; a submessage has what all its occurrences together mean; an array has all items,
      or if it has no count, the last ones; a union has the member that came last. */
  function SlotMeaning(schema: seq<Field>, i: nat, rs: seq<Record>): Slot
    requires i < |schema|
    decreases schema, 0
  {
    var f := schema[i];
    match f.htype
    case REPEATED =>
      var items := Received(f, i, rs);
      Rep(if FixedCount(f) then LastItems(UnsetVal(f), f.arraySize, items) else items)
    case ONEOF =>
      if Joined(schema, i) then Member
      else
        var r := Chosen(schema, i, rs);
        if r.None? then Union(0, IntVal(0))
        else Union(schema[r.value.i].tag, Last(Brought(schema[r.value.i], r.value)))
    case _ =>
      if !Occurs(i, rs) then DefaultSlot(f, true)
      else
        Present(f, if f.ltype.SUBMESSAGE? then MsgVal(Meaning(f.sub, InnerRecords(i, rs)))
                   else Last(Received(f, i, rs)))
  }

  function Meaning(schema: seq<Field>, rs: seq<Record>): (m: Message)
    ensures |m| == |schema|
    decreases schema, 1
  {
    seq(|schema|, i requires 0 <= i < |schema| => SlotMeaning(schema, i, rs))
  }

  // ----- Which of them are accepted -----

  function Size(r: Record): nat {
    match r
    case Plain(_, _) => 1
    case Packed(_, vs) => |vs|
    case Nested(_, _) => 1
    case Unknown(_) => 0
  }

  /** How many items of field `i` there are. */
  function Count(i: nat, rs: seq<Record>): nat {
    if rs == [] then 0
    else
      var last := rs[|rs| - 1];
      Count(i, rs[..|rs| - 1]) + if last.i == i then Size(last) else 0
  }

  /** Every occurrence of the field has storage of its own, or begins anew. */
  predicate Afresh(f: Field) {
    f.htype.REPEATED? || f.htype.ONEOF? || f.atype.PTR?
  }

  /** No array gets more items than it has room for, on any level. */
  predicate Counts(schema: seq<Field>, rs: seq<Record>)
    decreases schema
  {
    forall i | 0 <= i < |schema| :: FieldCounts(schema[i], i, rs)
  }

  predicate FieldCounts(f: Field, i: nat, rs: seq<Record>)
    decreases f
  {
    && (f.htype.REPEATED? && !FixedCount(f) ==> Count(i, rs) <= f.arraySize)
    && (f.ltype.SUBMESSAGE? ==>
          if Afresh(f) then forall k | 0 <= k < |rs| && rs[k].i == i && rs[k].Nested? :: Counts(f.sub, rs[k].inner)
          else Counts(f.sub, InnerRecords(i, rs)))
  }

  /** The fixed-count array at position `fix`, if there is one, has got all its items. */
  predicate Full(schema: seq<Field>, fix: int, n: nat) {
    0 <= fix < |schema| ==> n == schema[fix].arraySize
  }

  /** Every fixed-count array comes as a whole: no other one begins in between.  `fix` has got `n` items before. */
  predicate Runs(schema: seq<Field>, rs: seq<Record>, fix: int, n: nat) {
    if rs == [] then Full(schema, fix, n)
    else
      var r := rs[0];
      if r.i >= |schema| || !FixedCount(schema[r.i]) then Runs(schema, rs[1..], fix, n)
      else if r.i == fix then Runs(schema, rs[1..], fix, n + Size(r))
      else Full(schema, fix, n) && Runs(schema, rs[1..], r.i, Size(r))
  }

  /** A message is whole if its required fields occur and its fixed-count arrays do, and its submessages are whole. */
  predicate Whole(schema: seq<Field>, rs: seq<Record>)
    decreases rs
  {
    && (forall i | 0 <= i < |schema| && TrackedField(schema, i) :: Occurs(i, rs))
    && Runs(schema, rs, -1, 0)
    && forall k | 0 <= k < |rs| :: InnerWhole(schema, rs[k])
  }

  predicate InnerWhole(schema: seq<Field>, r: Record)
    decreases r
  {
    r.Nested? && r.i < |schema| ==> Whole(schema[r.i].sub, r.inner)
  }

  /** What pb_decode_noinit should make of `s` in a structure that holds what the records `before` mean. */
  function Expected(schema: seq<Field>, s: Bytes, before: seq<Record>): Parse<Message> {
    match RecordsOf(schema, s)
    case Fail => Fail
    case Done(rs, rest) =>
      if Whole(schema, rs) && Counts(schema, before + rs) then Done(Meaning(schema, before + rs), rest) else Fail
  }

  // ----- One record more -----

  lemma {:induction false} CountMore(i: nat, rs: seq<Record>, r: Record)
    ensures Count(i, rs + [r]) == Count(i, rs) + if r.i == i then Size(r) else 0
  {
    assert (rs + [r])[..|rs|] == rs;
  }

  lemma {:induction false} ReceivedMore(f: Field, i: nat, rs: seq<Record>, r: Record)
    ensures Received(f, i, rs + [r]) == Received(f, i, rs) + if r.i == i then Brought(f, r) else []
  {
    assert (rs + [r])[..|rs|] == rs;
  }

  lemma {:induction false} InnerMore(i: nat, rs: seq<Record>, r: Record)
    ensures InnerRecords(i, rs + [r]) == InnerRecords(i, rs) + if r.i == i && r.Nested? then r.inner else []
  {
    assert (rs + [r])[..|rs|] == rs;
  }

  lemma {:induction false} ChosenMore(schema: seq<Field>, l: nat, rs: seq<Record>, r: Record)
    ensures Chosen(schema, l, rs + [r]) == if MemberOf(schema, l, r.i) then Some(r) else Chosen(schema, l, rs)
  {
    assert (rs + [r])[..|rs|] == rs;
  }

  lemma {:induction false} OccursMore(i: nat, rs: seq<Record>, r: Record)
    ensures Occurs(i, rs + [r]) <==> Occurs(i, rs) || r.i == i
  {
    assert (rs + [r])[|rs|] == r;
    if Occurs(i, rs) {
      var k :| 0 <= k < |rs| && rs[k].i == i;
      assert (rs + [r])[k].i == i;
    }
  }

  lemma {:induction false} ReceivedCount(f: Field, i: nat, rs: seq<Record>)
    ensures |Received(f, i, rs)| == Count(i, rs)
  {
    if rs != [] {
      ReceivedCount(f, i, rs[..|rs| - 1]);
    }
  }

  lemma {:induction false} InnerConcat(i: nat, a: seq<Record>, b: seq<Record>)
    ensures InnerRecords(i, a + b) == InnerRecords(i, a) + InnerRecords(i, b)
  {
    if b == [] {
      assert a + b == a;
    } else {
      var b', r := b[..|b| - 1], b[|b| - 1];
      assert b == b' + [r] && a + b == (a + b') + [r];
      InnerConcat(i, a, b');
      InnerMore(i, a + b', r);
      InnerMore(i, b', r);
    }
  }

  lemma {:induction false} CountConcat(i: nat, a: seq<Record>, b: seq<Record>)
    ensures Count(i, a + b) == Count(i, a) + Count(i, b)
  {
    if b == [] {
      assert a + b == a;
    } else {
      var b', r := b[..|b| - 1], b[|b| - 1];
      assert b == b' + [r] && a + b == (a + b') + [r];
      CountConcat(i, a, b');
      CountMore(i, a + b', r);
      CountMore(i, b', r);
    }
  }

  /** If some records are too many, so are more of them. */
  lemma {:induction false} CountsBefore(schema: seq<Field>, a: seq<Record>, b: seq<Record>)
    requires Counts(schema, a + b)
    ensures Counts(schema, a)
    decreases schema
  {
    forall i | 0 <= i < |schema| ensures FieldCounts(schema[i], i, a) {
      assert FieldCounts(schema[i], i, a + b);
      FieldCountsBefore(schema[i], i, a, b);
    }
  }

  lemma {:induction false} FieldCountsBefore(f: Field, i: nat, a: seq<Record>, b: seq<Record>)
    requires FieldCounts(f, i, a + b)
    ensures FieldCounts(f, i, a)
    decreases f
  {
    CountConcat(i, a, b);
    if f.ltype.SUBMESSAGE? {
      if Afresh(f) {
        forall k | 0 <= k < |a| && a[k].i == i && a[k].Nested? ensures Counts(f.sub, a[k].inner) {
          assert (a + b)[k] == a[k];
        }
      } else {
        InnerConcat(i, a, b);
        CountsBefore(f.sub, InnerRecords(i, a), InnerRecords(i, b));
      }
    }
  }

  /** Only the field of a record gets anything from it. */
  lemma {:induction false} CountsMore(schema: seq<Field>, rs: seq<Record>, r: Record)
    requires Counts(schema, rs)
    ensures Counts(schema, rs + [r]) <==> (r.i < |schema| ==> FieldCounts(schema[r.i], r.i, rs + [r]))
  {
    forall i | 0 <= i < |schema| && i != r.i ensures FieldCounts(schema[i], i, rs + [r]) {
      assert FieldCounts(schema[i], i, rs);
      OtherCounts(schema[i], i, rs, r);
    }
  }

  lemma {:induction false} OtherCounts(f: Field, i: nat, rs: seq<Record>, r: Record)
    requires FieldCounts(f, i, rs) && i != r.i
    ensures FieldCounts(f, i, rs + [r])
  {
    CountMore(i, rs, r);
    InnerMore(i, rs, r);
    assert InnerRecords(i, rs) + [] == InnerRecords(i, rs);
  }
}
