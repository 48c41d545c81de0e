/** pb_decode makes of a message what its records mean: an item is placed by what came before it in the same field, not
    by what came in between. */
module Occurrences {
  import opened Config
  import opened Wrappers
  import opened Schema
  import opened Varint
  import opened Streams
  import opened WireReader
  import opened RequiredFields
  import opened Presence
  import opened Records

  /** No field is behind a pointer, on any level. */
  predicate InPlace(schema: seq<Field>)
    decreases schema
  {
    forall i | 0 <= i < |schema| :: !schema[i].atype.PTR? && InPlace(schema[i].sub)
  }

  /** Nor is any of a message type in which all fields are static. */
  lemma {:induction false} SchemaInPlace(schema: seq<Field>)
    requires SchemaOk(schema)
    ensures InPlace(schema)
    decreases schema
  {
    forall i | 0 <= i < |schema| ensures !schema[i].atype.PTR? && InPlace(schema[i].sub) {
      assert FieldOk(schema[i]);
      SchemaInPlace(schema[i].sub);
    }
  }

  // ----- Storing the items of a record -----

  /** An array after some items have been stored from position `n` on. */
  function Overlaid(items: seq<Val>, n: nat, vs: seq<Val>): seq<Val> {
    seq(if n + |vs| > |items| then n + |vs| else |items|,
        k requires k >= 0 => if n <= k < n + |vs| then vs[k - n] else if k < |items| then items[k] else IntVal(0))
  }

  lemma OverlaidFirst(items: seq<Val>, n: nat, v: Val, more: seq<Val>)
    requires n <= |items|
    ensures Overlaid(items, n, [v] + more) == Overlaid(Put(items, n, v), n + 1, more)
  {}

  lemma OverlaidOne(items: seq<Val>, n: nat, v: Val)
    requires n <= |items|
    ensures Overlaid(items, n, [v]) == Put(items, n, v)
  {}

  lemma OverlaidNone(items: seq<Val>, n: nat)
    requires n <= |items|
    ensures Overlaid(items, n, []) == items
  {}

  lemma AppendAll(items: seq<Val>, vs: seq<Val>)
    ensures Overlaid(items, |items|, vs) == items + vs
  {}

  /** A fixed-count array of which `n` items have come since it began: those, and the ones before them. */
  function Turned(unset: Val, size: nat, items: seq<Val>, n: nat): (held: seq<Val>)
    requires n <= size
    ensures |held| == size
  {
    seq(size, k requires 0 <= k < size => FromEnd(unset, items, if k < n then n - k else size + n - k))
  }

  lemma FromEndMore(unset: Val, items: seq<Val>, vs: seq<Val>, d: nat)
    requires d > 0
    ensures FromEnd(unset, items + vs, d) == if d <= |vs| then vs[|vs| - d] else FromEnd(unset, items, d - |vs|)
  {}

  lemma TurnedWhole(unset: Val, size: nat, items: seq<Val>)
    ensures Turned(unset, size, items, 0) == LastItems(unset, size, items) == Turned(unset, size, items, size)
  {}

  lemma TurnedAt(unset: Val, size: nat, items: seq<Val>, n: nat, vs: seq<Val>, k: nat)
    requires n + |vs| <= size && k < size
    ensures Turned(unset, size, items + vs, n + |vs|)[k]
            == if n <= k < n + |vs| then vs[k - n] else Turned(unset, size, items, n)[k]
  {
    FromEndMore(unset, items, vs, if k < n + |vs| then n + |vs| - k else size + n + |vs| - k);
  }

  lemma TurnedAll(unset: Val, size: nat, items: seq<Val>, n: nat, vs: seq<Val>)
    requires n + |vs| <= size
    ensures Overlaid(Turned(unset, size, items, n), n, vs) == Turned(unset, size, items + vs, n + |vs|)
  {
    var held, held' := Turned(unset, size, items, n), Turned(unset, size, items + vs, n + |vs|);
    forall k | 0 <= k < size ensures held'[k] == if n <= k < n + |vs| then vs[k - n] else held[k] {
      TurnedAt(unset, size, items, n, vs, k);
    }
    OverlaidIs(held, n, vs, held');
  }

  lemma OverlaidIs(held: seq<Val>, n: nat, vs: seq<Val>, held': seq<Val>)
    requires n + |vs| <= |held| == |held'|
    requires forall k | 0 <= k < |held| :: held'[k] == if n <= k < n + |vs| then vs[k - n] else held[k]
    ensures Overlaid(held, n, vs) == held'
  {}

  // ----- Arrays -----

  lemma {:induction false} PackedMeans(f: Field, s: Bytes, items: seq<Val>, n: nat)
    requires Packable(f.ltype) && n <= f.arraySize && n <= |items|
    ensures var vs := PackedValues(f, s);
            DecPacked(f, s, items, n)
            == if vs.Some? && n + |vs.value| <= f.arraySize then Some((Overlaid(items, n, vs.value), n + |vs.value|))
               else None
    decreases |s|
  {
    if s == [] {
      OverlaidNone(items, n);
    } else {
      PackedStep(f, s, items, n);
      var p := DecVal(f, s, IntVal(0));
      if p.Done? && n < f.arraySize {
        PackedMeans(f, p.rest, Put(items, n, p.v), n + 1);
        var more := PackedValues(f, p.rest);
        if more.Some? {
          OverlaidFirst(items, n, p.v, more.value);
        }
      }
    }
  }

  lemma PackedStep(f: Field, s: Bytes, items: seq<Val>, n: nat)
    requires Packable(f.ltype) && s != []
    ensures var p := DecVal(f, s, IntVal(0));
            && DecPacked(f, s, items, n)
               == (if n >= f.arraySize || p.Fail? then None else DecPacked(f, p.rest, Put(items, n, p.v), n + 1))
            && PackedValues(f, s)
               == if p.Fail? || PackedValues(f, p.rest).None? then None
                  else Some([p.v] + PackedValues(f, p.rest).value)
  {
    assert DecVal(f, s, UnsetVal(f)) == DecVal(f, s, IntVal(0));
  }

  /** A record that is complete in itself. */
  predicate Sound(f: Field, r: Record) {
    r.Nested? ==> Whole(f.sub, r.inner) && Counts(f.sub, r.inner)
  }

  lemma NoItems(f: Field)
    ensures LastItems(UnsetVal(f), f.arraySize, []) == seq(f.arraySize, i => UnsetVal(f))
  {
    assert forall d: nat | d > 0 :: FromEnd(UnsetVal(f), [], d) == UnsetVal(f);
  }

  lemma {:induction false} NoRecords(schema: seq<Field>)
    ensures Meaning(schema, []) == Defaults(schema) && Counts(schema, [])
    decreases schema
  {
    forall i | 0 <= i < |schema|
      ensures SlotMeaning(schema, i, []) == DefaultSlot(schema[i], !Joined(schema, i))
              && FieldCounts(schema[i], i, [])
    {
      NoRecords(schema[i].sub);
      assert Received(schema[i], i, []) == [];
      NoItems(schema[i]);
    }
  }

  /** One submessage, read into what the records `before` mean. */
  lemma {:induction false} SubmessageMeans(f: Field, s: Bytes, prev: Val, before: seq<Record>)
    requires f.ltype.SUBMESSAGE? && InPlace(f.sub) && Counts(f.sub, before)
    requires prev == MsgVal(Meaning(f.sub, before))
    ensures DecVal(f, s, prev)
            == match Delimited(s)
               case Fail => Fail
               case Done(payload, rest) =>
                 var e := Expected(f.sub, payload, before);
                 if e.Done? then Done(MsgVal(e.v), rest) else Fail
    decreases |s|, 0, 0
  {
    var d := Delimited(s);
    if d.Done? {
      DecodeMeans(f.sub, d.v, before);
    }
  }

  /** The items of a record are stored if it is sound and there is room for them. */
  predicate Stores(f: Field, items: seq<Val>, n: nat, a: Parse<(seq<Val>, nat)>, q: Parse<Record>) {
    a == if q.Done? && Sound(f, q.v) && n + Size(q.v) <= f.arraySize
         then Done((Overlaid(items, n, Brought(f, q.v)), n + Size(q.v)), q.rest) else Fail
  }

  lemma {:induction false} ArrayMeans(schema: seq<Field>, i: nat, wireType: nat, s: Bytes, items: seq<Val>, n: nat)
    requires InPlace(schema) && i < |schema| && schema[i].htype.REPEATED? && n <= schema[i].arraySize && n <= |items|
    ensures Stores(schema[i], items, n, DecArray(schema[i], wireType, s, items, n), FieldRecord(schema, i, wireType, s))
    decreases |s|, 1
  {
    var f := schema[i];
    if f.ltype.SUBMESSAGE? {
      MessageArrayMeans(schema, i, wireType, s, items, n);
    } else if wireType == WT_STRING && Packable(f.ltype) {
      PackedArrayMeans(schema, i, s, items, n);
    } else {
      var p := DecVal(f, s, IntVal(0));
      assert DecVal(f, s, UnsetVal(f)) == p;
      if p.Done? {
        OverlaidOne(items, n, p.v);
      }
    }
  }

  lemma {:induction false} MessageArrayMeans(schema: seq<Field>, i: nat, wireType: nat, s: Bytes, items: seq<Val>,
                                             n: nat)
    requires InPlace(schema) && i < |schema| && schema[i].ltype.SUBMESSAGE? && n <= |items|
    ensures Stores(schema[i], items, n, DecArray(schema[i], wireType, s, items, n), FieldRecord(schema, i, wireType, s))
    decreases |s|, 0, 2
  {
    var f, q := schema[i], FieldRecord(schema, i, wireType, s);
    FreshMessage(schema, i, wireType, s, UnsetVal(f));
    if q.Done? {
      OverlaidOne(items, n, MsgVal(Meaning(f.sub, q.v.inner)));
    }
  }

  /** A submessage that is read into a structure of its own. */
  lemma {:induction false} FreshMessage(schema: seq<Field>, i: nat, wireType: nat, s: Bytes, prev: Val)
    requires InPlace(schema) && i < |schema| && schema[i].ltype.SUBMESSAGE? && prev == MsgVal(Defaults(schema[i].sub))
    ensures var f, q := schema[i], FieldRecord(schema, i, wireType, s);
            DecVal(f, s, prev)
            == if q.Done? && Sound(f, q.v) then Done(MsgVal(Meaning(f.sub, q.v.inner)), q.rest) else Fail
    decreases |s|, 0, 1
  {
    var f, q := schema[i], FieldRecord(schema, i, wireType, s);
    NoRecords(f.sub);
    SubmessageMeans(f, s, prev, []);
    if q.Done? {
      assert [] + q.v.inner == q.v.inner;
    }
  }

  lemma {:induction false} PackedArrayMeans(schema: seq<Field>, i: nat, s: Bytes, items: seq<Val>, n: nat)
    requires i < |schema| && schema[i].htype.REPEATED? && Packable(schema[i].ltype)
    requires n <= schema[i].arraySize && n <= |items|
    ensures Stores(schema[i], items, n, DecArray(schema[i], WT_STRING, s, items, n),
                   FieldRecord(schema, i, WT_STRING, s))
  {
    var d := Delimited(s);
    if d.Done? {
      PackedMeans(schema[i], d.v, items, n);
    }
  }

  // ----- The structure so far -----

  function SlotNow(schema: seq<Field>, j: nat, rs: seq<Record>, fix: int, n: nat): Slot
    requires j < |schema|
  {
    if FixedCount(schema[j]) && fix == j && n <= schema[j].arraySize then
      Rep(Turned(UnsetVal(schema[j]), schema[j].arraySize, Received(schema[j], j, rs), n))
    else SlotMeaning(schema, j, rs)
  }

  /** The decoder's structure is what the records mean, except that the fixed-count array being received begins with the
      items that have come. */
  predicate Tracks(schema: seq<Field>, rs: seq<Record>, st: Progress) {
    && |st.m| == |schema|
    && (forall j | 0 <= j < |schema| :: st.m[j] == SlotNow(schema, j, rs, st.fix, st.fixCount))
    && (0 <= st.fix < |schema| ==> FixedCount(schema[st.fix]) && st.fixCount <= schema[st.fix].arraySize)
  }

  /** Other fields do not change. */
  lemma {:induction false} OtherSlot(schema: seq<Field>, j: nat, rs: seq<Record>, r: Record)
    requires j < |schema| && r.i != j && !MemberOf(schema, j, r.i)
    ensures SlotMeaning(schema, j, rs + [r]) == SlotMeaning(schema, j, rs)
    ensures Received(schema[j], j, rs + [r]) == Received(schema[j], j, rs)
  {
    ReceivedMore(schema[j], j, rs, r);
    InnerMore(j, rs, r);
    OccursMore(j, rs, r);
    ChosenMore(schema, j, rs, r);
    assert InnerRecords(j, rs) + [] == InnerRecords(j, rs);
    assert Received(schema[j], j, rs) + [] == Received(schema[j], j, rs);
  }

  lemma {:induction false} TracksNext(schema: seq<Field>, rs: seq<Record>, r: Record, l: nat, st: Progress,
                                      st': Progress)
    requires Tracks(schema, rs, st) && l < |schema| == |st'.m| && st'.m == st.m[l := st'.m[l]] && st'.fix == st.fix
    requires r.i < |schema|
    requires l == if schema[r.i].htype.ONEOF? then Leader(schema, r.i) else r.i
    requires st'.fixCount != st.fixCount ==> st.fix == l && st'.fixCount <= schema[l].arraySize
    requires st'.m[l] == SlotNow(schema, l, rs + [r], st'.fix, st'.fixCount)
    ensures Tracks(schema, rs + [r], st')
  {
    forall j | 0 <= j < |schema| && j != l
      ensures st'.m[j] == SlotNow(schema, j, rs + [r], st'.fix, st'.fixCount)
    {
      if j != r.i {
        OtherSlot(schema, j, rs, r);
      }
    }
  }

  // ----- One field -----

  /** What a field record has to meet where it comes. */
  predicate Acceptable(schema: seq<Field>, rs: seq<Record>, r: Record, n: nat)
    requires r.i < |schema|
  {
    && InnerWhole(schema, r)
    && FieldCounts(schema[r.i], r.i, rs + [r])
    && (FixedCount(schema[r.i]) ==> n + Size(r) <= schema[r.i].arraySize)
  }

  predicate FieldMeans(schema: seq<Field>, rs: seq<Record>, st: Progress, p: Parse<Progress>, q: Parse<Record>)
    requires q.Done? ==> q.v.i < |schema|
  {
    Gives(schema, rs, st, p, q, q.Done? && Acceptable(schema, rs, q.v, st.fixCount))
  }

  /** The field record is taken, or the decoder fails. */
  predicate Gives(schema: seq<Field>, rs: seq<Record>, st: Progress, p: Parse<Progress>, q: Parse<Record>, taken: bool)
    requires taken ==> q.Done? && q.v.i < |schema|
  {
    if taken then
      && p.Done? && p.rest == q.rest && p.v.seen == st.seen && p.v.fix == st.fix
      && p.v.fixCount == st.fixCount + (if FixedCount(schema[q.v.i]) then Size(q.v) else 0)
      && Tracks(schema, rs + [q.v], p.v)
    else p.Fail?
  }

  predicate OfField(schema: seq<Field>, i: nat, q: Parse<Record>)
    requires i < |schema|
  {
    q.Done? ==> q.v.i == i && (q.v.Nested? <==> schema[i].ltype.SUBMESSAGE?)
  }

  lemma RecordOfField(schema: seq<Field>, i: nat, wireType: nat, s: Bytes)
    requires i < |schema|
    ensures OfField(schema, i, FieldRecord(schema, i, wireType, s))
  {}

  lemma {:induction false} RepeatedMeans(schema: seq<Field>, i: nat, wireType: nat, s: Bytes, rs: seq<Record>,
                                         st: Progress)
    requires InPlace(schema) && i < |schema| && schema[i].htype.REPEATED?
    requires Tracks(schema, rs, st) && Counts(schema, rs) && (FixedCount(schema[i]) ==> st.fix == i)
    ensures FieldMeans(schema, rs, st, DecField(schema, i, wireType, s, st), FieldRecord(schema, i, wireType, s))
    decreases |s|, 2
  {
    var f, items := schema[i], ItemsOf(st.m[i]);
    assert FieldCounts(f, i, rs) && st.m[i] == SlotNow(schema, i, rs, st.fix, st.fixCount);
    var n := HeldItems(schema, i, rs, st.fixCount);
    ArrayMeans(schema, i, wireType, s, items, n);
    ArrayField(schema, i, wireType, s, st, n);
    RecordOfField(schema, i, wireType, s);
    ArrayFieldMeans(schema, i, rs, st, n, DecArray(f, wireType, s, items, n), DecField(schema, i, wireType, s, st),
                    FieldRecord(schema, i, wireType, s));
  }

  lemma {:induction false} ArrayFieldMeans(schema: seq<Field>, i: nat, rs: seq<Record>, st: Progress, n: nat,
                                           a: Parse<(seq<Val>, nat)>, p: Parse<Progress>, q: Parse<Record>)
    requires i < |schema| && schema[i].htype.REPEATED? && FieldCounts(schema[i], i, rs) && Tracks(schema, rs, st)
    requires if FixedCount(schema[i]) then st.fix == i && n == st.fixCount else n == Count(i, rs)
    requires OfField(schema, i, q) && Stores(schema[i], ItemsOf(st.m[i]), n, a, q)
    requires p == if a.Fail? then Fail else Done(Filled(schema, i, st, a.v.0, a.v.1), a.rest)
    ensures FieldMeans(schema, rs, st, p, q)
  {
    var taken := q.Done? && Acceptable(schema, rs, q.v, st.fixCount);
    if q.Done? {
      RepeatedAcceptable(schema, i, rs, q.v, st.fixCount, n);
    }
    StoredIf(schema[i], ItemsOf(st.m[i]), n, a, q, taken);
    if !taken {
      assert p.Fail?;
    } else if FixedCount(schema[i]) {
      FixedMeans(schema, i, rs, st, p, q);
    } else {
      CountedMeans(schema, i, rs, st, p, q);
    }
  }

  lemma {:induction false} FixedMeans(schema: seq<Field>, i: nat, rs: seq<Record>, st: Progress, p: Parse<Progress>,
                                      q: Parse<Record>)
    requires i < |schema| && schema[i].htype.REPEATED? && Tracks(schema, rs, st)
    requires FixedCount(schema[i]) && st.fix == i && q.Done? && q.v.i == i
    requires st.fixCount + Size(q.v) <= schema[i].arraySize
    requires var n, vs := st.fixCount, Brought(schema[i], q.v);
             p == Done(Filled(schema, i, st, Overlaid(ItemsOf(st.m[i]), n, vs), n + Size(q.v)), q.rest)
    ensures Gives(schema, rs, st, p, q, true)
  {
    FixedTaken(schema, i, rs, st, q.v);
  }

  lemma {:induction false} CountedMeans(schema: seq<Field>, i: nat, rs: seq<Record>, st: Progress, p: Parse<Progress>,
                                        q: Parse<Record>)
    requires i < |schema| && schema[i].htype.REPEATED? && Tracks(schema, rs, st)
    requires !FixedCount(schema[i]) && q.Done? && q.v.i == i
    requires var n, vs := Count(i, rs), Brought(schema[i], q.v);
             p == Done(Filled(schema, i, st, Overlaid(ItemsOf(st.m[i]), n, vs), n + Size(q.v)), q.rest)
    ensures Gives(schema, rs, st, p, q, true)
  {
    CountedTaken(schema, i, rs, st, q.v);
  }

  lemma StoredIf(f: Field, items: seq<Val>, n: nat, a: Parse<(seq<Val>, nat)>, q: Parse<Record>, taken: bool)
    requires Stores(f, items, n, a, q)
    requires taken <==> q.Done? && Sound(f, q.v) && n + Size(q.v) <= f.arraySize
    ensures a == if taken then Done((Overlaid(items, n, Brought(f, q.v)), n + Size(q.v)), q.rest) else Fail
  {}

  lemma {:induction false} FixedTaken(schema: seq<Field>, i: nat, rs: seq<Record>, st: Progress, r: Record)
    requires i < |schema| && schema[i].htype.REPEATED? && r.i == i && Tracks(schema, rs, st)
    requires FixedCount(schema[i]) && st.fix == i && st.fixCount + Size(r) <= schema[i].arraySize
    ensures var items := Overlaid(ItemsOf(st.m[i]), st.fixCount, Brought(schema[i], r));
            Tracks(schema, rs + [r], Filled(schema, i, st, items, st.fixCount + Size(r)))
  {
    var items := Overlaid(ItemsOf(st.m[i]), st.fixCount, Brought(schema[i], r));
    HeldNow(schema, i, rs, st);
    HeldFixed(schema, i, rs, st.fixCount, r, ItemsOf(st.m[i]));
    TracksNext(schema, rs, r, i, st, Filled(schema, i, st, items, st.fixCount + Size(r)));
  }

  lemma {:induction false} CountedTaken(schema: seq<Field>, i: nat, rs: seq<Record>, st: Progress, r: Record)
    requires i < |schema| && schema[i].htype.REPEATED? && r.i == i && Tracks(schema, rs, st) && !FixedCount(schema[i])
    ensures var items := Overlaid(ItemsOf(st.m[i]), Count(i, rs), Brought(schema[i], r));
            Tracks(schema, rs + [r], Filled(schema, i, st, items, Count(i, rs) + Size(r)))
  {
    var items := Overlaid(ItemsOf(st.m[i]), Count(i, rs), Brought(schema[i], r));
    HeldNow(schema, i, rs, st);
    HeldNext(schema, i, rs, st.fixCount, r, ItemsOf(st.m[i]));
    TracksNext(schema, rs, r, i, st, Filled(schema, i, st, items, Count(i, rs) + Size(r)));
  }

  lemma {:induction false} HeldNow(schema: seq<Field>, i: nat, rs: seq<Record>, st: Progress)
    requires i < |schema| && schema[i].htype.REPEATED? && Tracks(schema, rs, st)
    requires FixedCount(schema[i]) ==> st.fix == i
    ensures st.m[i] == Rep(ItemsOf(st.m[i])) == SlotNow(schema, i, rs, i, st.fixCount)
    ensures !FixedCount(schema[i]) ==> |ItemsOf(st.m[i])| == Count(i, rs)
  {
    ReceivedCount(schema[i], i, rs);
    ArraySlot(schema, i, rs, st.fixCount);
  }

  /** The array at position `i` holds some items, of which `n` are received. */
  function Filled(schema: seq<Field>, i: nat, st: Progress, items: seq<Val>, n: nat): Progress
    requires i < |schema| == |st.m|
  {
    st.(m := st.m[i := Rep(items)], fixCount := if FixedCount(schema[i]) then n else st.fixCount)
  }

  lemma {:induction false} RepeatedAcceptable(schema: seq<Field>, i: nat, rs: seq<Record>, r: Record, fixCount: nat,
                                              n: nat)
    requires i < |schema| && schema[i].htype.REPEATED? && FieldCounts(schema[i], i, rs) && r.i == i
    requires r.Nested? <==> schema[i].ltype.SUBMESSAGE?
    requires n == if FixedCount(schema[i]) then fixCount else Count(i, rs)
    ensures Acceptable(schema, rs, r, fixCount) <==> Sound(schema[i], r) && n + Size(r) <= schema[i].arraySize
  {
    RecordCounts(schema[i], i, rs, r);
  }

  /** The items that the array at position `i` holds of those it is receiving. */
  lemma {:induction false} HeldItems(schema: seq<Field>, i: nat, rs: seq<Record>, fixCount: nat) returns (n: nat)
    requires i < |schema| && schema[i].htype.REPEATED? && FieldCounts(schema[i], i, rs)
    requires FixedCount(schema[i]) ==> fixCount <= schema[i].arraySize
    ensures n == (if FixedCount(schema[i]) then fixCount else |ItemsOf(SlotNow(schema, i, rs, i, fixCount))|)
    ensures n <= schema[i].arraySize && (!FixedCount(schema[i]) ==> n == Count(i, rs))
    ensures n <= |ItemsOf(SlotNow(schema, i, rs, i, fixCount))|
  {
    ReceivedCount(schema[i], i, rs);
    n := if FixedCount(schema[i]) then fixCount else Count(i, rs);
  }

  lemma {:induction false} HeldNext(schema: seq<Field>, i: nat, rs: seq<Record>, n: nat, r: Record, held: seq<Val>)
    requires i < |schema| && schema[i].htype.REPEATED? && r.i == i && !FixedCount(schema[i])
    requires SlotNow(schema, i, rs, i, n) == Rep(held)
    ensures SlotNow(schema, i, rs + [r], i, n) == Rep(Overlaid(held, |held|, Brought(schema[i], r)))
  {
    ReceivedMore(schema[i], i, rs, r);
    ArraySlot(schema, i, rs, n);
    ArraySlot(schema, i, rs + [r], n);
    AppendAll(held, Brought(schema[i], r));
  }

  lemma {:induction false} HeldFixed(schema: seq<Field>, i: nat, rs: seq<Record>, n: nat, r: Record, held: seq<Val>)
    requires i < |schema| && schema[i].htype.REPEATED? && r.i == i && FixedCount(schema[i])
    requires n + Size(r) <= schema[i].arraySize && SlotNow(schema, i, rs, i, n) == Rep(held)
    ensures SlotNow(schema, i, rs + [r], i, n + Size(r)) == Rep(Overlaid(held, n, Brought(schema[i], r)))
  {
    FixedSlotNext(schema, i, rs, n, r);
    FixedSlotPut(schema, i, rs, n, r, held);
  }

  lemma BroughtSize(f: Field, r: Record)
    ensures |Brought(f, r)| == Size(r)
  {}

  lemma {:induction false} FixedSlotNext(schema: seq<Field>, i: nat, rs: seq<Record>, n: nat, r: Record)
    requires i < |schema| && schema[i].htype.REPEATED? && r.i == i && FixedCount(schema[i])
    requires n + Size(r) <= schema[i].arraySize
    ensures var f := schema[i];
            SlotNow(schema, i, rs + [r], i, n + Size(r))
            == Rep(Turned(UnsetVal(f), f.arraySize, Received(f, i, rs) + Brought(f, r), n + Size(r)))
  {
    ReceivedMore(schema[i], i, rs, r);
    ArraySlot(schema, i, rs + [r], n + Size(r));
  }

  lemma {:induction false} FixedSlotPut(schema: seq<Field>, i: nat, rs: seq<Record>, n: nat, r: Record, held: seq<Val>)
    requires i < |schema| && schema[i].htype.REPEATED? && FixedCount(schema[i])
    requires n + Size(r) <= schema[i].arraySize && SlotNow(schema, i, rs, i, n) == Rep(held)
    ensures var f := schema[i];
            Rep(Turned(UnsetVal(f), f.arraySize, Received(f, i, rs) + Brought(f, r), n + Size(r)))
            == Rep(Overlaid(held, n, Brought(f, r)))
  {
    var f := schema[i];
    ArraySlot(schema, i, rs, n);
    BroughtSize(f, r);
    TurnedSlot(UnsetVal(f), f.arraySize, Received(f, i, rs), n, Brought(f, r), held, Size(r));
  }

  lemma TurnedSlot(unset: Val, size: nat, items: seq<Val>, n: nat, vs: seq<Val>, held: seq<Val>, more: nat)
    requires |vs| == more && n + more <= size && Rep(Turned(unset, size, items, n)) == Rep(held)
    ensures Rep(Turned(unset, size, items + vs, n + more)) == Rep(Overlaid(held, n, vs))
  {
    TurnedAll(unset, size, items, n, vs);
  }

  lemma ArraySlot(schema: seq<Field>, i: nat, rs: seq<Record>, n: nat)
    requires i < |schema| && schema[i].htype.REPEATED? && (FixedCount(schema[i]) ==> n <= schema[i].arraySize)
    ensures var items := Received(schema[i], i, rs);
            SlotNow(schema, i, rs, i, n)
            == Rep(if FixedCount(schema[i]) then Turned(UnsetVal(schema[i]), schema[i].arraySize, items, n) else items)
  {}

  lemma ArrayField(schema: seq<Field>, i: nat, wireType: nat, s: Bytes, st: Progress, n: nat)
    requires i < |schema| == |st.m| && schema[i].htype.REPEATED?
    requires n == if FixedCount(schema[i]) then st.fixCount else |ItemsOf(st.m[i])|
    ensures var a := DecArray(schema[i], wireType, s, ItemsOf(st.m[i]), n);
            DecField(schema, i, wireType, s, st)
            == if a.Fail? then Fail else Done(Filled(schema, i, st, a.v.0, a.v.1), a.rest)
  {}

  /** Of an array of submessages every item counts for itself. */
  lemma {:induction false} RecordCounts(f: Field, i: nat, rs: seq<Record>, r: Record)
    requires f.htype.REPEATED? && FieldCounts(f, i, rs) && r.i == i && (r.Nested? <==> f.ltype.SUBMESSAGE?)
    ensures FieldCounts(f, i, rs + [r])
            <==> (r.Nested? ==> Counts(f.sub, r.inner))
                 && (!FixedCount(f) ==> Count(i, rs) + Size(r) <= f.arraySize)
  {
    CountMore(i, rs, r);
    LatestCounts(f, i, rs, r);
  }

  lemma {:induction false} LatestCounts(f: Field, i: nat, rs: seq<Record>, r: Record)
    requires f.ltype.SUBMESSAGE? ==> Afresh(f) && r.Nested?
    requires FieldCounts(f, i, rs) && r.i == i
    ensures f.ltype.SUBMESSAGE? ==>
              ((forall k | 0 <= k < |rs + [r]| && (rs + [r])[k].i == i && (rs + [r])[k].Nested? ::
                 Counts(f.sub, (rs + [r])[k].inner))
               <==> Counts(f.sub, r.inner))
  {
    assert (rs + [r])[|rs|] == r;
  }

  lemma {:induction false} OneofMeans(schema: seq<Field>, i: nat, wireType: nat, s: Bytes, rs: seq<Record>,
                                      st: Progress)
    requires InPlace(schema) && i < |schema| && schema[i].htype.ONEOF? && Tracks(schema, rs, st) && Counts(schema, rs)
    ensures FieldMeans(schema, rs, st, DecField(schema, i, wireType, s, st), FieldRecord(schema, i, wireType, s))
    decreases |s|, 2
  {
    var f, q := schema[i], FieldRecord(schema, i, wireType, s);
    var x := DecVal(f, s, DefaultVal(f));
    if f.ltype.SUBMESSAGE? {
      FreshMessage(schema, i, wireType, s, DefaultVal(f));
    }
    assert x == if q.Done? && Sound(f, q.v) then Done(Last(Brought(f, q.v)), q.rest) else Fail;
    var l := Leader(schema, i);
    var p := DecField(schema, i, wireType, s, st);
    assert p == if x.Done? then Done(st.(m := st.m[l := Union(f.tag, x.v)]), x.rest) else Fail;
    MemberMeans(schema, i, rs, st, x, p, q);
  }

  lemma {:induction false} MemberMeans(schema: seq<Field>, i: nat, rs: seq<Record>, st: Progress, x: Parse<Val>,
                                       p: Parse<Progress>, q: Parse<Record>)
    requires i < |schema| && schema[i].htype.ONEOF? && Tracks(schema, rs, st) && Counts(schema, rs)
    requires OfField(schema, i, q)
    requires x == if q.Done? && Sound(schema[i], q.v) then Done(Last(Brought(schema[i], q.v)), q.rest) else Fail
    requires var l := Leader(schema, i);
             p == if x.Done? then Done(st.(m := st.m[l := Union(schema[i].tag, x.v)]), x.rest) else Fail
    ensures FieldMeans(schema, rs, st, p, q)
  {
    if q.Done? {
      assert FieldCounts(schema[i], i, rs);
      LatestCounts(schema[i], i, rs, q.v);
      assert Acceptable(schema, rs, q.v, st.fixCount) <==> Sound(schema[i], q.v);
      if p.Done? {
        ChosenMore(schema, Leader(schema, i), rs, q.v);
        TracksNext(schema, rs, q.v, Leader(schema, i), st, p.v);
      }
    }
  }

  lemma {:induction false} SingleMeans(schema: seq<Field>, i: nat, wireType: nat, s: Bytes, rs: seq<Record>,
                                       st: Progress)
    requires InPlace(schema) && i < |schema| && !schema[i].htype.ONEOF? && !schema[i].htype.REPEATED?
    requires Tracks(schema, rs, st) && Counts(schema, rs)
    ensures FieldMeans(schema, rs, st, DecField(schema, i, wireType, s, st), FieldRecord(schema, i, wireType, s))
    decreases |s|, 2
  {
    var f, q := schema[i], FieldRecord(schema, i, wireType, s);
    var x := DecVal(f, s, ItemOf(st.m[i]));
    assert FieldCounts(f, i, rs) && st.m[i] == SlotNow(schema, i, rs, st.fix, st.fixCount);
    if f.ltype.SUBMESSAGE? {
      HeldMessage(schema, i, rs);
      SubmessageMeans(f, s, ItemOf(st.m[i]), InnerRecords(i, rs));
    }
    if q.Done? {
      InnerMore(i, rs, q.v);
      ReceivedMore(f, i, rs, q.v);
    }
    assert x == if q.Done? && Merges(f, i, rs, q.v) then Done(HeldValue(f, i, rs + [q.v]), q.rest) else Fail;
    var p := DecField(schema, i, wireType, s, st);
    assert p == if x.Done? then Done(st.(m := st.m[i := Present(f, x.v)]), x.rest) else Fail;
    PlainMeans(schema, i, rs, st, x, p, q);
  }

  /** What a field that is no array and no union holds, once it has come. */
  function HeldValue(f: Field, i: nat, rs: seq<Record>): Val {
    if f.ltype.SUBMESSAGE? then MsgVal(Meaning(f.sub, InnerRecords(i, rs))) else Last(Received(f, i, rs))
  }

  /** A submessage that can be merged into what has come of it. */
  predicate Merges(f: Field, i: nat, rs: seq<Record>, r: Record) {
    r.Nested? ==> Whole(f.sub, r.inner) && Counts(f.sub, InnerRecords(i, rs + [r]))
  }

  lemma {:induction false} PlainMeans(schema: seq<Field>, i: nat, rs: seq<Record>, st: Progress, x: Parse<Val>,
                                      p: Parse<Progress>, q: Parse<Record>)
    requires i < |schema| && !schema[i].htype.ONEOF? && !schema[i].htype.REPEATED? && !schema[i].atype.PTR?
    requires Tracks(schema, rs, st)
    requires OfField(schema, i, q)
    requires x == if q.Done? && Merges(schema[i], i, rs, q.v) then Done(HeldValue(schema[i], i, rs + [q.v]), q.rest)
                  else Fail
    requires p == if x.Done? then Done(st.(m := st.m[i := Present(schema[i], x.v)]), x.rest) else Fail
    ensures FieldMeans(schema, rs, st, p, q)
  {
    if q.Done? {
      assert Acceptable(schema, rs, q.v, st.fixCount) <==> Merges(schema[i], i, rs, q.v);
      if p.Done? {
        OccursMore(i, rs, q.v);
        TracksNext(schema, rs, q.v, i, st, p.v);
      }
    }
  }

  /** A submessage that has not come yet holds its defaults, which is what no records mean. */
  lemma {:induction false} HeldMessage(schema: seq<Field>, i: nat, rs: seq<Record>)
    requires i < |schema| && schema[i].ltype.SUBMESSAGE?
    requires !schema[i].htype.ONEOF? && !schema[i].htype.REPEATED?
    ensures ItemOf(SlotMeaning(schema, i, rs)) == MsgVal(Meaning(schema[i].sub, InnerRecords(i, rs)))
  {
    var f := schema[i];
    if !Occurs(i, rs) {
      NothingInside(i, rs);
      NoRecords(f.sub);
      assert DefaultVal(f) == MsgVal(Defaults(f.sub));
      assert SlotMeaning(schema, i, rs) == DefaultSlot(f, true);
    } else {
      assert SlotMeaning(schema, i, rs) == Present(f, MsgVal(Meaning(f.sub, InnerRecords(i, rs))));
    }
  }

  lemma {:induction false} NothingInside(i: nat, rs: seq<Record>)
    requires !Occurs(i, rs)
    ensures InnerRecords(i, rs) == []
  {
    if rs != [] {
      var before, last := rs[..|rs| - 1], rs[|rs| - 1];
      assert rs == before + [last];
      OccursMore(i, before, last);
      NothingInside(i, before);
    }
  }

  // ----- All fields -----

  /** Another fixed-count array begins when the one before is complete. */
  lemma {:induction false} Begins(schema: seq<Field>, rs: seq<Record>, st: Progress, i: nat)
    requires Tracks(schema, rs, st) && i < |schema| && FixedCount(schema[i]) && st.fix != i && FixDone(schema, st)
    ensures Tracks(schema, rs, st.(fix := i, fixCount := 0))
  {
    forall j | 0 <= j < |schema| ensures st.m[j] == SlotNow(schema, j, rs, i, 0) {
      WholeArray(schema, rs, st, j);
    }
  }

  lemma WholeArray(schema: seq<Field>, rs: seq<Record>, st: Progress, j: nat)
    requires Tracks(schema, rs, st) && j < |schema| && (j == st.fix ==> FixDone(schema, st))
    ensures st.m[j] == SlotMeaning(schema, j, rs) == SlotNow(schema, j, rs, j, 0)
  {
    if FixedCount(schema[j]) {
      TurnedWhole(UnsetVal(schema[j]), schema[j].arraySize, Received(schema[j], j, rs));
    }
  }

  /** What a record has to meet where it comes: `n` items of the array at position `fix` came before it. */
  predicate Taken(schema: seq<Field>, rs: seq<Record>, r: Record, fix: int, n: nat) {
    r.i < |schema| ==>
      && (FixedCount(schema[r.i]) && fix != r.i ==> Full(schema, fix, n))
      && Acceptable(schema, rs, r, if fix == r.i then n else 0)
  }

  function NextFix(schema: seq<Field>, r: Record, fix: int): int {
    if r.i < |schema| && FixedCount(schema[r.i]) then r.i else fix
  }

  function NextCount(schema: seq<Field>, r: Record, fix: int, n: nat): nat {
    if r.i < |schema| && FixedCount(schema[r.i]) then (if fix == r.i then n else 0) + Size(r) else n
  }

  /** A record is taken exactly if it is acceptable. */
  predicate StepMeans(schema: seq<Field>, rs: seq<Record>, st: Progress, p: Parse<Progress>, q: Parse<Record>) {
    if q.Done? && Taken(schema, rs, q.v, st.fix, st.fixCount) then
      && p.Done? && p.rest == q.rest && Tracks(schema, rs + [q.v], p.v)
      && p.v.fix == NextFix(schema, q.v, st.fix) && p.v.fixCount == NextCount(schema, q.v, st.fix, st.fixCount)
      && SeenAfter(schema, st.seen, [q.v], p.v.seen)
    else p.Fail?
  }

  predicate SeenAfter(schema: seq<Field>, before: set<nat>, rs: seq<Record>, after: set<nat>) {
    forall i | 0 <= i < |schema| && TrackedField(schema, i) ::
      ReqIndex(schema, i) in after <==> ReqIndex(schema, i) in before || Occurs(i, rs)
  }

  lemma {:induction false} KnownMeans(schema: seq<Field>, i: nat, wireType: nat, s: Bytes, rs: seq<Record>,
                                      st: Progress)
    requires InPlace(schema) && i < |schema| && Tracks(schema, rs, st) && Counts(schema, rs)
    ensures StepMeans(schema, rs, st, Known(schema, i, wireType, s, st), FieldRecord(schema, i, wireType, s))
    decreases |s|, 3
  {
    var begins := FixedCount(schema[i]) && st.fix != i;
    if begins && !FixDone(schema, st) {
      assert Known(schema, i, wireType, s, st).Fail?;
    } else {
      var st1 := if begins then st.(fix := i, fixCount := 0) else st;
      if begins {
        Begins(schema, rs, st, i);
      }
      var r := ReqIndex(schema, i);
      var st2 := if schema[i].htype.REQUIRED? && r < MAX_REQUIRED then st1.(seen := st1.seen + {r}) else st1;
      assert Known(schema, i, wireType, s, st) == DecField(schema, i, wireType, s, st2);
      assert Tracks(schema, rs, st2);
      if schema[i].htype.REPEATED? {
        RepeatedMeans(schema, i, wireType, s, rs, st2);
      } else if schema[i].htype.ONEOF? {
        OneofMeans(schema, i, wireType, s, rs, st2);
      } else {
        SingleMeans(schema, i, wireType, s, rs, st2);
      }
      MarkedAfter(schema, i, st, st2, FieldRecord(schema, i, wireType, s));
      FieldIsStep(schema, i, rs, st, st2, DecField(schema, i, wireType, s, st2), FieldRecord(schema, i, wireType, s));
    }
  }

  lemma FieldIsStep(schema: seq<Field>, i: nat, rs: seq<Record>, st: Progress, st2: Progress, p: Parse<Progress>,
                    q: Parse<Record>)
    requires i < |schema| && (q.Done? ==> q.v.i == i) && FieldMeans(schema, rs, st2, p, q)
    requires if FixedCount(schema[i]) && st.fix != i then FixDone(schema, st) && st2.fix == i && st2.fixCount == 0
             else st2.fix == st.fix && st2.fixCount == st.fixCount
    requires q.Done? ==> SeenAfter(schema, st.seen, [q.v], st2.seen)
    ensures StepMeans(schema, rs, st, p, q)
  {}

  lemma {:induction false} MarkedAfter(schema: seq<Field>, i: nat, st: Progress, st2: Progress, q: Parse<Record>)
    requires i < |schema| && (q.Done? ==> q.v.i == i)
    requires st2.seen == Marked(schema, i, st.seen)
    ensures q.Done? ==> SeenAfter(schema, st.seen, [q.v], st2.seen)
  {
    if q.Done? {
      assert [q.v][0].i == i;
      forall j | 0 <= j < |schema| && TrackedField(schema, j)
        ensures ReqIndex(schema, j) in st2.seen <==> ReqIndex(schema, j) in st.seen || Occurs(j, [q.v])
      {
        if j != i && schema[i].htype.REQUIRED? {
          BitsDiffer(schema, i, j);
        }
      }
    }
  }

  lemma {:induction false} NextMeans(schema: seq<Field>, tag: nat, wireType: nat, s: Bytes, rs: seq<Record>,
                                     st: Progress)
    requires InPlace(schema) && Tracks(schema, rs, st) && Counts(schema, rs)
    ensures StepMeans(schema, rs, st, Step(schema, tag, wireType, s, st), NextRecord(schema, tag, wireType, s))
    decreases |s|, 4
  {
    var i := FindTag(schema, tag);
    if i < |schema| {
      KnownMeans(schema, i, wireType, s, rs, st);
    } else {
      var r := Unknown(|schema|);
      forall j | 0 <= j < |schema| ensures st.m[j] == SlotNow(schema, j, rs + [r], st.fix, st.fixCount) {
        OtherSlot(schema, j, rs, r);
      }
      assert [r][0].i == |schema|;
    }
  }

  // ----- All records -----

  /** The records pass: those inside are whole, no array gets too many items, and the fixed-count arrays are
      complete. */
  predicate Passes(schema: seq<Field>, before: seq<Record>, rs: seq<Record>, fix: int, n: nat) {
    && (forall k | 0 <= k < |rs| :: InnerWhole(schema, rs[k]))
    && Counts(schema, before + rs)
    && Runs(schema, rs, fix, n)
  }

  lemma {:induction false} RunsOver(schema: seq<Field>, rs: seq<Record>, fix: int, n: nat)
    requires 0 <= fix < |schema| && n > schema[fix].arraySize
    ensures !Runs(schema, rs, fix, n)
    decreases |rs|
  {
    if rs != [] {
      if rs[0].i >= |schema| || !FixedCount(schema[rs[0].i]) {
        RunsOver(schema, rs[1..], fix, n);
      } else if rs[0].i == fix {
        RunsOver(schema, rs[1..], fix, n + Size(rs[0]));
      }
    }
  }

  lemma {:induction false} RunsStep(schema: seq<Field>, r: Record, more: seq<Record>, fix: int, n: nat)
    ensures Runs(schema, [r] + more, fix, n)
            <==> (r.i < |schema| && FixedCount(schema[r.i]) && fix != r.i ==> Full(schema, fix, n))
                 && Runs(schema, more, NextFix(schema, r, fix), NextCount(schema, r, fix, n))
  {
    assert ([r] + more)[0] == r && ([r] + more)[1..] == more;
  }

  lemma {:induction false} PassesStep(schema: seq<Field>, before: seq<Record>, r: Record, more: seq<Record>, fix: int,
                                      n: nat)
    requires Counts(schema, before)
    ensures Passes(schema, before, [r] + more, fix, n)
            <==> Taken(schema, before, r, fix, n)
                 && Passes(schema, before + [r], more, NextFix(schema, r, fix), NextCount(schema, r, fix, n))
    ensures Taken(schema, before, r, fix, n) ==> Counts(schema, before + [r])
  {
    assert before + ([r] + more) == before + [r] + more;
    RunsStep(schema, r, more, fix, n);
    CountsMore(schema, before, r);
    InnerStep(schema, r, more);
    if Counts(schema, before + [r] + more) {
      CountsBefore(schema, before + [r], more);
    }
    if r.i < |schema| && FixedCount(schema[r.i]) && NextCount(schema, r, fix, n) > schema[r.i].arraySize {
      RunsOver(schema, more, r.i, NextCount(schema, r, fix, n));
    }
  }

  lemma InnerStep(schema: seq<Field>, r: Record, more: seq<Record>)
    ensures (forall k | 0 <= k < |[r] + more| :: InnerWhole(schema, ([r] + more)[k]))
            <==> InnerWhole(schema, r) && forall k | 0 <= k < |more| :: InnerWhole(schema, more[k])
    ensures r.i >= |schema| ==> InnerWhole(schema, r)
  {
    assert ([r] + more)[0] == r && ([r] + more)[1..] == more;
    forall k | 0 <= k < |more| ensures more[k] == ([r] + more)[k + 1] {}
  }

  predicate LoopMeans(schema: seq<Field>, rs: seq<Record>, st: Progress, e: LoopEnd, a: Parse<seq<Record>>) {
    if a.Done? && Passes(schema, rs, a.v, st.fix, st.fixCount) then
      && e.Ended? && e.rest == a.rest && e.st.m == Meaning(schema, rs + a.v) && FixDone(schema, e.st)
      && SeenAfter(schema, st.seen, a.v, e.st.seen)
    else !(e.Ended? && FixDone(schema, e.st))
  }

  lemma {:induction false} LoopIsMeaning(schema: seq<Field>, s: Bytes, rs: seq<Record>, st: Progress)
    requires InPlace(schema) && Tracks(schema, rs, st) && Counts(schema, rs)
    ensures LoopMeans(schema, rs, st, Loop(schema, s, st), RecordsOf(schema, s))
    decreases |s|, 5
  {
    match ReadTag(s)
    case TagError =>
    case Stop(rest) =>
      assert rs + [] == rs;
      if FixDone(schema, st) {
        TracksAll(schema, rs, st);
      }
    case Header(tag, wireType, rest) =>
      NextMeans(schema, tag, wireType, rest, rs, st);
      var p, q := Step(schema, tag, wireType, rest, st), NextRecord(schema, tag, wireType, rest);
      if q.Done? {
        var more := RecordsOf(schema, q.rest);
        PassesStep(schema, rs, q.v, if more.Done? then more.v else [], st.fix, st.fixCount);
        if p.Done? {
          LoopIsMeaning(schema, q.rest, rs + [q.v], p.v);
          if more.Done? {
            assert rs + ([q.v] + more.v) == rs + [q.v] + more.v;
            SeenConcat(schema, st.seen, q.v, p.v.seen, more.v);
          }
        }
      }
  }

  lemma TracksAll(schema: seq<Field>, rs: seq<Record>, st: Progress)
    requires Tracks(schema, rs, st) && FixDone(schema, st)
    ensures st.m == Meaning(schema, rs)
  {
    forall j | 0 <= j < |schema| ensures st.m[j] == SlotMeaning(schema, j, rs) {
      WholeArray(schema, rs, st, j);
    }
  }

  lemma SeenConcat(schema: seq<Field>, a: set<nat>, r: Record, b: set<nat>, more: seq<Record>)
    requires SeenAfter(schema, a, [r], b)
    ensures forall after: set<nat> :: SeenAfter(schema, b, more, after) ==> SeenAfter(schema, a, [r] + more, after)
  {
    forall i: nat ensures Occurs(i, [r] + more) <==> Occurs(i, [r]) || Occurs(i, more) {
      OccursConcat(i, r, more);
    }
  }

  lemma {:induction false} OccursConcat(i: nat, r: Record, more: seq<Record>)
    ensures Occurs(i, [r] + more) <==> Occurs(i, [r]) || Occurs(i, more)
  {
    assert [r][0] == ([r] + more)[0];
    if Occurs(i, more) {
      var k :| 0 <= k < |more| && more[k].i == i;
      assert ([r] + more)[k + 1].i == i;
    }
    if Occurs(i, [r] + more) && r.i != i {
      var k :| 0 <= k < |[r] + more| && ([r] + more)[k].i == i;
      assert more[k - 1].i == i;
    }
  }

  /** A structure that holds what some records mean comes to hold what they and the next ones mean together, if those
      are acceptable; if not, the message is rejected. */
  lemma {:induction false} DecodeMeans(schema: seq<Field>, s: Bytes, before: seq<Record>)
    requires InPlace(schema) && Counts(schema, before)
    ensures DecodeNoinit(schema, s, Meaning(schema, before)) == Expected(schema, s, before)
    decreases |s|, 6
  {
    var st := Start(Meaning(schema, before));
    LoopIsMeaning(schema, s, before, st);
    var e, a := Loop(schema, s, st), RecordsOf(schema, s);
    if e.Ended? && FixDone(schema, e.st) {
      AllRequired(schema, a.v, e.st.seen);
    }
  }

  lemma {:induction false} AllRequired(schema: seq<Field>, rs: seq<Record>, seen: set<nat>)
    requires SeenAfter(schema, {}, rs, seen)
    ensures AllSeen(schema, seen) <==> forall i | 0 <= i < |schema| && TrackedField(schema, i) :: Occurs(i, rs)
  {
    if AllSeen(schema, seen) {
      forall i | 0 <= i < |schema| && TrackedField(schema, i) ensures Occurs(i, rs) {
        ReqIndexBelow(schema, i);
      }
    }
    if forall i | 0 <= i < |schema| && TrackedField(schema, i) :: Occurs(i, rs) {
      forall r: nat | r < ReqIndex(schema, |schema|) && r < MAX_REQUIRED ensures r in seen {
        var i := FieldOfBit(schema, r, |schema|);
        assert TrackedField(schema, i);
      }
    }
  }

  /** pb_decode: the bytes are accepted exactly if they are records that are acceptable, and then the structure is what
      the records mean. */
  lemma {:induction false} DecodeIsMeaning(schema: seq<Field>, s: Bytes)
    requires InPlace(schema)
    ensures Decode(schema, s)
            == match RecordsOf(schema, s)
               case Fail => Fail
               case Done(rs, rest) =>
                 if Whole(schema, rs) && Counts(schema, rs) then Done(Meaning(schema, rs), rest) else Fail
  {
    NoRecords(schema);
    DecodeMeans(schema, s, []);
    var a := RecordsOf(schema, s);
    if a.Done? {
      assert [] + a.v == a.v;
    }
  }

  // ----- Fields that do not come -----

  /** What pb_message_set_to_defaults puts into a field that is no array and no union. */
  lemma {:induction false} DefaultsHold(schema: seq<Field>, i: nat)
    requires i < |schema|
    ensures var f, slot := schema[i], Defaults(schema)[i];
            match f.htype
            case REPEATED => slot.Rep? && (f.sizeOffset != 0 ==> slot.items == [])
            case ONEOF => slot == if Joined(schema, i) then Member else Union(0, IntVal(0))
            case _ =>
              && slot == (if f.htype.OPTIONAL? && f.sizeOffset != 0 then Opt(false, ItemOf(slot))
                          else Single(ItemOf(slot)))
              && (f.ltype.SUBMESSAGE? ==> ItemOf(slot) == MsgVal(Defaults(f.sub)))
              && (!f.ltype.SUBMESSAGE? && f.dflt.Some? ==> ItemOf(slot) == f.dflt.value)
              && (Packable(f.ltype) && f.dflt.None? ==> ItemOf(slot) == IntVal(0))
              && (f.dflt.None? && (f.ltype.STRING? || f.ltype.BYTES?) ==> ItemOf(slot) == BytesVal([]))
              && (f.dflt.None? && f.ltype.FIXED_LENGTH_BYTES? ==>
                    ItemOf(slot).BytesVal? && |ItemOf(slot).b| == f.dataSize
                    && forall k | 0 <= k < f.dataSize :: ItemOf(slot).b[k] == 0)
  {
    assert Defaults(schema)[i] == DefaultSlot(schema[i], !Joined(schema, i));
  }

  /** Such a field keeps that, if it does not occur and no other member of its union does. */
  lemma {:induction false} AbsentIsDefault(schema: seq<Field>, s: Bytes, i: nat)
    requires InPlace(schema) && Decode(schema, s).Done? && i < |schema| && RecordsOf(schema, s).Done?
    requires forall k | 0 <= k < |RecordsOf(schema, s).v| ::
               var r := RecordsOf(schema, s).v[k]; r.i != i && !MemberOf(schema, i, r.i)
    ensures Decode(schema, s).v[i] == Defaults(schema)[i]
  {
    DecodeIsMeaning(schema, s);
    NoRecords(schema);
    NoneOfThem(schema, i, RecordsOf(schema, s).v);
  }

  lemma {:induction false} NoneOfThem(schema: seq<Field>, i: nat, rs: seq<Record>)
    requires i < |schema|
    requires forall k | 0 <= k < |rs| :: rs[k].i != i && !MemberOf(schema, i, rs[k].i)
    ensures SlotMeaning(schema, i, rs) == SlotMeaning(schema, i, [])
  {
    if rs != [] {
      var before, last := rs[..|rs| - 1], rs[|rs| - 1];
      assert rs == before + [last];
      NoneOfThem(schema, i, before);
      OtherSlot(schema, i, before, last);
    }
  }
}
