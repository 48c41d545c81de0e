/** What pb_decode makes of a byte string. */
module WireReader {
  import opened Bits
  import opened Config
  import opened Wrappers
  import opened Schema
  import opened Varint
  import opened Streams

  type Bytes = seq<Byte>

  /** The state of pb_decode_noinit between two fields: the structure, the required fields seen, and the
      fixed-count field being received (`fix`, or -1) with the number of its items received so far. */
  datatype Progress = Progress(m: Message, seen: set<nat>, fix: int, fixCount: nat)

  /** How the field loop ends: with an error, or having read everything up to a zero tag (`zero`) or to the end. */
  datatype LoopEnd = LoopError | Ended(st: Progress, zero: bool, rest: Bytes)

  function Start(m: Message): Progress {
    Progress(m, {}, -1, 0)
  }

  // ----- Items -----

  /** The number that a varint field takes from the wire; None if it does not fit the C type. */
  function Convert(f: Field, v: nat): Option<int> {
    match f.ltype
    case BOOL => Some(if v != 0 then 1 else 0)
    case VARINT =>
      // Fields of at most 32 bits drop the upper half first.
      var x := if f.dataSize == 8 then Signed(v, 0x1_0000_0000_0000_0000) else Signed(v, 0x1_0000_0000);
      if IntSize(f.dataSize) && InSigned(x, f.dataSize) then Some(x) else None
    case UVARINT => if IntSize(f.dataSize) && InUnsigned(v, f.dataSize) then Some(v) else None
    case _ => if IntSize(f.dataSize) && InSigned(UnZigZag(v), f.dataSize) then Some(UnZigZag(v)) else None
  }

  function Number(f: Field, p: Parse<nat>): (q: Parse<Val>)
    ensures q.Done? ==> p.Done? && q.rest == p.rest
  {
    if p.Done? && Convert(f, p.v).Some? then Done(IntVal(Convert(f, p.v).value), p.rest) else Fail
  }

  function FixedWidth(s: Bytes, width: nat): (q: Parse<Val>)
    ensures q.Done? ==> |q.rest| + width == |s|
  {
    var p := Take(s, width);
    if p.Done? then Done(IntVal(FromLittleEndian(p.v)), p.rest) else Fail
  }

  /** A length-delimited item that fits its storage. */
  function Block(s: Bytes, f: Field): (q: Parse<Val>)
    ensures q.Done? ==> |q.rest| < |s|
  {
    match Varint32(s)
    case Fail => Fail
    case Done(size, rest) =>
      if f.ltype.FIXED_LENGTH_BYTES? then
        if size > SIZE_MAX then Fail
        else if size == 0 then Done(ZeroVal(f), rest)
        else if size != f.dataSize then Fail
        else Contents(Take(rest, size))
      else if f.ltype.STRING? then
        if size + 1 > f.dataSize then Fail else Contents(Take(rest, size))
      else
        if size > SIZE_MAX || size + SIZE_BYTES > f.dataSize then Fail else Contents(Take(rest, size))
  }

  function Contents(p: Parse<Bytes>): (q: Parse<Val>)
    ensures q.Done? ==> p.Done? && q.rest == p.rest
  {
    if p.Done? then Done(BytesVal(p.v), p.rest) else Fail
  }

  /** The structure inside an item, to merge into. */
  function Inner(f: Field, v: Val): (m: Message)
    ensures |m| == |f.sub|
  {
    if v.MsgVal? && |v.m| == |f.sub| then v.m else Defaults(f.sub)
  }

  /** One item, by the type's decoder.  A submessage is merged into `prev`. */
  function DecVal(f: Field, s: Bytes, prev: Val): (p: Parse<Val>)
    ensures p.Done? ==> |p.rest| < |s|
    decreases |s|, 1
  {
    match f.ltype
    case BOOL => Number(f, Varint32(s))
    case VARINT => Number(f, Varint64(s))
    case UVARINT => Number(f, Varint64(s))
    case SVARINT => Number(f, Varint64(s))
    case FIXED32 => FixedWidth(s, 4)
    case FIXED64 => FixedWidth(s, 8)
    case EXTENSION => Fail
    case SUBMESSAGE =>
      var d := Delimited(s);
      if d.Fail? then Fail
      else
        var r := DecodeNoinit(f.sub, d.v, Inner(f, prev));
        if r.Done? then Done(MsgVal(r.v), d.rest) else Fail
    case _ => Block(s, f)
  }

  // ----- Fields -----

  /** Storing item number `count` of an array. */
  function Put(items: seq<Val>, count: nat, v: Val): seq<Val> {
    if count < |items| then items[count := v] else items + [v]
  }

  /** The items of a packed array, all of which must be used up. */
  function DecPacked(f: Field, s: Bytes, items: seq<Val>, count: nat): Option<(seq<Val>, nat)>
    decreases |s|, 2
  {
    if s == [] then Some((items, count))
    else if count >= f.arraySize then None
    else
      match DecVal(f, s, UnsetVal(f))
      case Fail => None
      case Done(v, rest) => DecPacked(f, rest, Put(items, count, v), count + 1)
  }

  /** decode_static_field for a repeated field. */
  function DecArray(f: Field, wireType: nat, s: Bytes, items: seq<Val>, count: nat): (p: Parse<(seq<Val>, nat)>)
    ensures p.Done? ==> |p.rest| < |s|
    decreases |s|, 3
  {
    if wireType == WT_STRING && Packable(f.ltype) then
      var d := Delimited(s);
      if d.Fail? then Fail
      else
        var r := DecPacked(f, d.v, items, count);
        if r.Some? then Done(r.value, d.rest) else Fail
    else if count >= f.arraySize then Fail
    else
      match DecVal(f, s, UnsetVal(f))
      case Fail => Fail
      case Done(v, rest) => Done((Put(items, count, v), count + 1), rest)
  }

  function ItemOf(slot: Slot): Val {
    if slot.Single? || slot.Opt? then slot.v else IntVal(0)
  }

  function ItemsOf(slot: Slot): seq<Val> {
    if slot.Rep? then slot.items else []
  }

  /** decode_static_field for the field at position `i`. */
  function DecField(schema: seq<Field>, i: nat, wireType: nat, s: Bytes, st: Progress): (p: Parse<Progress>)
    requires i < |schema| == |st.m|
    ensures p.Done? ==> |p.rest| < |s| && |p.v.m| == |schema|
    decreases |s|, 4
  {
    var f := schema[i];
    match f.htype
    case REPEATED =>
      var items := ItemsOf(st.m[i]);
      var count := if FixedCount(f) then st.fixCount else |items|;
      (match DecArray(f, wireType, s, items, count)
       case Fail => Fail
       case Done((items', count'), rest) =>
         Done(st.(m := st.m[i := Rep(items')], fixCount := if FixedCount(f) then count' else st.fixCount), rest))
    case ONEOF =>
      (match DecVal(f, s, DefaultVal(f))
       case Fail => Fail
       case Done(v, rest) => Done(st.(m := st.m[Leader(schema, i) := Union(f.tag, v)]), rest))
    case _ =>
      match DecVal(f, s, ItemOf(st.m[i]))
      case Fail => Fail
      case Done(v, rest) =>
        Done(st.(m := st.m[i := if f.htype.OPTIONAL? && f.sizeOffset != 0 then Opt(true, v) else Single(v)]), rest)
  }

  /** Switching to another fixed-count field, which the one before must have completed. */
  predicate FixDone(schema: seq<Field>, st: Progress) {
    0 <= st.fix < |schema| ==> st.fixCount == schema[st.fix].arraySize
  }

  /** The body of the field loop for a field that belongs to the message. */
  function Known(schema: seq<Field>, i: nat, wireType: nat, s: Bytes, st: Progress): (p: Parse<Progress>)
    requires i < |schema| == |st.m|
    ensures p.Done? ==> |p.rest| < |s| && |p.v.m| == |schema|
    decreases |s|, 5
  {
    if FixedCount(schema[i]) && st.fix != i && !FixDone(schema, st) then Fail
    else
      var st1 := if FixedCount(schema[i]) && st.fix != i then st.(fix := i, fixCount := 0) else st;
      var r := ReqIndex(schema, i);
      var st2 := if schema[i].htype.REQUIRED? && r < MAX_REQUIRED then st1.(seen := st1.seen + {r}) else st1;
      DecField(schema, i, wireType, s, st2)
  }

  /** The body of the field loop.  In an empty message type a zero field number matches the terminating
      descriptor, which reads like a bool. */
  function Step(schema: seq<Field>, tag: nat, wireType: nat, s: Bytes, st: Progress): (p: Parse<Progress>)
    requires |st.m| == |schema|
    ensures p.Done? ==> |p.rest| < |s| && |p.v.m| == |schema|
    decreases |s|, 6
  {
    var i := FindTag(schema, tag);
    if i < |schema| then Known(schema, i, wireType, s, st)
    else
      var p := if schema == [] && tag == 0 then Discard(Varint32(s)) else Skip(wireType, s);
      if p.Done? then Done(st, p.rest) else Fail
  }

  /** The field loop of pb_decode_noinit. */
  function Loop(schema: seq<Field>, s: Bytes, st: Progress): (e: LoopEnd)
    requires |st.m| == |schema|
    ensures e.Ended? ==> |e.st.m| == |schema| && |e.rest| <= |s|
    decreases |s|, 7
  {
    match ReadTag(s)
    case TagError => LoopError
    case Stop(rest) => Ended(st, s != [], rest)
    case Header(tag, wireType, rest) =>
      match Step(schema, tag, wireType, rest, st)
      case Fail => LoopError
      case Done(st', rest') => Loop(schema, rest', st')
  }

  /** The final checks: the last fixed-count field is complete, and the required fields were all there. */
  predicate Complete(schema: seq<Field>, st: Progress) {
    FixDone(schema, st) && forall r: nat | r < ReqIndex(schema, |schema|) && r < MAX_REQUIRED :: r in st.seen
  }

  /** pb_decode_noinit. */
  function DecodeNoinit(schema: seq<Field>, s: Bytes, m: Message): (p: Parse<Message>)
    requires |m| == |schema|
    ensures p.Done? ==> |p.v| == |schema|
    decreases |s|, 8
  {
    match Loop(schema, s, Start(m))
    case LoopError => Fail
    case Ended(st, zero, rest) => if Complete(schema, st) then Done(st.m, rest) else Fail
  }

  /** pb_decode. */
  function Decode(schema: seq<Field>, s: Bytes): Parse<Message> {
    DecodeNoinit(schema, s, Defaults(schema))
  }

  // ----- Packed payloads -----

  /** The bytes of the number that `s` starts with; 0 if there is none. */
  function NumberLen(f: Field, s: Bytes): (n: nat)
    ensures n <= |s|
  {
    if f.ltype.FIXED32? then (if |s| >= 4 then 4 else 0)
    else if f.ltype.FIXED64? then (if |s| >= 8 then 8 else 0)
    else VarintLen(s)
  }

  /** How many numbers a packed payload holds. */
  function Numbers(f: Field, s: Bytes): nat
    decreases |s|
  {
    if NumberLen(f, s) == 0 then 0 else 1 + Numbers(f, s[NumberLen(f, s)..])
  }

  /** A decoder of numbers uses exactly the bytes of one. */
  lemma {:induction false} NumberUses(f: Field, s: Bytes, prev: Val)
    requires Packable(f.ltype) && DecVal(f, s, prev).Done?
    ensures NumberLen(f, s) > 0 && DecVal(f, s, prev).rest == s[NumberLen(f, s)..]
  {
    if f.ltype.BOOL? {
      Varint32Uses(s);
    }
  }

  lemma NumbersStep(f: Field, s: Bytes, rest: Bytes)
    requires NumberLen(f, s) > 0 && rest == s[NumberLen(f, s)..]
    ensures Numbers(f, s) == 1 + Numbers(f, rest)
  {}

  /** A packed array receives as many items as the payload holds numbers. */
  lemma {:induction false} PackedItems(f: Field, s: Bytes, items: seq<Val>, count: nat)
    requires Packable(f.ltype) && DecPacked(f, s, items, count).Some?
    ensures DecPacked(f, s, items, count).value.1 == count + Numbers(f, s)
    decreases |s|
  {
    if s != [] {
      var p := DecVal(f, s, UnsetVal(f));
      NumberUses(f, s, UnsetVal(f));
      NumbersStep(f, s, p.rest);
      PackedItems(f, p.rest, Put(items, count, p.v), count + 1);
    }
  }
}
