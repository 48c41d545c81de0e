/** The bytes that pb_encode produces for a structure. */
module WireFormat {
  import opened Bits
  import opened Config
  import opened Wrappers
  import opened Schema
  import opened Varint
  import opened Streams
  import opened OutputStreams

  type Bytes = seq<Byte>

  function Append(a: Option<Bytes>, b: Option<Bytes>): Option<Bytes> {
    if a.Some? && b.Some? then Some(a.value + b.value) else None
  }

  function WireType(l: LType): nat {
    match l
    case FIXED32 => WT_32BIT
    case FIXED64 => WT_64BIT
    case BYTES => WT_STRING
    case STRING => WT_STRING
    case SUBMESSAGE => WT_STRING
    case FIXED_LENGTH_BYTES => WT_STRING
    case _ => WT_VARINT
  }

  function FieldTag(f: Field): Bytes {
    EncTag(WireType(f.ltype), f.tag)
  }

  /** What the encoder sees of a character array: the bytes before the first zero, at most `max`. */
  function CString(b: Bytes, max: nat): (s: Bytes)
    ensures s <= b
  {
    if b == [] || max == 0 || b[0] == 0 then [] else [b[0]] + CString(b[1..], max - 1)
  }

  /** One item without its tag; None is an encoder error. */
  function EncVal(f: Field, v: Val): Option<Bytes>
    decreases f, 0
  {
    match (f.ltype, v)
    case (BOOL, IntVal(n)) => Some(EncVarint(if n != 0 then 1 else 0))
    case (VARINT, IntVal(n)) =>
      if IntSize(f.dataSize) && InSigned(n, f.dataSize) then Some(EncVarint(Unsigned64(n))) else None
    case (UVARINT, IntVal(n)) => if IntSize(f.dataSize) && InUnsigned(n, f.dataSize) then Some(EncVarint(n)) else None
    case (SVARINT, IntVal(n)) =>
      if IntSize(f.dataSize) && InSigned(n, f.dataSize) then Some(EncVarint(ZigZag(n))) else None
    case (FIXED32, IntVal(n)) => if InUnsigned(n, 4) then Some(LittleEndian(n, 4)) else None
    case (FIXED64, IntVal(n)) => if InUnsigned(n, 8) then Some(LittleEndian(n, 8)) else None
    case (BYTES, BytesVal(b)) => if |b| + SIZE_BYTES <= f.dataSize then Some(Delimit(b)) else None
    case (STRING, BytesVal(b)) => Some(Delimit(CString(b, f.dataSize)))
    case (FIXED_LENGTH_BYTES, BytesVal(b)) => if |b| == f.dataSize then Some(Delimit(b)) else None
    case (SUBMESSAGE, MsgVal(m)) =>
      var e := Encode(f.sub, m);
      if e.Some? then Some(Delimit(e.value)) else None
    case _ => None
  }

  function Tagged(f: Field, v: Val): Option<Bytes>
    decreases f, 2
  {
    Append(Some(FieldTag(f)), EncVal(f, v))
  }

  /** The payload of a packed array. */
  function EncPacked(f: Field, items: seq<Val>): Option<Bytes>
    decreases f, 3, |items|
  {
    if items == [] then Some([]) else Append(EncVal(f, items[0]), EncPacked(f, items[1..]))
  }

  /** An array with a tag before every item. */
  function EncUnpacked(f: Field, items: seq<Val>): Option<Bytes>
    decreases f, 3, |items|
  {
    if items == [] then Some([]) else Append(Tagged(f, items[0]), EncUnpacked(f, items[1..]))
  }

  /** encode_array: arrays are packed wherever the type allows it. */
  function EncArray(f: Field, items: seq<Val>): Option<Bytes>
    decreases f, 4
  {
    if items == [] then Some([])
    else if |items| > f.arraySize then None
    else if Packable(f.ltype) then
      var p := EncPacked(f, items);
      if p.Some? then Some(EncTag(WT_STRING, f.tag) + Delimit(p.value)) else None
    else EncUnpacked(f, items)
  }

  /** pb_check_proto3_default_value for the field at position `i`. */
  predicate IsProto3Default(schema: seq<Field>, i: nat, m: Message)
    requires i < |schema| == |m|
    decreases schema, 0
  {
    var f := schema[i];
    match f.htype
    case REQUIRED => false
    case REPEATED => f.sizeOffset != 0 && m[i].Rep? && |m[i].items| == 0
    case ONEOF => m[Leader(schema, i)].Union? && m[Leader(schema, i)].which == 0
    case OPTIONAL =>
      if f.sizeOffset != 0 then m[i].Opt? && !m[i].has
      else m[i].Single? && IsZero(f, m[i].v)
  }

  predicate IsZero(f: Field, v: Val)
    decreases f, 0
  {
    match f.ltype
    case BYTES => v.BytesVal? && |v.b| == 0
    case STRING => v.BytesVal? && CString(v.b, f.dataSize) == []
    case FIXED_LENGTH_BYTES => f.dataSize == 0
    case SUBMESSAGE => v.MsgVal? && |v.m| == |f.sub| && AllZero(f.sub, v.m)
    case _ => v == IntVal(0)
  }

  predicate AllZero(schema: seq<Field>, m: Message)
    requires |m| == |schema|
    decreases schema, 1
  {
    forall j | 0 <= j < |schema| :: IsProto3Default(schema, j, m)
  }

  /** encode_field for the field at position `i`. */
  function EncField(schema: seq<Field>, m: Message, i: nat): Option<Bytes>
    requires i < |schema| == |m|
    decreases schema, 0
  {
    var f, slot := schema[i], m[i];
    match f.htype
    case REQUIRED => if slot.Single? then Tagged(f, slot.v) else None
    case OPTIONAL =>
      if f.sizeOffset != 0 then
        if !slot.Opt? then None else if slot.has then Tagged(f, slot.v) else Some([])
      else
        if !slot.Single? then None else if IsProto3Default(schema, i, m) then Some([]) else Tagged(f, slot.v)
    case REPEATED =>
      if !slot.Rep? || (f.sizeOffset == 0 && |slot.items| != f.arraySize) then None else EncArray(f, slot.items)
    case ONEOF =>
      var u := m[Leader(schema, i)];
      if !u.Union? then None else if u.which == f.tag then Tagged(f, u.v) else Some([])
  }

  /** The fields from position `i` on. */
  function EncFrom(schema: seq<Field>, m: Message, i: nat): Option<Bytes>
    requires i <= |schema| == |m|
    decreases schema, 1, |schema| - i
  {
    if i == |schema| then Some([]) else Append(EncField(schema, m, i), EncFrom(schema, m, i + 1))
  }

  /** pb_encode. */
  function Encode(schema: seq<Field>, m: Message): Option<Bytes>
    decreases schema, 2
  {
    if |m| == |schema| then EncFrom(schema, m, 0) else None
  }
}
