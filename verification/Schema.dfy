/** Message descriptors (`pb_field_t` arrays) and the structures they describe. */
module Schema {
  import opened Bits
  import opened Config
  import opened Wrappers

  datatype LType = BOOL | VARINT | UVARINT | SVARINT | FIXED32 | FIXED64
                 | BYTES | STRING | SUBMESSAGE | EXTENSION | FIXED_LENGTH_BYTES
  datatype HType = REQUIRED | OPTIONAL | REPEATED | ONEOF
  /** How a field is stored: in place, behind a pointer, or by a callback. */
  datatype AType = STATIC | PTR | CALLBACK

  /** One descriptor.  `ptr` is split into the default value and the submessage's own descriptors.
      The terminating zero descriptor is the end of the sequence. */
  datatype Field = Field(tag: nat, ltype: LType, htype: HType, atype: AType,
                         dataOffset: nat, sizeOffset: int, dataSize: nat, arraySize: nat,
                         dflt: Option<Val>, sub: seq<Field>)

  /** The content of one item of a field: a number, the bytes of a string or bytes item, or a structure. */
  datatype Val = IntVal(n: int) | BytesVal(b: seq<Byte>) | MsgVal(m: seq<Slot>)

  /** The part of a structure that belongs to one descriptor: a plain item, an item with its `has_` flag,
      an array with its count, and for a oneof the `which_` tag and the union, kept with its first member. */
  datatype Slot = Single(v: Val) | Opt(has: bool, v: Val) | Rep(items: seq<Val>) | Union(which: nat, v: Val) | Member

  type Message = seq<Slot>

  predicate Packable(l: LType) {
    l.BOOL? || l.VARINT? || l.UVARINT? || l.SVARINT? || l.FIXED32? || l.FIXED64?
  }

  /** A repeated field whose structure holds no count. */
  predicate FixedCount(f: Field) {
    f.htype.REPEATED? && f.sizeOffset == 0
  }

  /** Descriptor `i` shares its storage with the one before it. */
  predicate Joined(schema: seq<Field>, i: nat)
    requires i < |schema|
  {
    i > 0 && schema[i - 1].htype.ONEOF? && schema[i].htype.ONEOF? && schema[i].dataOffset == SIZE_MAX
  }

  /** The first member of the union that descriptor `i` belongs to. */
  function Leader(schema: seq<Field>, i: nat): (l: nat)
    requires i < |schema|
    ensures l <= i && !Joined(schema, l)
    ensures l < i ==> schema[l].htype.ONEOF? && schema[i].htype.ONEOF?
  {
    if Joined(schema, i) then Leader(schema, i - 1) else i
  }

  /** The first descriptor with the given tag, or the end. */
  function FindTag(schema: seq<Field>, tag: nat): (i: nat)
    ensures i <= |schema|
    ensures i < |schema| ==> schema[i].tag == tag
  {
    if schema == [] then 0
    else if schema[0].tag == tag && !schema[0].ltype.EXTENSION? then 0
    else 1 + FindTag(schema[1..], tag)
  }

  predicate DistinctTags(schema: seq<Field>) {
    forall i, j | 0 <= i < j < |schema| :: schema[i].tag != schema[j].tag
  }

  lemma {:induction false} FindTagAt(schema: seq<Field>, i: nat)
    requires DistinctTags(schema) && i < |schema| && !schema[i].ltype.EXTENSION?
    ensures FindTag(schema, schema[i].tag) == i
  {
    if i > 0 {
      assert schema[0].tag != schema[i].tag;
      assert schema[1..][i - 1] == schema[i];
      FindTagAt(schema[1..], i - 1);
    }
  }

  /** Number of required descriptors before position `i`. */
  function ReqIndex(schema: seq<Field>, i: nat): (r: nat)
    requires i <= |schema|
    ensures r <= i
  {
    if i == 0 then 0 else ReqIndex(schema, i - 1) + (if schema[i - 1].htype.REQUIRED? then 1 else 0)
  }

  // ----- Default values -----

  function ZeroVal(f: Field): Val {
    match f.ltype
    case BYTES => BytesVal([])
    case STRING => BytesVal([])
    case FIXED_LENGTH_BYTES => BytesVal(seq(f.dataSize, i => 0))
    case _ => IntVal(0)
  }

  function DefaultVal(f: Field): Val
    decreases f, 0
  {
    if f.ltype.SUBMESSAGE? then MsgVal(Defaults(f.sub))
    else if f.dflt.Some? then f.dflt.value
    else ZeroVal(f)
  }

  /** Content the C code leaves unset: the items of a fixed-count array before they are received. */
  function UnsetVal(f: Field): Val
    decreases f, 0
  {
    if f.ltype.SUBMESSAGE? then MsgVal(Defaults(f.sub)) else ZeroVal(f)
  }

  function DefaultSlot(f: Field, leads: bool): Slot
    decreases f, 1
  {
    match f.htype
    case REQUIRED => Single(DefaultVal(f))
    case OPTIONAL => if f.sizeOffset != 0 then Opt(false, DefaultVal(f)) else Single(DefaultVal(f))
    case REPEATED => Rep(if f.sizeOffset != 0 then [] else seq(f.arraySize, i => UnsetVal(f)))
    case ONEOF => if leads then Union(0, IntVal(0)) else Member
  }

  /** pb_message_set_to_defaults. */
  function Defaults(schema: seq<Field>): (m: Message)
    ensures |m| == |schema|
    decreases schema
  {
    seq(|schema|, i requires 0 <= i < |schema| => DefaultSlot(schema[i], !Joined(schema, i)))
  }

  // ----- Well-formed schemas and normal-form messages -----

  function Pow256(n: nat): (p: nat)
    ensures p >= 1
  {
    if n == 1 then 0x100 else if n == 2 then 0x1_0000 else if n == 4 then 0x1_0000_0000
    else if n == 8 then 0x1_0000_0000_0000_0000 else 1
  }

  predicate IntSize(n: nat) {
    n == 1 || n == 2 || n == 4 || n == 8
  }

  predicate InSigned(x: int, size: nat) {
    0 <= 2 * x + Pow256(size) < 2 * Pow256(size)
  }

  predicate InUnsigned(x: int, size: nat) {
    0 <= x < Pow256(size)
  }

  /** What the descriptor macros generate for a static, callback-free, extension-free message type. */
  predicate SchemaOk(schema: seq<Field>)
    decreases schema
  {
    DistinctTags(schema) && forall i | 0 <= i < |schema| :: FieldOk(schema[i])
  }

  predicate FieldOk(f: Field)
    decreases f
  {
    && 1 <= f.tag < 0x2000_0000
    && f.atype.STATIC? && !f.ltype.EXTENSION?
    && f.dataSize <= SIZE_MAX && f.arraySize <= SIZE_MAX
    && (f.ltype.VARINT? || f.ltype.UVARINT? || f.ltype.SVARINT? ==> IntSize(f.dataSize))
    && (f.htype.ONEOF? ==> f.sizeOffset != 0)
    && (f.htype.REQUIRED? ==> f.sizeOffset == 0)
    && (f.htype.OPTIONAL? && f.sizeOffset == 0 ==> f.dflt.None?)
    && SchemaOk(f.sub)
  }

  /** An item within the bounds of its C type, as a structure in normal form holds it. */
  predicate ValOk(f: Field, v: Val)
    decreases f, 0
  {
    match f.ltype
    case BOOL => v == IntVal(0) || v == IntVal(1)
    case VARINT => v.IntVal? && InSigned(v.n, f.dataSize)
    case UVARINT => v.IntVal? && InUnsigned(v.n, f.dataSize)
    case SVARINT => v.IntVal? && InSigned(v.n, f.dataSize)
    case FIXED32 => v.IntVal? && InUnsigned(v.n, 4)
    case FIXED64 => v.IntVal? && InUnsigned(v.n, 8)
    case BYTES => v.BytesVal? && |v.b| + SIZE_BYTES <= f.dataSize
    case STRING => v.BytesVal? && |v.b| + 1 <= f.dataSize && 0 !in v.b
    case SUBMESSAGE => v.MsgVal? && NormalForm(f.sub, v.m)
    case EXTENSION => false
    case FIXED_LENGTH_BYTES => v.BytesVal? && |v.b| == f.dataSize
  }

  predicate SlotOk(schema: seq<Field>, i: nat, slot: Slot)
    requires i < |schema|
    decreases schema, 0
  {
    var f := schema[i];
    match f.htype
    case REQUIRED => slot.Single? && ValOk(f, slot.v)
    case OPTIONAL =>
      if f.sizeOffset == 0 then slot.Single? && ValOk(f, slot.v)
      else slot.Opt? && (if slot.has then ValOk(f, slot.v) else slot.v == DefaultVal(f))
    case REPEATED =>
      && slot.Rep?
      && (if f.sizeOffset == 0 then |slot.items| == f.arraySize else |slot.items| <= f.arraySize)
      && forall k | 0 <= k < |slot.items| :: ValOk(f, slot.items[k])
    case ONEOF =>
      if Joined(schema, i) then slot.Member?
      else
        && slot.Union?
        && (slot.which == 0 ==> slot.v == IntVal(0))
        && (slot.which != 0 ==>
              var j := FindTag(schema, slot.which);
              j < |schema| && schema[j].htype.ONEOF? && Leader(schema, j) == i && ValOk(schema[j], slot.v))
  }

  /** `has` false means the default value, counts are within bounds, strings are terminated,
      and `which_` is zero or the tag of a member of its union. */
  predicate NormalForm(schema: seq<Field>, m: Message)
    decreases schema, 1
  {
    |m| == |schema| && forall i | 0 <= i < |schema| :: SlotOk(schema, i, m[i])
  }
}
