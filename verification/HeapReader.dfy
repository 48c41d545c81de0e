/** What pb_decode with PB_ENABLE_MALLOC makes of a byte string if no allocation is refused: whether it accepts the
    string, refuses it, or goes astray.  Nothing here depends on the values that are read or on any pointer. */
module HeapReader {
  import opened Bits
  import opened Config
  import opened Wrappers
  import opened Schema
  import opened Varint
  import opened Streams
  import opened WireReader
  import opened RequiredFields
  import opened Presence
  import opened Allocator
  import opened Ownership

  /** The decoder accepts, refuses, or has pb_release walk memory that it never initialized. */
  datatype Reading<T> = Accepted(v: T, rest: Bytes) | Refused | Astray

  function Also<T, U>(r: Reading<T>, v: U): Reading<U> {
    match r
    case Accepted(_, rest) => Accepted(v, rest)
    case Refused => Refused
    case Astray => Astray
  }

  /** A call that has the given reading, unless an allocation was refused: then it fails, and nothing is astray.
      `before` and `after` count the refusals. */
  ghost predicate Follows<T>(before: nat, after: nat, stray: bool, ok: bool, v: T, rest: Bytes, r: Reading<T>) {
    && after >= before
    && (stray ==> !ok)
    && if after > before then !ok && !stray
       else r == (if stray then Astray else if ok then Accepted(v, rest) else Refused)
  }

  // ----- What the course of the decoder depends on -----

  /** Of a field's storage: its count, and the memory of the items still to come. */
  function Bare(f: Field, n: Node): Node
    decreases f
  {
    if f.atype.PTR? || !f.ltype.SUBMESSAGE? then Node(0, n.count, [], [])
    else if f.htype.REPEATED? then Node(0, n.count, [], n.raw)
    else Node(0, 0, [Node(0, 0, BareAll(f.sub, if n.kids == [] then [] else n.kids[0].kids), [])], [])
  }

  function BareAll(schema: seq<Field>, ns: seq<Node>): (r: seq<Node>)
    ensures |r| == |schema|
    decreases schema
  {
    seq(|schema|, i requires 0 <= i < |schema| => Bare(schema[i], if i < |ns| then ns[i] else EMPTY))
  }

  /** The members of the structure inside a static field. */
  function Inside(f: Field, n: Node): (ns: seq<Node>)
    ensures |ns| == |f.sub|
  {
    if |n.kids| == 1 && |n.kids[0].kids| == |f.sub| then n.kids[0].kids else Zero(f.sub).kids
  }

  // ----- Items -----

  /** Anything but a submessage, in place. */
  function PlainReading(f: Field, s: Bytes): (r: Reading<()>)
    ensures r.Accepted? ==> |r.rest| < |s|
  {
    var p := DecVal(f, s, IntVal(0));
    if p.Done? then Accepted((), p.rest) else Refused
  }

  /** A string or bytes item in a block of its own, whose size has to be one. */
  function BlockReading(f: Field, s: Bytes): (r: Reading<()>)
    ensures r.Accepted? ==> |r.rest| < |s|
  {
    match Varint32(s)
    case Fail => Refused
    case Done(size, rest) =>
      if f.ltype.STRING? && size + 1 >= 0x1_0000_0000 then Refused
      else if !f.ltype.STRING? && (size > SIZE_MAX || size + SIZE_BYTES > SIZE_T_MAX) then Refused
      else if size > |rest| then Refused
      else Accepted((), rest[size..])
  }

  /** How many items an array can have. */
  function Limit(f: Field): nat {
    if f.atype.PTR? then SIZE_MAX else f.arraySize
  }

  /** How many items of a size there may be in some bytes, the last one perhaps in part. */
  function ItemsIn(bytes: nat, size: nat): (n: nat)
    requires bytes > 0 && size > 0
    ensures n > 0
  {
    if bytes <= size then 1 else 1 + ItemsIn(bytes - size, size)
  }

  /** It is the quotient, rounded upwards. */
  lemma {:induction false} ItemsInIsQuotient(bytes: nat, size: nat)
    requires bytes > 0 && size > 0
    ensures ItemsIn(bytes, size) == (bytes - 1) / size + 1
  {
    if bytes > size {
      ItemsInIsQuotient(bytes - size, size);
      QuotientStep(bytes - 1, size);
    } else {
      QuotientZero(bytes - 1, size);
    }
  }

  lemma {:induction false} QuotientStep(a: nat, b: nat)
    requires 0 < b <= a
    ensures a / b == (a - b) / b + 1
  {
    var q, r := (a - b) / b, (a - b) % b;
    assert a == (q + 1) * b + r;
    DivUnique(a, b, q + 1, r);
  }

  lemma {:induction false} QuotientZero(a: nat, b: nat)
    requires a < b
    ensures a / b == 0
  {}

  /** How far an array grows: by the number of items that the remaining bytes may hold, within PB_SIZE_MAX. */
  function Grown(allocatedSize: nat, bytesLeft: nat, dataSize: nat): (size: nat)
    requires allocatedSize < SIZE_MAX && bytesLeft > 0 && dataSize > 0
    ensures allocatedSize < size <= SIZE_MAX
  {
    var remain := ItemsIn(bytesLeft, dataSize);
    if remain < SIZE_MAX - allocatedSize then allocatedSize + remain else allocatedSize + 1
  }

  lemma {:induction false} GrownExactly(allocatedSize: nat, bytesLeft: nat, dataSize: nat)
    requires allocatedSize < SIZE_MAX && bytesLeft > 0 && dataSize > 0
    ensures var remain := (bytesLeft - 1) / dataSize + 1;
            Grown(allocatedSize, bytesLeft, dataSize)
            == if allocatedSize + remain < SIZE_MAX then allocatedSize + remain else allocatedSize + 1
  {
    ItemsInIsQuotient(bytesLeft, dataSize);
  }

  /** The room that an array behind a pointer has for its next number, if its size is allowed. */
  function RoomFor(f: Field, count: nat, room: nat, bytesLeft: nat): Option<nat>
    requires bytesLeft > 0 && count < SIZE_MAX
  {
    if count < room then Some(room)
    else if f.dataSize == 0 then None
    else
      var grown := Grown(room, bytesLeft, f.dataSize);
      if Allocatable(f.dataSize, grown) then Some(grown) else None
  }

  /** The numbers of a packed payload, behind the `count` that the array holds; `room` is what a block has room for. */
  function NumbersReading(f: Field, s: Bytes, count: nat, room: nat): Option<nat>
    decreases |s|
  {
    if s == [] then Some(count)
    else if count >= Limit(f) || (f.atype.PTR? && RoomFor(f, count, room, |s|).None?) then None
    else
      var room' := if f.atype.PTR? then RoomFor(f, count, room, |s|).value else room;
      match PlainReading(f, s)
      case Accepted(_, rest) => NumbersReading(f, rest, count + 1, room')
      case Refused => None
      case Astray => None
  }

  function PackedReading(f: Field, s: Bytes, count: nat): (r: Reading<Node>)
    ensures r.Accepted? ==> |r.rest| < |s|
  {
    match Delimited(s)
    case Fail => Refused
    case Done(v, rest) =>
      var r := NumbersReading(f, v, count, count);
      if r.Some? then Accepted(Node(0, r.value, [], []), rest) else Refused
  }

  /** pb_dec_submessage, into storage that is set to its defaults first. */
  function ItemReading(sub: seq<Field>, s: Bytes, item: Node): (r: Reading<()>)
    ensures r.Accepted? ==> |r.rest| < |s|
    decreases |s|, 0
  {
    match Delimited(s)
    case Fail => Refused
    case Done(v, rest) =>
      match MessageReading(sub, v, item)
      case Accepted(_, _) => Accepted((), rest)
      case Refused => Refused
      case Astray => Astray
  }

  /** pb_dec_submessage, into the structure that is there. */
  function MergeReading(sub: seq<Field>, s: Bytes, ns: seq<Node>): (r: Reading<seq<Node>>)
    requires |ns| == |sub|
    ensures r.Accepted? ==> |r.rest| < |s|
    decreases |s|, 0
  {
    match Delimited(s)
    case Fail => Refused
    case Done(v, rest) =>
      match StructReading(sub, v, ns)
      case Accepted(ns', _) => Accepted(ns', rest)
      case Refused => Refused
      case Astray => Astray
  }

  // ----- Fields -----

  /** The next item of a static array of submessages.  It is counted before its length is read; if that fails,
      pb_release walks whatever its memory holds. */
  function ArrayReading(f: Field, s: Bytes, n: Node): (r: Reading<Node>)
    ensures r.Accepted? ==> |r.rest| < |s|
    decreases |s|, 1
  {
    if n.raw == [] then Refused
    else if Delimited(s).Fail? then (if Harmless(f.sub, n.raw[0]) then Refused else Astray)
    else Also(ItemReading(f.sub, s, n.raw[0]), Node(0, n.count + 1, [], n.raw[1..]))
  }

  function StaticReading(f: Field, wireType: nat, s: Bytes, n: Node): (r: Reading<Node>)
    ensures r.Accepted? ==> |r.rest| < |s|
    decreases |s|, 2
  {
    if f.htype.REPEATED? && wireType == WT_STRING && Packable(f.ltype) then PackedReading(f, s, n.count)
    else if f.htype.REPEATED? && f.ltype.SUBMESSAGE? then ArrayReading(f, s, n)
    else if f.ltype.SUBMESSAGE? then
      match MergeReading(f.sub, s, Inside(f, n))
      case Accepted(ns, rest) => Accepted(Node(0, 0, [Node(0, 0, ns, [])], []), rest)
      case Refused => Refused
      case Astray => Astray
    else if f.htype.REPEATED? then
      if n.count >= f.arraySize then Refused else Also(PlainReading(f, s), Node(0, n.count + 1, [], []))
    else Also(PlainReading(f, s), EMPTY)
  }

  /** One item behind a pointer, in storage that was just allocated. */
  function TargetReading(f: Field, s: Bytes): (r: Reading<()>)
    ensures r.Accepted? ==> |r.rest| < |s|
    decreases |s|, 1
  {
    if f.ltype.SUBMESSAGE? then ItemReading(f.sub, s, Zero(f.sub))
    else if StringLike(f) then BlockReading(f, s)
    else PlainReading(f, s)
  }

  /** allocate_field does not allow the size of the block for an item, or for an array with one item more. */
  predicate SizeRefused(f: Field, count: nat) {
    if f.htype.REPEATED? then !Allocatable(f.dataSize, count + 1)
    else !StringLike(f) && !Allocatable(f.dataSize, 1)
  }

  function NewItemReading(f: Field, count: nat, s: Bytes): (r: Reading<()>)
    ensures r.Accepted? ==> |r.rest| < |s|
    decreases |s|, 2
  {
    if SizeRefused(f, count) then Refused else TargetReading(f, s)
  }

  function PointerReading(f: Field, wireType: nat, s: Bytes, n: Node): (r: Reading<Node>)
    ensures r.Accepted? ==> |r.rest| < |s|
    decreases |s|, 3
  {
    if !f.htype.REPEATED? then Also(NewItemReading(f, 0, s), EMPTY)
    else if wireType == WT_STRING && Packable(f.ltype) then PackedReading(f, s, n.count)
    else if n.count == SIZE_MAX then Refused
    else Also(NewItemReading(f, n.count, s), Node(0, n.count + 1, [], []))
  }

  function FieldReading(f: Field, wireType: nat, s: Bytes, n: Node): (r: Reading<Node>)
    ensures r.Accepted? ==> |r.rest| < |s|
    decreases |s|, 4
  {
    if f.atype.PTR? then PointerReading(f, wireType, s, n) else StaticReading(f, wireType, s, n)
  }

  // ----- Messages -----

  /** The fields of a structure and the required ones that have been seen. */
  datatype Course = Course(ns: seq<Node>, seen: set<nat>)

  function CourseOf(schema: seq<Field>, ns: seq<Node>, seen: set<nat>): Course {
    Course(BareAll(schema, ns), seen)
  }

  /** The body of the field loop. */
  function NextReading(schema: seq<Field>, tag: nat, wireType: nat, s: Bytes, c: Course): (r: Reading<Course>)
    requires |c.ns| == |schema|
    ensures r.Accepted? ==> |r.rest| < |s| && |r.v.ns| == |schema|
    decreases |s|, 5
  {
    var i := FindTag(schema, tag);
    if i < |schema| then
      match FieldReading(schema[i], wireType, s, c.ns[i])
      case Accepted(n, rest) => Accepted(Course(c.ns[i := n], Marked(schema, i, c.seen)), rest)
      case Refused => Refused
      case Astray => Astray
    else
      var p := if schema == [] && tag == 0 then Discard(Varint32(s)) else Skip(wireType, s);
      if p.Done? then Accepted(c, p.rest) else Refused
  }

  /** The field loop of pb_decode_noinit. */
  function LoopReading(schema: seq<Field>, s: Bytes, c: Course): (r: Reading<Course>)
    requires |c.ns| == |schema|
    ensures r.Accepted? ==> |r.v.ns| == |schema|
    decreases |s|, 6
  {
    match ReadTag(s)
    case TagError => Refused
    case Stop(rest) => Accepted(c, rest)
    case Header(tag, wireType, rest) =>
      match NextReading(schema, tag, wireType, rest, c)
      case Accepted(c', rest') => LoopReading(schema, rest', c')
      case Refused => Refused
      case Astray => Astray
  }

  /** pb_decode_noinit. */
  function StructReading(schema: seq<Field>, s: Bytes, ns: seq<Node>): (r: Reading<seq<Node>>)
    requires |ns| == |schema|
    ensures r.Accepted? ==> |r.v| == |schema|
    decreases |s|, 7
  {
    match LoopReading(schema, s, Course(ns, {}))
    case Accepted(c, rest) => if AllSeen(schema, c.seen) then Accepted(c.ns, rest) else Refused
    case Refused => Refused
    case Astray => Astray
  }

  /** pb_decode, into any storage. */
  function MessageReading(schema: seq<Field>, s: Bytes, storage: Node): (r: Reading<seq<Node>>)
    ensures r.Accepted? ==> |r.v| == |schema|
    decreases |s|, 8
  {
    StructReading(schema, s, Reset(schema, storage.kids))
  }

  // ----- Lemmas for the decoder -----

  /** A packed array receives as many items as the payload holds numbers. */
  lemma {:induction false} CountsNumbers(f: Field, s: Bytes, count: nat, room: nat)
    requires Packable(f.ltype) && NumbersReading(f, s, count, room).Some?
    ensures NumbersReading(f, s, count, room).value == count + Numbers(f, s)
    decreases |s|
  {
    if s != [] {
      var r := PlainReading(f, s);
      NumberUses(f, s, IntVal(0));
      NumbersStep(f, s, r.rest);
      CountsNumbers(f, r.rest, count + 1, if f.atype.PTR? then RoomFor(f, count, room, |s|).value else room);
    }
  }

  lemma BareUpdate(schema: seq<Field>, ns: seq<Node>, i: nat, n: Node)
    requires i < |schema| == |ns|
    ensures BareAll(schema, ns[i := n]) == BareAll(schema, ns)[i := Bare(schema[i], n)]
    ensures BareAll(schema, ns)[i] == Bare(schema[i], ns[i])
  {}

  /** Storage that has just been reset is nothing but what the decoder depends on. */
  lemma {:induction false} BareReset(schema: seq<Field>, ns: seq<Node>)
    ensures BareAll(schema, Reset(schema, ns)) == Reset(schema, ns)
    decreases schema
  {
    forall i | 0 <= i < |schema| ensures BareAll(schema, Reset(schema, ns))[i] == Reset(schema, ns)[i] {
      BareResetField(schema[i], if i < |ns| then ns[i] else EMPTY);
    }
  }

  lemma {:induction false} BareResetField(f: Field, n: Node)
    ensures Bare(f, ResetField(f, n)) == ResetField(f, n)
    decreases f
  {
    if !f.atype.PTR? && f.ltype.SUBMESSAGE? && !f.htype.REPEATED? {
      BareReset(f.sub, if n.kids == [] then [] else n.kids[0].kids);
    }
  }

  /** A submessage in a block that was just allocated is merged into its defaults. */
  lemma MergeIntoZero(sub: seq<Field>, s: Bytes)
    ensures Also(MergeReading(sub, s, BareAll(sub, Zero(sub).kids)), ()) == ItemReading(sub, s, Zero(sub))
  {
    ResetZero(sub);
    BareReset(sub, Zero(sub).kids);
  }

  lemma PointerFollows(before: nat, after: nat, stray: bool, ok: bool, rest: Bytes, f: Field, wireType: nat, s: Bytes,
                       n: Node, n': Node)
    requires f.atype.PTR?
    requires f.htype.REPEATED? ==> n.count != SIZE_MAX && !(wireType == WT_STRING && Packable(f.ltype))
    requires Follows(before, after, stray, ok, (), rest, NewItemReading(f, if f.htype.REPEATED? then n.count else 0, s))
    requires ok ==> n'.count == if f.htype.REPEATED? then n.count + 1 else 0
    ensures Follows(before, after, stray, ok, Bare(f, n'), rest, PointerReading(f, wireType, s, Bare(f, n)))
  {}

  /** A size that is not allowed is no refusal. */
  predicate Granting(before: nat, after: nat, ok: bool, dataSize: nat, arraySize: nat) {
    if Allocatable(dataSize, arraySize) then after == before + if ok then 0 else 1 else !ok && after == before
  }

  lemma NewItemRefused(before: nat, after: nat, rest: Bytes, f: Field, count: nat, s: Bytes)
    requires f.htype.REPEATED? && Granting(before, after, false, f.dataSize, count + 1)
    ensures Follows(before, after, false, false, (), rest, NewItemReading(f, count, s))
  {}

  lemma NewItemFollows(before: nat, after: nat, stray: bool, ok: bool, rest: Bytes, f: Field, count: nat, s: Bytes)
    requires f.htype.REPEATED? && Granting(before, before, true, f.dataSize, count + 1)
    requires Follows(before, after, stray, ok, (), rest, TargetReading(f, s))
    ensures Follows(before, after, stray, ok, (), rest, NewItemReading(f, count, s))
  {}

  lemma BareArray(f: Field, n: Node)
    requires !f.atype.PTR? && f.htype.REPEATED? && f.ltype.SUBMESSAGE?
    ensures Bare(f, n) == Node(0, n.count, [], n.raw)
  {}

  lemma ArrayItem(f: Field, s: Bytes, count: nat, raw: seq<Node>)
    requires raw != []
    ensures var r := ArrayReading(f, s, Node(0, count, [], raw));
            if Delimited(s).Fail? then
              ItemReading(f.sub, s, raw[0]) == Refused && r == if Harmless(f.sub, raw[0]) then Refused else Astray
            else
              r == Also(ItemReading(f.sub, s, raw[0]), Node(0, count + 1, [], raw[1..]))
  {}

  lemma ItemFollows(before: nat, after: nat, stray: bool, ok: bool, rest: Bytes, f: Field, s: Bytes, n: Node, n': Node)
    requires !f.atype.PTR? && f.htype.REPEATED? && f.ltype.SUBMESSAGE? && n.raw != []
    requires Follows(before, after, stray, ok, (), rest, ItemReading(f.sub, s, n.raw[0]))
    requires Delimited(s).Fail? ==> after == before
    requires ok ==> n'.count == n.count + 1 && n'.raw == n.raw[1..]
    ensures var astray := stray || (Delimited(s).Fail? && !Harmless(f.sub, n.raw[0]));
            Follows(before, after, astray, ok, Bare(f, n'), rest, ArrayReading(f, s, Bare(f, n)))
  {
    BareArray(f, n);
    BareArray(f, n');
    ArrayItem(f, s, n.count, n.raw);
    FollowsAlso(before, after, stray, ok, (), Node(0, n.count + 1, [], n.raw[1..]), rest,
                ItemReading(f.sub, s, n.raw[0]));
  }

  /** Of a payload it does not matter what is left unread. */
  ghost predicate FollowsAny(before: nat, after: nat, stray: bool, ok: bool, v: seq<Node>, r: Reading<seq<Node>>) {
    exists rest: Bytes :: Follows(before, after, stray, ok, v, rest, r)
  }

  lemma FollowsItem(before: nat, after: nat, stray: bool, ok: bool, v: seq<Node>, rest: Bytes, sub: seq<Field>,
                    s: Bytes, item: Node)
    requires Delimited(s).Done? && (ok ==> rest == Delimited(s).rest)
    requires FollowsAny(before, after, stray, ok, v, MessageReading(sub, Delimited(s).v, item))
    ensures Follows(before, after, stray, ok, (), rest, ItemReading(sub, s, item))
  {}

  lemma FollowsMerge(before: nat, after: nat, stray: bool, ok: bool, v: seq<Node>, rest: Bytes, sub: seq<Field>,
                     s: Bytes, ns: seq<Node>)
    requires Delimited(s).Done? && (ok ==> rest == Delimited(s).rest) && |ns| == |sub|
    requires FollowsAny(before, after, stray, ok, v, StructReading(sub, Delimited(s).v, ns))
    ensures Follows(before, after, stray, ok, v, rest, MergeReading(sub, s, ns))
  {}

  lemma FollowsAlso<T, U>(before: nat, after: nat, stray: bool, ok: bool, v: T, u: U, rest: Bytes, r: Reading<T>)
    requires Follows(before, after, stray, ok, v, rest, r)
    ensures Follows(before, after, stray, ok, u, rest, Also(r, u))
  {}

  /** The numbers of the payload were all read, or an allocation was refused. */
  ghost predicate Counted(before: nat, after: nat, ok: bool, count: nat, r: Option<nat>) {
    after >= before && if after > before then !ok else r == if ok then Some(count) else None
  }

  lemma PackedFollows(before: nat, after: nat, ok: bool, rest: Bytes, f: Field, s: Bytes, first: nat, count: nat)
    requires Delimited(s).Done? && (ok ==> rest == Delimited(s).rest)
    requires Counted(before, after, ok, count, NumbersReading(f, Delimited(s).v, first, first))
    ensures Follows(before, after, false, ok, Node(0, count, [], []), rest, PackedReading(f, s, first))
  {}

  lemma NextFollows(before: nat, after: nat, stray: bool, ok: bool, rest: Bytes, schema: seq<Field>, tag: nat,
                    wireType: nat, s: Bytes, ns: seq<Node>, n: Node, seen: set<nat>)
    requires FindTag(schema, tag) < |schema| == |ns|
    requires var i := FindTag(schema, tag);
             Follows(before, after, stray, ok, Bare(schema[i], n), rest,
                     FieldReading(schema[i], wireType, s, Bare(schema[i], ns[i])))
    ensures var i := FindTag(schema, tag);
            Follows(before, after, stray, ok, CourseOf(schema, ns[i := n], Marked(schema, i, seen)), rest,
                    NextReading(schema, tag, wireType, s, CourseOf(schema, ns, seen)))
  {
    BareUpdate(schema, ns, FindTag(schema, tag), n);
  }

  /** Where the loop over a packed payload has come to. */
  ghost predicate Counting(f: Field, payload: Bytes, first: nat, s: Bytes, count: nat, room: nat) {
    NumbersReading(f, s, count, room) == NumbersReading(f, payload, first, first)
  }

  lemma CountNext(f: Field, payload: Bytes, first: nat, s: Bytes, count: nat, room: nat, room': nat)
    requires Counting(f, payload, first, s, count, room) && s != [] && count < Limit(f)
    requires if f.atype.PTR? then RoomFor(f, count, room, |s|) == Some(room') else room' == room
    ensures var r := PlainReading(f, s);
            if r.Accepted? then Counting(f, payload, first, r.rest, count + 1, room')
            else NumbersReading(f, payload, first, first) == None
  {}

  lemma CountEnd(f: Field, payload: Bytes, first: nat, s: Bytes, count: nat, room: nat)
    requires Counting(f, payload, first, s, count, room)
    requires s == [] || count >= Limit(f) || (f.atype.PTR? && RoomFor(f, count, room, |s|).None?)
    ensures NumbersReading(f, payload, first, first) == if s == [] then Some(count) else None
  {}

  lemma CountAll(f: Field, payload: Bytes, first: nat, s: Bytes, count: nat, room: nat, refusals: nat)
    requires Counting(f, payload, first, s, count, room) && |s| == 0
    ensures Counted(refusals, refusals, true, count, NumbersReading(f, payload, first, first))
  {}

  // ----- Structures that can be received at all -----

  /** Every required field that is looked for can be received. */
  predicate Fillable(schema: seq<Field>)
    decreases schema
  {
    forall i | 0 <= i < |schema| && TrackedField(schema, i) :: FieldFillable(schema[i])
  }

  /** There is something to send that the field's decoder takes. */
  predicate FieldFillable(f: Field)
    decreases f
  {
    && (f.atype.PTR? && !StringLike(f) ==> Allocatable(f.dataSize, 1))
    && match f.ltype
       case VARINT => IntSize(f.dataSize)
       case UVARINT => IntSize(f.dataSize)
       case SVARINT => IntSize(f.dataSize)
       case STRING => f.atype.PTR? || f.dataSize >= 1
       case BYTES => f.atype.PTR? || f.dataSize >= SIZE_BYTES
       case SUBMESSAGE => Fillable(f.sub)
       case EXTENSION => false
       case _ => true
  }

  /** No other structures are accepted, whatever the input is. */
  lemma {:induction false} AcceptedFillable(schema: seq<Field>, s: Bytes, ns: seq<Node>)
    requires |ns| == |schema| && StructReading(schema, s, ns).Accepted?
    ensures Fillable(schema)
    decreases |s|, 6
  {
    var c := Course(ns, {});
    LoopFillable(schema, s, c);
    forall i | 0 <= i < |schema| && TrackedField(schema, i) ensures FieldFillable(schema[i]) {
      ReqIndexBelow(schema, i);
      assert ReqIndex(schema, i) in LoopReading(schema, s, c).v.seen;
    }
  }

  /** The required fields that were seen are fillable. */
  ghost predicate SeenFillable(schema: seq<Field>, before: set<nat>, seen: set<nat>) {
    forall i | 0 <= i < |schema| && TrackedField(schema, i) ::
      ReqIndex(schema, i) in seen ==> ReqIndex(schema, i) in before || FieldFillable(schema[i])
  }

  lemma {:induction false} LoopFillable(schema: seq<Field>, s: Bytes, c: Course)
    requires |c.ns| == |schema| && LoopReading(schema, s, c).Accepted?
    ensures SeenFillable(schema, c.seen, LoopReading(schema, s, c).v.seen)
    decreases |s|, 5
  {
    match ReadTag(s)
    case Stop(rest) =>
    case Header(tag, wireType, rest) =>
      var r := NextReading(schema, tag, wireType, rest, c);
      var i := FindTag(schema, tag);
      if i < |schema| {
        if schema[i].htype.REQUIRED? {
          ReadFillable(schema[i], wireType, rest, c.ns[i]);
        }
        MarkedFillable(schema, i, c.seen);
      }
      LoopFillable(schema, r.rest, r.v);
  }

  lemma {:induction false} MarkedFillable(schema: seq<Field>, i: nat, seen: set<nat>)
    requires i < |schema| && (schema[i].htype.REQUIRED? ==> FieldFillable(schema[i]))
    ensures SeenFillable(schema, seen, Marked(schema, i, seen))
  {
    forall j | 0 <= j < |schema| && TrackedField(schema, j) && ReqIndex(schema, j) in Marked(schema, i, seen)
      ensures ReqIndex(schema, j) in seen || FieldFillable(schema[j])
    {
      if i != j && schema[i].htype.REQUIRED? {
        BitsDiffer(schema, i, j);
      }
    }
  }

  lemma {:induction false} ReadFillable(f: Field, wireType: nat, s: Bytes, n: Node)
    requires f.htype.REQUIRED? && FieldReading(f, wireType, s, n).Accepted?
    ensures FieldFillable(f)
    decreases |s|, 3
  {
    if f.atype.PTR? {
      TargetAccepted(f, wireType, s, n);
      if f.ltype.SUBMESSAGE? {
        ItemFillable(f.sub, s, Zero(f.sub));
      } else if !StringLike(f) {
        PlainFillable(f, s);
      }
    } else {
      ValueAccepted(f, wireType, s, n);
      if f.ltype.SUBMESSAGE? {
        MergeFillable(f.sub, s, Inside(f, n));
      } else {
        PlainFillable(f, s);
      }
    }
  }

  lemma AlsoAccepted<T, U>(r: Reading<T>, u: U)
    ensures Also(r, u).Accepted? <==> r.Accepted?
  {}

  lemma TargetAccepted(f: Field, wireType: nat, s: Bytes, n: Node)
    requires f.htype.REQUIRED? && f.atype.PTR? && FieldReading(f, wireType, s, n).Accepted?
    ensures !SizeRefused(f, 0)
    ensures if f.ltype.SUBMESSAGE? then ItemReading(f.sub, s, Zero(f.sub)).Accepted?
            else StringLike(f) || PlainReading(f, s).Accepted?
  {
    assert FieldReading(f, wireType, s, n) == PointerReading(f, wireType, s, n) == Also(NewItemReading(f, 0, s), EMPTY);
    AlsoAccepted(NewItemReading(f, 0, s), EMPTY);
    assert NewItemReading(f, 0, s) == if SizeRefused(f, 0) then Refused else TargetReading(f, s);
    assert TargetReading(f, s)
           == if f.ltype.SUBMESSAGE? then ItemReading(f.sub, s, Zero(f.sub))
              else if StringLike(f) then BlockReading(f, s) else PlainReading(f, s);
  }

  lemma ValueAccepted(f: Field, wireType: nat, s: Bytes, n: Node)
    requires f.htype.REQUIRED? && !f.atype.PTR? && FieldReading(f, wireType, s, n).Accepted?
    ensures if f.ltype.SUBMESSAGE? then MergeReading(f.sub, s, Inside(f, n)).Accepted? else PlainReading(f, s).Accepted?
  {
    assert FieldReading(f, wireType, s, n) == StaticReading(f, wireType, s, n);
    AlsoAccepted(PlainReading(f, s), EMPTY);
    if f.ltype.SUBMESSAGE? {
      assert StaticReading(f, wireType, s, n).Accepted? <==> MergeReading(f.sub, s, Inside(f, n)).Accepted?;
    } else {
      assert StaticReading(f, wireType, s, n) == Also(PlainReading(f, s), EMPTY);
    }
  }

  lemma {:induction false} ItemFillable(sub: seq<Field>, s: Bytes, item: Node)
    requires ItemReading(sub, s, item).Accepted?
    ensures Fillable(sub)
    decreases |s|, 0
  {
    AcceptedFillable(sub, Delimited(s).v, Reset(sub, item.kids));
  }

  lemma {:induction false} MergeFillable(sub: seq<Field>, s: Bytes, ns: seq<Node>)
    requires |ns| == |sub| && MergeReading(sub, s, ns).Accepted?
    ensures Fillable(sub)
    decreases |s|, 0
  {
    AcceptedFillable(sub, Delimited(s).v, ns);
  }

  lemma {:induction false} PlainFillable(f: Field, s: Bytes)
    requires !f.ltype.SUBMESSAGE? && PlainReading(f, s).Accepted?
    ensures !f.ltype.EXTENSION? && (f.ltype.VARINT? || f.ltype.UVARINT? || f.ltype.SVARINT? ==> IntSize(f.dataSize))
    ensures (f.ltype.STRING? ==> f.dataSize >= 1) && (f.ltype.BYTES? ==> f.dataSize >= SIZE_BYTES)
  {
    assert DecVal(f, s, IntVal(0)).Done?;
  }

  // ----- Storage on which nothing goes astray -----

  /** The items of static arrays that an input can get to are harmless: the first one, and if items can be received at
      all, the others. */
  predicate ArraysClear(schema: seq<Field>, ns: seq<Node>)
    decreases schema, 0
  {
    |ns| == |schema| && forall i | 0 <= i < |schema| :: ArrayClear(schema[i], ns[i])
  }

  predicate ArrayClear(f: Field, n: Node)
    decreases f, 2
  {
    if f.atype.PTR? || !f.ltype.SUBMESSAGE? then true
    else if f.htype.REPEATED? then ItemsClear(f, n.raw)
    else ArraysClear(f.sub, Inside(f, n))
  }

  predicate ItemsClear(f: Field, raw: seq<Node>)
    decreases f, 1
  {
    forall k | 0 <= k < |raw| :: k == 0 || Fillable(f.sub) ==> ItemClear(f, raw[k])
  }

  predicate ItemClear(f: Field, item: Node)
    decreases f, 0
  {
    Harmless(f.sub, item) && ArraysClear(f.sub, Reset(f.sub, item.kids))
  }

  lemma {:induction false} ZeroClear(schema: seq<Field>)
    ensures Harmless(schema, Zero(schema)) && ArraysClear(schema, Zero(schema).kids)
    decreases schema
  {
    forall i | 0 <= i < |schema|
      ensures ArrayClear(schema[i], Zero(schema).kids[i]) && FieldHarmless(schema[i], Zero(schema).kids[i])
    {
      ZeroClear(schema[i].sub);
      ResetZero(schema[i].sub);
    }
  }

  /** Then no input leads astray, and what is still to come stays clear. */
  lemma {:induction false} MessageClear(schema: seq<Field>, s: Bytes, storage: Node)
    requires ArraysClear(schema, Reset(schema, storage.kids))
    ensures !MessageReading(schema, s, storage).Astray?
    decreases |s|, 7
  {
    StructClear(schema, s, Reset(schema, storage.kids));
  }

  lemma {:induction false} StructClear(schema: seq<Field>, s: Bytes, ns: seq<Node>)
    requires ArraysClear(schema, ns)
    ensures var r := StructReading(schema, s, ns); !r.Astray? && (r.Accepted? ==> ArraysClear(schema, r.v))
    decreases |s|, 6
  {
    LoopClear(schema, s, Course(ns, {}));
  }

  lemma {:induction false} LoopClear(schema: seq<Field>, s: Bytes, c: Course)
    requires ArraysClear(schema, c.ns)
    ensures var r := LoopReading(schema, s, c); !r.Astray? && (r.Accepted? ==> ArraysClear(schema, r.v.ns))
    decreases |s|, 5
  {
    match ReadTag(s)
    case TagError =>
    case Stop(rest) =>
    case Header(tag, wireType, rest) =>
      var i := FindTag(schema, tag);
      if i < |schema| {
        FieldClear(schema[i], wireType, rest, c.ns[i]);
      }
      var r := NextReading(schema, tag, wireType, rest, c);
      if r.Accepted? {
        LoopClear(schema, r.rest, r.v);
      }
  }

  lemma {:induction false} FieldClear(f: Field, wireType: nat, s: Bytes, n: Node)
    requires ArrayClear(f, n)
    ensures var r := FieldReading(f, wireType, s, n); !r.Astray? && (r.Accepted? ==> ArrayClear(f, r.v))
    decreases |s|, 3
  {
    if f.atype.PTR? {
      if f.ltype.SUBMESSAGE? {
        ZeroClear(f.sub);
        ResetZero(f.sub);
        ItemAstray(f.sub, s, Zero(f.sub));
      }
      assert !TargetReading(f, s).Astray?;
      assert !NewItemReading(f, n.count, s).Astray? && !NewItemReading(f, 0, s).Astray?;
    } else if f.ltype.SUBMESSAGE? && f.htype.REPEATED? {
      NextItemClear(f, s, n);
    } else if f.ltype.SUBMESSAGE? {
      MergeClear(f, s, n);
    }
  }

  lemma {:induction false} NextItemClear(f: Field, s: Bytes, n: Node)
    requires f.ltype.SUBMESSAGE? && ItemsClear(f, n.raw)
    ensures var r := ArrayReading(f, s, n); !r.Astray? && (r.Accepted? ==> ItemsClear(f, r.v.raw))
    decreases |s|, 2
  {
    if n.raw != [] {
      assert ItemClear(f, n.raw[0]);
      ItemAstray(f.sub, s, n.raw[0]);
      if ItemReading(f.sub, s, n.raw[0]).Accepted? {
        ItemFillable(f.sub, s, n.raw[0]);
      }
    }
  }

  lemma {:induction false} MergeClear(f: Field, s: Bytes, n: Node)
    requires ArraysClear(f.sub, Inside(f, n))
    ensures var r := MergeReading(f.sub, s, Inside(f, n));
            !r.Astray? && (r.Accepted? ==> ArraysClear(f.sub, Inside(f, Node(0, 0, [Node(0, 0, r.v, [])], []))))
    decreases |s|, 2
  {
    var d := Delimited(s);
    if d.Done? {
      StructClear(f.sub, d.v, Inside(f, n));
    }
  }

  lemma {:induction false} ItemAstray(sub: seq<Field>, s: Bytes, item: Node)
    requires ArraysClear(sub, Reset(sub, item.kids))
    ensures !ItemReading(sub, s, item).Astray?
    decreases |s|, 0
  {
    var d := Delimited(s);
    if d.Done? {
      MessageClear(sub, d.v, item);
    }
  }
}
