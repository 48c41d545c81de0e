/** pb_decode.c with PB_ENABLE_MALLOC: which blocks a decoded structure owns.  `rest` stands for the blocks
    that belong to others, and every contract says that the live ones are those and the structure's own.  Unless an
    allocation is refused, the decoders do what module HeapReader says of the bytes. */
module HeapDecoder {
  import opened Config
  import opened Wrappers
  import opened Schema
  import opened Varint
  import opened Streams
  import opened WireReader
  import opened FieldIterator
  import opened RequiredFields
  import opened Presence
  import opened Decoder
  import opened Allocator
  import opened Ownership
  import opened HeapReader

  /** The stream after a read: it never gains bytes, and a successful read moves only within them. */
  twostate predicate Moved(stream: IStream, ok: bool)
    reads stream
  {
    && stream.Valid() && stream.End() <= old(stream.End())
    && (ok ==> stream.End() == old(stream.End()) && stream.bytesLeft <= old(stream.bytesLeft))
  }

  /** What a call leaves in a field's storage: with success it is in order, otherwise pb_release can walk it; and it
      owns its blocks, unless something has gone astray. */
  ghost predicate Kept(heap: Heap, ok: bool, f: Field, n: Node, rest: multiset<nat>)
    reads heap
  {
    heap.Holds(rest + Blocks(n)) && (heap.stray || Storage(After(ok), f, n))
  }

  ghost predicate KeptAll(heap: Heap, ok: bool, schema: seq<Field>, ns: seq<Node>, rest: multiset<nat>)
    reads heap
  {
    heap.Holds(rest + KidsBlocks(ns)) && (heap.stray || Members(After(ok), schema, ns))
  }

  /** The same after a call that may have asked for memory. */
  twostate predicate Tried(stream: IStream, heap: Heap, ok: bool)
    reads stream, heap
  {
    Moved(stream, ok) && heap.attempts >= old(heap.attempts)
  }

  /** A field in place takes no memory when nothing is left to read. */
  twostate predicate Idle(stream: IStream, heap: Heap, f: Field)
    reads stream, heap
  {
    !f.atype.PTR? && old(stream.bytesLeft) == 0 ==> heap.attempts == old(heap.attempts)
  }

  predicate NoPointers(schema: seq<Field>) {
    forall i | 0 <= i < |schema| :: !schema[i].atype.PTR?
  }

  /** Nor does a message that is a header at most. */
  twostate predicate IdleMessage(stream: IStream, heap: Heap, schema: seq<Field>)
    reads stream, heap
  {
    NoPointers(schema) && old(stream.bytesLeft) <= 1 ==> heap.attempts == old(heap.attempts)
  }

  method HeapFields(schema: seq<Field>) returns (iter: FieldIter, more: bool)
    requires HeapSchema(schema)
    ensures fresh(iter) && iter.Valid() && iter.start == schema
    ensures more == (schema != []) && iter.pos == 0
  {
    forall i | 0 <= i < |schema| ensures schema[i].tag >= 1 {
      assert HeapField(schema[i]);
    }
    iter := new FieldIter(schema, 0, LayoutOf(schema));
    more := iter.Begin();
  }

  // ----- Releasing -----

  /** pb_release: afterwards every pointer of the structure is null, every array without a block is empty, and its
      blocks are free. */
  method PbRelease(heap: Heap, schema: seq<Field>, s: Node, ghost rest: multiset<nat>) returns (s': Node)
    requires HeapSchema(schema) && Struct(WALKABLE, schema, s) && heap.Owns(rest + Blocks(s))
    modifies heap`live, heap`log
    ensures heap.Owns(rest)
    ensures Struct(OWNED, schema, s') && AllNull(s')
    decreases schema, 2
  {
    NoPointer(s);
    var kids := ReleaseFields(heap, schema, s.kids, rest);
    s' := Node(0, 0, kids, []);
  }

  method ReleaseFields(heap: Heap, schema: seq<Field>, ns: seq<Node>, ghost rest: multiset<nat>)
    returns (ns': seq<Node>)
    requires HeapSchema(schema) && FieldsReleased(schema, ns, 0) && heap.Owns(rest + KidsBlocks(ns))
    modifies heap`live, heap`log
    ensures heap.Owns(rest) && FieldsReleased(schema, ns', |schema|)
    decreases schema, 1
  {
    ns' := ns;
    var iter, more := HeapFields(schema);
    ghost var i: nat := 0;
    while more
      invariant iter.Valid() && iter.start == schema && fresh(iter)
      invariant if more then i == iter.pos < |schema| else i == |schema|
      invariant FieldsReleased(schema, ns', i) && heap.Owns(rest + KidsBlocks(ns'))
      decreases |schema| - i
    {
      ns' := ReleaseAt(heap, schema, ns', iter.pos, rest);
      i := i + 1;
      more := iter.Next();
    }
    NullKids(ns');
    Unit(rest);
  }

  method ReleaseAt(heap: Heap, schema: seq<Field>, ns: seq<Node>, i: nat, ghost rest: multiset<nat>)
    returns (ns': seq<Node>)
    requires HeapSchema(schema) && i < |schema| && FieldsReleased(schema, ns, i)
    requires heap.Owns(rest + KidsBlocks(ns))
    modifies heap`live, heap`log
    ensures FieldsReleased(schema, ns', i + 1) && heap.Owns(rest + KidsBlocks(ns'))
    decreases schema, 0
  {
    assert HeapField(schema[i]) && Storage(WALKABLE, schema[i], ns[i]);
    Regroup(rest, ns, i, ns[i]);
    var n := ReleaseSingleField(heap, schema[i], ns[i], rest + Others(ns, i));
    Regroup(rest, ns, i, n);
    FieldsReleasedNext(schema, ns, i, n);
    ns' := ns[i := n];
  }

  /** pb_release_single_field. */
  method ReleaseSingleField(heap: Heap, f: Field, n: Node, ghost rest: multiset<nat>) returns (n': Node)
    requires HeapField(f) && Storage(WALKABLE, f, n) && heap.Owns(rest + Blocks(n))
    modifies heap`live, heap`log
    ensures heap.Owns(rest)
    ensures Storage(OWNED, f, n') && AllNull(n')
    ensures if f.atype.PTR? then n' == EMPTY else n'.count == n.count && n'.raw == n.raw
    decreases f, 2
  {
    Opened(n, rest);
    var kids := ReleaseContents(heap, f, n, rest + Own(n.ptr));
    if f.atype.PTR? {
      heap.Free(n.ptr, rest);
      n' := EMPTY;
      NullPointer(f);
    } else {
      n' := n.(kids := kids);
      EmptiedStatic(f, n, kids, rest);
    }
  }

  lemma EmptiedStatic(f: Field, n: Node, kids: seq<Node>, rest: multiset<nat>)
    requires !f.atype.PTR? && Storage(WALKABLE, f, n) && |kids| == |n.kids|
    requires Items(OWNED, f, kids) && Cleared(kids, |kids|)
    ensures Storage(OWNED, f, n.(kids := kids)) && AllNull(n.(kids := kids)) && rest + Own(n.ptr) == rest
  {
    Unit(rest);
  }

  /** The first half of pb_release_single_field: what is inside submessages and arrays of strings. */
  method ReleaseContents(heap: Heap, f: Field, n: Node, ghost rest: multiset<nat>) returns (kids: seq<Node>)
    requires HeapField(f) && Storage(WALKABLE, f, n) && heap.Owns(rest + KidsBlocks(n.kids))
    modifies heap`live, heap`log
    ensures heap.Owns(rest)
    ensures |kids| == |n.kids| && Items(OWNED, f, kids) && Cleared(kids, |kids|)
    decreases f, 1
  {
    kids := n.kids;
    if f.ltype.SUBMESSAGE? {
      var count := 1;
      if f.htype.REPEATED? {
        count := n.count;
        if !f.atype.PTR? && count > f.arraySize {
          count := f.arraySize;
        }
      }
      if !f.atype.PTR? || n.ptr != 0 {
        kids := ReleaseItems(heap, f, kids, count, rest);
        return;
      }
    } else if f.atype.PTR? && f.htype.REPEATED? && StringLike(f) {
      kids := ReleaseStrings(heap, f, n.ptr, kids, n.count, rest);
      return;
    }
    assert kids == [];
    Unit(rest);
  }

  method ReleaseItems(heap: Heap, f: Field, ns: seq<Node>, count: nat, ghost rest: multiset<nat>)
    returns (ns': seq<Node>)
    requires HeapField(f) && f.ltype.SUBMESSAGE? && Items(WALKABLE, f, ns) && count == |ns|
    requires heap.Owns(rest + KidsBlocks(ns))
    modifies heap`live, heap`log
    ensures heap.Owns(rest)
    ensures |ns'| == |ns| && Items(OWNED, f, ns') && Cleared(ns', |ns'|)
    decreases f, 0
  {
    ns' := ns;
    for k := 0 to count
      invariant |ns'| == |ns| && ItemsReleased(f, ns', k)
      invariant heap.Owns(rest + KidsBlocks(ns'))
    {
      Regroup(rest, ns', k, ns'[k]);
      assert ItemOk(WALKABLE, f, ns'[k]);
      var s := PbRelease(heap, f.sub, ns'[k], rest + Others(ns', k));
      Regroup(rest, ns', k, s);
      ItemsReleasedNext(f, ns', k, s);
      ns' := ns'[k := s];
    }
    NullKids(ns');
    Unit(rest);
  }

  /** The loop over an array of strings, which reads through its pointer without looking at it: unless the array is
      empty, that must not be null. */
  method ReleaseStrings(heap: Heap, f: Field, p: nat, ns: seq<Node>, count: nat, ghost rest: multiset<nat>)
    returns (ns': seq<Node>)
    requires p != 0 || count == 0
    requires StringLike(f) && Items(WALKABLE, f, ns) && count == |ns| && heap.Owns(rest + KidsBlocks(ns))
    modifies heap`live, heap`log
    ensures heap.Owns(rest)
    ensures |ns'| == |ns| && Items(OWNED, f, ns') && Cleared(ns', |ns'|)
  {
    ns' := ns;
    for k := 0 to count
      invariant |ns'| == |ns| && ItemsReleased(f, ns', k)
      invariant heap.Owns(rest + KidsBlocks(ns'))
    {
      Regroup(rest, ns', k, ns'[k]);
      StringAt(f, ns', k);
      heap.Free(ns'[k].ptr, rest + Others(ns', k));
      Regroup(rest, ns', k, EMPTY);
      ItemsReleasedNext(f, ns', k, EMPTY);
      ns' := ns'[k := EMPTY];
    }
    NullKids(ns');
    Unit(rest);
  }

  lemma StringAt(f: Field, ns: seq<Node>, k: nat)
    requires StringLike(f) && ItemsReleased(f, ns, k) && k < |ns|
    ensures Blocks(ns[k]) == Own(ns[k].ptr) && ItemOk(OWNED, f, EMPTY) && AllNull(EMPTY)
  {
    assert ItemOk(WALKABLE, f, ns[k]);
    Leaf(ns[k].ptr);
  }

  // ----- Defaults -----

  /** pb_message_set_to_defaults, of any storage: pointers are overwritten, not released, and the items of static arrays
      stay what they were. */
  method PbMessageSetToDefaults(schema: seq<Field>, s: Node) returns (s': Node)
    requires HeapSchema(schema) && Struct(MEMORY, schema, s)
    ensures s' == Node(0, 0, Reset(schema, s.kids), []) && Struct(OWNED, schema, s') && AllNull(s')
    decreases schema
  {
    var kids := s.kids;
    var iter, more := HeapFields(schema);
    ghost var i: nat := 0;
    while more
      invariant iter.Valid() && iter.start == schema && fresh(iter)
      invariant if more then i == iter.pos < |schema| else i == |schema|
      invariant ResetUpTo(schema, s.kids, kids, i)
      decreases |schema| - i
    {
      MembersAt(MEMORY, schema, s.kids, i);
      var n := PbFieldSetToDefault(schema[iter.pos], kids[iter.pos]);
      ResetNext(schema, s.kids, kids, i, n);
      kids := kids[iter.pos := n];
      i := i + 1;
      more := iter.Next();
    }
    assert kids == Reset(schema, s.kids);
    ResetIsStruct(schema, s);
    s' := Node(0, 0, kids, []);
  }

  /** The first `n` fields have been reset. */
  ghost predicate ResetUpTo(schema: seq<Field>, before: seq<Node>, ns: seq<Node>, n: nat) {
    |before| == |schema| == |ns|
    && forall i | 0 <= i < |schema| :: ns[i] == if i < n then ResetField(schema[i], before[i]) else before[i]
  }

  lemma ResetNext(schema: seq<Field>, before: seq<Node>, ns: seq<Node>, i: nat, n: Node)
    requires ResetUpTo(schema, before, ns, i) && i < |schema| && n == ResetField(schema[i], before[i])
    ensures ResetUpTo(schema, before, ns[i := n], i + 1)
  {}

  /** pb_field_set_to_default. */
  method PbFieldSetToDefault(f: Field, n: Node) returns (n': Node)
    requires HeapField(f) && Storage(MEMORY, f, n)
    ensures n' == ResetField(f, n)
    decreases f
  {
    if f.atype.PTR? {
      n' := EMPTY;
    } else if f.htype.REPEATED? {
      // Only the count: the items keep what they held.
      n' := Node(0, 0, [], n.kids + n.raw);
    } else if f.ltype.SUBMESSAGE? {
      assert ItemOk(MEMORY, f, n.kids[0]);
      var s := PbMessageSetToDefaults(f.sub, n.kids[0]);
      n' := Node(0, 0, [s], []);
    } else {
      n' := EMPTY;
    }
  }

  /** initialize_pointer_field for a submessage. */
  method InitializeItem(heap: Heap, p: nat, at: nat, f: Field) returns (s: Node)
    requires HeapField(f) && p in heap.live && p in heap.sizes && at + f.dataSize <= heap.sizes[p]
    ensures s == Zero(f.sub) && Struct(OWNED, f.sub, s) && AllNull(s)
  {
    heap.Store(p, at, f.dataSize);
    ZeroIsStruct(f.sub);
    StructRelax(OWNED, MEMORY, f.sub, Zero(f.sub));
    ResetZero(f.sub);
    s := PbMessageSetToDefaults(f.sub, Zero(f.sub));
  }

  // ----- Items -----

  /** PB_BYTES_ARRAY_T_ALLOCSIZE, in size_t arithmetic. */
  function BytesAllocSize(size: nat): (a: nat)
    requires size <= SIZE_MAX
    ensures a >= size ==> a == size + SIZE_BYTES
  {
    if size + SIZE_BYTES > SIZE_T_MAX then size + SIZE_BYTES - SIZE_T_MAX - 1 else size + SIZE_BYTES
  }

  /** pb_decode_varint32 and pb_read, as far as the lengths go. */
  method ReadSize(stream: IStream) returns (ok: bool, size: nat)
    requires stream.Valid()
    modifies stream
    ensures stream.Valid() && stream.End() == old(stream.End()) && (ok ==> stream.bytesLeft < old(stream.bytesLeft))
    ensures Outcome(ok, size, stream.Rest()) == Varint32(old(stream.Rest()))
    ensures |stream.Rest()| == stream.bytesLeft
  {
    ok, size := stream.PbDecodeVarint32();
    assert |stream.Rest()| == stream.bytesLeft && old(|stream.Rest()| == stream.bytesLeft);
  }

  method ReadBytes(stream: IStream, size: nat) returns (ok: bool)
    requires stream.Valid()
    modifies stream
    ensures stream.Valid() && stream.End() == old(stream.End()) && ok == (size <= old(|stream.Rest()|))
    ensures ok ==> stream.bytesLeft + size == old(stream.bytesLeft) && stream.Rest() == old(stream.Rest()[size..])
  {
    var data;
    ok, data := stream.PbRead(size);
    assert |stream.Rest()| == stream.bytesLeft && old(|stream.Rest()| == stream.bytesLeft);
  }

  /** pb_dec_bytes into a block of its own, which replaces the block that `p` owned.  What it takes is bounded
      by what was read. */
  method PbDecBytesBlock(stream: IStream, heap: Heap, f: Field, p: nat, ghost rest: multiset<nat>)
    returns (ok: bool, q: nat)
    requires stream.Valid() && f.ltype.BYTES? && heap.Owns(rest + Own(p))
    modifies stream, heap
    ensures Tried(stream, heap, ok) && heap.Owns(rest + Own(q)) && (ok ==> q != 0)
    ensures Follows(old(heap.refusals), heap.refusals, heap.stray, ok, (), stream.Rest(),
                    BlockReading(f, old(stream.Rest())))
    ensures ok ==> q in heap.sizes && heap.sizes[q] < SIZE_BYTES + (old(stream.bytesLeft) - stream.bytesLeft)
  {
    var size;
    q := p;
    ok, size := ReadSize(stream);
    if !ok {
      return;
    }
    if size > SIZE_MAX {
      return false, q;
    }
    var allocSize := BytesAllocSize(size);
    if size > allocSize {
      return false, q;
    }
    ok, q := AllocateField(heap, p, allocSize, 1, rest);
    assert Span(1, allocSize) == allocSize;
    if !ok {
      return;
    }
    heap.Store(q, 0, SIZE_BYTES);
    ok := ReadBytes(stream, size);
    if ok {
      heap.Store(q, SIZE_BYTES, size);
    }
  }

  lemma NoWrap(size: nat)
    requires (size + 1) % 0x1_0000_0000 >= size
    ensures (size + 1) % 0x1_0000_0000 == size + 1
  {}

  /** pb_dec_string into a block of its own. */
  method PbDecStringBlock(stream: IStream, heap: Heap, f: Field, p: nat, ghost rest: multiset<nat>)
    returns (ok: bool, q: nat)
    requires stream.Valid() && f.ltype.STRING? && heap.Owns(rest + Own(p))
    modifies stream, heap
    ensures Tried(stream, heap, ok) && heap.Owns(rest + Own(q)) && (ok ==> q != 0)
    ensures Follows(old(heap.refusals), heap.refusals, heap.stray, ok, (), stream.Rest(),
                    BlockReading(f, old(stream.Rest())))
    ensures ok ==> q in heap.sizes && heap.sizes[q] <= old(stream.bytesLeft) - stream.bytesLeft
  {
    var size;
    q := p;
    ok, size := ReadSize(stream);
    if !ok {
      return;
    }
    var allocSize := (size + 1) % 0x1_0000_0000;
    if allocSize < size {
      return false, q;
    }
    NoWrap(size);
    ok, q := AllocateField(heap, p, allocSize, 1, rest);
    assert Span(1, allocSize) == allocSize;
    if !ok {
      return;
    }
    ok := ReadBytes(stream, size);
    if ok {
      heap.Store(q, 0, size);
    }
    // The terminator, even after a failed read.
    heap.Store(q, size, 1);
  }

  /** An item that owns nothing. */
  method ReadPlain(stream: IStream, f: Field) returns (ok: bool)
    requires stream.Valid() && HeapField(f) && !f.ltype.SUBMESSAGE?
    modifies stream
    ensures Moved(stream, ok)
    ensures PlainReading(f, old(stream.Rest())) == if ok then Accepted((), stream.Rest()) else Refused
  {
    var v;
    ok, v := DecodePlain(stream, f);
    assert |stream.Rest()| == stream.bytesLeft && old(|stream.Rest()| == stream.bytesLeft);
  }

  /** One number of a packed payload. */
  method ReadNumber(stream: IStream, f: Field) returns (ok: bool)
    requires stream.Valid() && Packable(f.ltype) && stream.bytesLeft > 0
    modifies stream
    ensures stream.Valid() && stream.End() == old(stream.End()) && (ok ==> stream.bytesLeft < old(stream.bytesLeft))
    ensures PlainReading(f, old(stream.Rest())) == if ok then Accepted((), stream.Rest()) else Refused
  {
    var n;
    ok, n := DecodeNumber(stream, f);
    assert |stream.Rest()| == stream.bytesLeft && old(|stream.Rest()| == stream.bytesLeft);
  }

  /** A string or bytes item behind a pointer. */
  method DecodeBlock(stream: IStream, heap: Heap, f: Field, p: nat, ghost rest: multiset<nat>)
    returns (ok: bool, q: nat)
    requires stream.Valid() && StringLike(f) && heap.Owns(rest + Own(p))
    modifies stream, heap
    ensures Tried(stream, heap, ok) && heap.Owns(rest + Own(q))
    ensures Follows(old(heap.refusals), heap.refusals, heap.stray, ok, (), stream.Rest(),
                    BlockReading(f, old(stream.Rest())))
    ensures ok ==> q != 0
  {
    if f.ltype.STRING? {
      ok, q := PbDecStringBlock(stream, heap, f, p, rest);
    } else {
      ok, q := PbDecBytesBlock(stream, heap, f, p, rest);
    }
  }

  /** pb_dec_submessage.  An array item is decoded from its defaults, whatever its memory held, and after a failure it
      owns nothing, unless its length could not even be read: then it is left as it is.  What other submessages hold
      is merged with. */
  method PbDecSubmessage(stream: IStream, heap: Heap, f: Field, s: Node, ghost rest: multiset<nat>)
    returns (ok: bool, s': Node)
    requires stream.Valid() && HeapSchema(f.sub) && Struct(if f.htype.REPEATED? then MEMORY else OWNED, f.sub, s)
    requires heap.Owns(if f.htype.REPEATED? then rest else rest + Blocks(s))
    modifies stream, heap
    ensures Tried(stream, heap, ok) && heap.Holds(if f.htype.REPEATED? && !ok then rest else rest + Blocks(s'))
    ensures Delimited(old(stream.Rest())).Fail? ==> !ok && s' == s && unchanged(heap)
    ensures Delimited(old(stream.Rest())).Done? ==> heap.stray || Struct(After(ok), f.sub, s')
    ensures f.htype.REPEATED? && !ok && Delimited(old(stream.Rest())).Done? ==> heap.stray || AllNull(s')
    ensures f.htype.REPEATED? ==> Follows(old(heap.refusals), heap.refusals, heap.stray, ok, (), stream.Rest(),
                                          ItemReading(f.sub, old(stream.Rest()), s))
    ensures !f.htype.REPEATED? ==>
              Follows(old(heap.refusals), heap.refusals, heap.stray, ok, BareAll(f.sub, s'.kids), stream.Rest(),
                      MergeReading(f.sub, old(stream.Rest()), BareAll(f.sub, s.kids)))
    ensures old(stream.bytesLeft) == 0 ==> unchanged(heap)
    decreases stream.bytesLeft, 0
  {
    var substream;
    s' := s;
    NothingDelimited(stream.Rest());
    ghost var bytes := stream.Rest();
    ok, substream := OpenSubstream(stream);
    if !ok {
      return;
    }
    ghost var before := heap.refusals;
    var status;
    status, s' := DecodeInner(substream, heap, f, s, rest);
    ok := stream.PbCloseStringSubstream(substream);
    ok := ok && status;
    if f.htype.REPEATED? {
      FollowsItem(before, heap.refusals, heap.stray, ok, BareAll(f.sub, s'.kids), stream.Rest(), f.sub, bytes, s);
    } else {
      FollowsMerge(before, heap.refusals, heap.stray, ok, BareAll(f.sub, s'.kids), stream.Rest(), f.sub, bytes,
                   BareAll(f.sub, s.kids));
    }
  }

  /** The choice between pb_decode and pb_decode_noinit. */
  method DecodeInner(stream: IStream, heap: Heap, f: Field, s: Node, ghost rest: multiset<nat>)
    returns (ok: bool, s': Node)
    requires stream.Valid() && HeapSchema(f.sub) && Struct(if f.htype.REPEATED? then MEMORY else OWNED, f.sub, s)
    requires heap.Owns(if f.htype.REPEATED? then rest else rest + Blocks(s))
    modifies stream, heap
    ensures Tried(stream, heap, ok) && heap.Holds(if f.htype.REPEATED? && !ok then rest else rest + Blocks(s'))
    ensures heap.stray || Struct(After(ok), f.sub, s')
    ensures f.htype.REPEATED? && !ok ==> heap.stray || AllNull(s')
    ensures FollowsAny(old(heap.refusals), heap.refusals, heap.stray, ok, BareAll(f.sub, s'.kids),
                       if f.htype.REPEATED? then MessageReading(f.sub, old(stream.Rest()), s)
                       else StructReading(f.sub, old(stream.Rest()), BareAll(f.sub, s.kids)))
    decreases stream.bytesLeft, 14
  {
    if f.htype.REPEATED? {
      ok, s' := PbDecode(stream, heap, f.sub, s, rest);
      if !heap.stray {
        StructRelax(OWNED, After(ok), f.sub, s');
      }
    } else {
      ok, s' := PbDecodeNoinit(stream, heap, f.sub, s, rest);
    }
  }

  lemma NothingDelimited(s: Bytes)
    ensures |s| == 0 ==> Delimited(s).Fail?
  {}

  /** pb_make_string_substream: the payload, and the lengths. */
  method OpenSubstream(stream: IStream) returns (ok: bool, sub: IStream)
    requires stream.Valid()
    modifies stream
    ensures ok ==> fresh(sub) && sub.Valid() && sub.buf == stream.buf
    ensures ok == Delimited(old(stream.Rest())).Done?
    ensures ok ==> sub.Rest() == Delimited(old(stream.Rest())).v
    ensures ok ==> sub.End() + stream.bytesLeft <= |sub.buf|
    ensures ok ==> sub.buf[sub.End()..sub.End() + stream.bytesLeft] == Delimited(old(stream.Rest())).rest
    ensures ok ==> sub.End() + stream.bytesLeft == old(stream.End())
    ensures ok ==> stream.bytesLeft + sub.bytesLeft < old(stream.bytesLeft)
    ensures stream.Valid() && stream.End() <= old(stream.End())
  {
    ok, sub := stream.PbMakeStringSubstream();
    assert ok ==> |sub.Rest()| == sub.bytesLeft && old(|stream.Rest()| == stream.bytesLeft);
  }

  // ----- Fields -----

  /** What a successful call leaves in the field: a pointer that is set, or one item more; packed items are counted
      where they are decoded. */
  predicate Received(f: Field, wireType: nat, n: Node, n': Node) {
    if f.htype.REPEATED? then (wireType == WT_STRING && Packable(f.ltype)) || n'.count == n.count + 1
    else f.atype.PTR? ==> n'.ptr != 0
  }

  /** decode_static_field. */
  method DecodeStaticField(stream: IStream, heap: Heap, f: Field, wireType: nat, n: Node, ghost rest: multiset<nat>)
    returns (ok: bool, n': Node)
    requires stream.Valid() && HeapField(f) && !f.atype.PTR? && Storage(OWNED, f, n) && heap.Owns(rest + Blocks(n))
    modifies stream, heap
    ensures Tried(stream, heap, ok) && Kept(heap, ok, f, n', rest) && Idle(stream, heap, f)
    ensures Follows(old(heap.refusals), heap.refusals, heap.stray, ok, Bare(f, n'), stream.Rest(),
                    StaticReading(f, wireType, old(stream.Rest()), Bare(f, n)))
    ensures ok ==> Received(f, wireType, n, n')
    decreases stream.bytesLeft, 2
  {
    n' := n;
    if f.htype.REPEATED? && wireType == WT_STRING && Packable(f.ltype) {
      var count;
      ok, count := DecodePackedStatic(stream, f, n.count);
      n' := n.(count := count);
      StaticPlain(f, n, count, rest);
    } else if !f.ltype.SUBMESSAGE? {
      if f.htype.REPEATED? {
        n' := n.(count := n.count + 1);
        StaticPlain(f, n, n.count + 1, rest);
        if n.count >= f.arraySize {
          return false, n';
        }
      }
      StaticPlain(f, n, n.count, rest);
      ok := ReadPlain(stream, f);
    } else if f.htype.REPEATED? {
      ok, n' := DecodeStaticItem(stream, heap, f, n, rest);
    } else {
      ok, n' := DecodeStaticStruct(stream, heap, f, n, rest);
    }
  }

  /** Counting the items of an array that owns nothing. */
  lemma StaticPlain(f: Field, n: Node, count: nat, rest: multiset<nat>)
    requires !f.atype.PTR? && !f.ltype.SUBMESSAGE? && Storage(OWNED, f, n) && (f.htype.REPEATED? || count == n.count)
    ensures Storage(OWNED, f, n.(count := count)) && Storage(WALKABLE, f, n.(count := count))
    ensures Blocks(n.(count := count)) == Blocks(n)
  {}

  /** decode_static_field for a submessage that is not in an array. */
  method DecodeStaticStruct(stream: IStream, heap: Heap, f: Field, n: Node, ghost rest: multiset<nat>)
    returns (ok: bool, n': Node)
    requires stream.Valid() && HeapField(f) && !f.atype.PTR? && !f.htype.REPEATED? && f.ltype.SUBMESSAGE?
    requires Storage(OWNED, f, n) && heap.Owns(rest + Blocks(n))
    modifies stream, heap
    ensures Tried(stream, heap, ok) && Kept(heap, ok, f, n', rest) && Idle(stream, heap, f)
    ensures n' == Node(0, 0, n'.kids, []) && |n'.kids| == 1 && |n.kids| == 1
    ensures Follows(old(heap.refusals), heap.refusals, heap.stray, ok, BareAll(f.sub, n'.kids[0].kids), stream.Rest(),
                    MergeReading(f.sub, old(stream.Rest()), BareAll(f.sub, n.kids[0].kids)))
    decreases stream.bytesLeft, 1
  {
    StaticStruct(f, n, rest);
    var s;
    ok, s := PbDecSubmessage(stream, heap, f, n.kids[0], rest);
    n' := Node(0, 0, [s], []);
    StructRelax(OWNED, WALKABLE, f.sub, n.kids[0]);
    StaticStructBack(After(ok), f, s, rest);
  }

  /** decode_static_field for a submessage in an array: it is counted before it is initialized.  If its length cannot
      be read, the structure is astray exactly if the memory of that item is not harmless. */
  method DecodeStaticItem(stream: IStream, heap: Heap, f: Field, n: Node, ghost rest: multiset<nat>)
    returns (ok: bool, n': Node)
    requires stream.Valid() && HeapField(f) && f.ltype.SUBMESSAGE? && f.htype.REPEATED? && !f.atype.PTR?
    requires Storage(OWNED, f, n) && heap.Owns(rest + Blocks(n))
    modifies stream, heap
    ensures Tried(stream, heap, ok) && Kept(heap, ok, f, n', rest) && Idle(stream, heap, f)
    ensures Follows(old(heap.refusals), heap.refusals, heap.stray, ok, Bare(f, n'), stream.Rest(),
                    ArrayReading(f, old(stream.Rest()), Bare(f, n)))
    ensures n'.count == n.count + 1 && (n.raw == [] <==> n.count >= f.arraySize)
    ensures n.raw == [] || Delimited(old(stream.Rest())).Fail? ==> !ok && n' == CountOne(n)
    ensures n.raw != [] && Delimited(old(stream.Rest())).Fail? ==>
              && (heap.stray <==> !Harmless(f.sub, n.raw[0]))
              && (Blocks(n') == Blocks(n) <==> AllNull(n.raw[0]))
    decreases stream.bytesLeft, 1
  {
    CountedItem(f, n);
    n' := CountOne(n);
    if n.raw == [] {
      return false, n';
    }
    ghost var before, bytes := heap.refusals, stream.Rest();
    var s;
    ok, s := PbDecSubmessage(stream, heap, f, n.raw[0], rest + Blocks(n));
    n' := Node(0, n.count + 1, n.kids + [s], n.raw[1..]);
    DecodedItem(After(ok), f, n, s, rest);
    ItemFollows(before, heap.refusals, heap.stray, ok, stream.Rest(), f, bytes, n, n');
    if !ok {
      FailedItem(f, n, s, Delimited(bytes).Done? && !heap.stray, rest);
      // pb_release walks what the item holds, which was counted, but may not be initialized.
      heap.stray := heap.stray || !Harmless(f.sub, s);
    }
  }

  lemma FailedItem(f: Field, n: Node, s: Node, released: bool, rest: multiset<nat>)
    requires released ==> Struct(WALKABLE, f.sub, s) && AllNull(s)
    ensures released ==> Harmless(f.sub, s)
    ensures Struct(MEMORY, f.sub, s) && Harmless(f.sub, s) ==> Struct(WALKABLE, f.sub, s) && AllNull(s)
    ensures AllNull(s) ==> rest + Blocks(n) + Blocks(s) == rest + Blocks(n)
    ensures Blocks(n) + Blocks(s) == Blocks(n) <==> AllNull(s)
  {
    if released {
      StructRelax(WALKABLE, MEMORY, f.sub, s);
    }
    if Struct(MEMORY, f.sub, s) {
      HarmlessWalk(f.sub, s);
    }
    NullOwnsNothing(s);
    Unit(rest + Blocks(n));
    Cancel(Blocks(n), Blocks(s));
  }

  lemma Cancel(x: multiset<nat>, y: multiset<nat>)
    ensures x + y == x <==> y == multiset{}
  {
    assert |x + y| == |x| + |y|;
  }

  /** The packed branch of decode_static_field, for an array that has `first` items. */
  method DecodePackedStatic(stream: IStream, f: Field, first: nat) returns (ok: bool, count: nat)
    requires stream.Valid() && !f.atype.PTR? && Packable(f.ltype)
    modifies stream
    ensures Moved(stream, ok)
    ensures PackedReading(f, old(stream.Rest()), first)
            == if ok then Accepted(Node(0, count, [], []), stream.Rest()) else Refused
    ensures ok ==> count == first + Numbers(f, Delimited(old(stream.Rest())).v)
  {
    count := first;
    var substream;
    ok, substream := OpenSubstream(stream);
    if !ok {
      return;
    }
    ghost var payload := substream.Rest();
    ok, count := DecodePackedItems(substream, f, first);
    if ok {
      CountsNumbers(f, payload, first, first);
      ok := stream.PbCloseStringSubstream(substream);
    }
  }

  method DecodePackedItems(stream: IStream, f: Field, first: nat) returns (ok: bool, count: nat)
    requires stream.Valid() && !f.atype.PTR? && Packable(f.ltype)
    modifies stream
    ensures (if ok then Some(count) else None) == NumbersReading(f, old(stream.Rest()), first, first)
    ensures stream.Valid() && stream.End() == old(stream.End())
  {
    count := first;
    ghost var payload := stream.Rest();
    while stream.bytesLeft > 0 && count < f.arraySize
      invariant stream.Valid() && stream.End() == old(stream.End())
      invariant Counting(f, payload, first, stream.Rest(), count, first)
      decreases stream.bytesLeft
    {
      ok := CountedNumber(stream, f, payload, first, count);
      if !ok {
        return;
      }
      count := count + 1;
    }
    // "array overflow"
    ok := stream.bytesLeft == 0;
    CountEnd(f, payload, first, stream.Rest(), count, first);
  }

  /** One turn of the loop. */
  method CountedNumber(stream: IStream, f: Field, ghost payload: Bytes, ghost first: nat, ghost count: nat)
    returns (ok: bool)
    requires stream.Valid() && !f.atype.PTR? && Packable(f.ltype) && stream.bytesLeft > 0
    requires count < f.arraySize && Counting(f, payload, first, stream.Rest(), count, first)
    modifies stream
    ensures stream.Valid() && stream.End() == old(stream.End()) && (ok ==> stream.bytesLeft < old(stream.bytesLeft))
    ensures if ok then Counting(f, payload, first, stream.Rest(), count + 1, first)
            else NumbersReading(f, payload, first, first) == None
  {
    CountNext(f, payload, first, stream.Rest(), count, first, first);
    ok := ReadNumber(stream, f);
  }

  /** decode_pointer_field for a single item. */
  method DecodePointerItem(stream: IStream, heap: Heap, f: Field, n: Node, ghost rest: multiset<nat>)
    returns (ok: bool, n': Node)
    requires stream.Valid() && HeapField(f) && f.atype.PTR? && !f.htype.REPEATED? && Storage(OWNED, f, n)
    requires heap.Owns(rest + Blocks(n))
    modifies stream, heap
    ensures Tried(stream, heap, ok) && Kept(heap, ok, f, n', rest) && (ok ==> n'.ptr != 0)
    ensures Follows(old(heap.refusals), heap.refusals, heap.stray, ok, (), stream.Rest(),
                    NewItemReading(f, 0, old(stream.Rest())))
    decreases stream.bytesLeft, 3
  {
    n' := ReleaseFirst(heap, f, n, rest);
    PointerOnly(f, n', rest);
    ok, n' := DecodeIntoPointer(stream, heap, f, n'.ptr, rest);
  }

  /** A second submessage: the first has to be released. */
  method ReleaseFirst(heap: Heap, f: Field, n: Node, ghost rest: multiset<nat>) returns (n': Node)
    requires HeapField(f) && f.atype.PTR? && !f.htype.REPEATED? && Storage(OWNED, f, n) && heap.Owns(rest + Blocks(n))
    modifies heap`live, heap`log
    ensures Storage(OWNED, f, n') && heap.Owns(rest + Blocks(n')) && (f.ltype.SUBMESSAGE? ==> n'.ptr == 0)
  {
    n' := n;
    if f.ltype.SUBMESSAGE? && n.ptr != 0 {
      StorageRelax(OWNED, WALKABLE, f, n);
      n' := ReleaseSingleField(heap, f, n, rest);
      NullOwns(n', rest);
    }
  }

  method DecodeIntoPointer(stream: IStream, heap: Heap, f: Field, p0: nat, ghost rest: multiset<nat>)
    returns (ok: bool, n: Node)
    requires stream.Valid() && HeapField(f) && f.atype.PTR? && !f.htype.REPEATED? && (f.ltype.SUBMESSAGE? ==> p0 == 0)
    requires heap.Owns(rest + Own(p0))
    modifies stream, heap
    ensures Tried(stream, heap, ok) && Kept(heap, ok, f, n, rest) && (ok ==> n.ptr != 0)
    ensures Follows(old(heap.refusals), heap.refusals, heap.stray, ok, (), stream.Rest(),
                    NewItemReading(f, 0, old(stream.Rest())))
    decreases stream.bytesLeft, 2
  {
    if StringLike(f) {
      var p;
      ok, p := DecodeBlock(stream, heap, f, p0, rest);
      n := Node(p, 0, [], []);
      PointerBack(After(ok), f, p, rest);
    } else {
      var p;
      ok, p := AllocateField(heap, p0, f.dataSize, 1, rest);
      n := Node(p, 0, [], []);
      PointerAllocated(f, p0, p, ok, rest);
      if ok {
        ok, n := DecodeAllocated(stream, heap, f, p, rest);
      }
    }
  }

  /** A single item in the block that has just been allocated for it. */
  method DecodeAllocated(stream: IStream, heap: Heap, f: Field, p: nat, ghost rest: multiset<nat>)
    returns (ok: bool, n: Node)
    requires stream.Valid() && HeapField(f) && f.atype.PTR? && !f.htype.REPEATED? && !StringLike(f)
    requires p != 0 && p in heap.live && p in heap.sizes && heap.sizes[p] >= f.dataSize && heap.Owns(rest + Own(p))
    modifies stream, heap
    ensures Tried(stream, heap, ok) && Kept(heap, ok, f, n, rest) && n.ptr == p
    ensures Follows(old(heap.refusals), heap.refusals, heap.stray, ok, (), stream.Rest(),
                    TargetReading(f, old(stream.Rest())))
    decreases stream.bytesLeft, 1
  {
    if f.ltype.SUBMESSAGE? {
      var s := InitializeItem(heap, p, 0, f);
      NullOwns(s, rest + Own(p));
      MergeIntoZero(f.sub, stream.Rest());
      StructRelax(OWNED, WALKABLE, f.sub, s);
      ok, s := PbDecSubmessage(stream, heap, f, s, rest + Own(p));
      n := Node(p, 0, [s], []);
      StructBack(After(ok), f, p, s, rest);
    } else {
      heap.Store(p, 0, f.dataSize);
      ok := ReadPlain(stream, f);
      n := Node(p, 0, [], []);
      PointerBack(After(ok), f, p, rest);
    }
  }

  /** decode_pointer_field for one more item of an array. */
  method DecodePointerEntry(stream: IStream, heap: Heap, f: Field, n: Node, ghost rest: multiset<nat>)
    returns (ok: bool, n': Node)
    requires stream.Valid() && HeapField(f) && f.atype.PTR? && f.htype.REPEATED? && Storage(OWNED, f, n)
    requires n.count < SIZE_MAX && heap.Owns(rest + Blocks(n))
    modifies stream, heap
    ensures Tried(stream, heap, ok) && Kept(heap, ok, f, n', rest)
    ensures Follows(old(heap.refusals), heap.refusals, heap.stray, ok, (), stream.Rest(),
                    NewItemReading(f, n.count, old(stream.Rest())))
    ensures ok ==> n'.count == n.count + 1 && n'.ptr != 0
    decreases stream.bytesLeft, 4
  {
    ghost var before, bytes := heap.refusals, stream.Rest();
    var q;
    ok, q := GrowArray(heap, n, f.dataSize, rest);
    if ok {
      ok, n' := DecodeGrown(stream, heap, f, n, q, rest);
      NewItemFollows(before, heap.refusals, heap.stray, ok, stream.Rest(), f, n.count, bytes);
    } else {
      n' := n;
      StorageRelax(OWNED, WALKABLE, f, n);
      NewItemRefused(before, heap.refusals, stream.Rest(), f, n.count, bytes);
    }
  }

  /** The block has grown by one item. */
  method DecodeGrown(stream: IStream, heap: Heap, f: Field, n: Node, q: nat, ghost rest: multiset<nat>)
    returns (ok: bool, n': Node)
    requires stream.Valid() && HeapField(f) && f.atype.PTR? && f.htype.REPEATED? && Storage(OWNED, f, n)
    requires q != 0 && InBlock(heap, q, n.count + 1, f.dataSize) && n.count < SIZE_MAX
    requires heap.Owns(rest + KidsBlocks(n.kids) + Own(q))
    modifies stream, heap
    ensures Tried(stream, heap, ok) && Kept(heap, ok, f, n', rest)
    ensures Follows(old(heap.refusals), heap.refusals, heap.stray, ok, (), stream.Rest(),
                    TargetReading(f, old(stream.Rest())))
    ensures n'.count == n.count + 1 && n'.ptr == q
    decreases stream.bytesLeft, 3
  {
    ArrayBlockBack(f, n, q, rest);
    ok, n' := DecodeEntry(stream, heap, f, Node(q, n.count, n.kids, []), rest);
  }

  /** allocate_field for an array that gets one item more. */
  method GrowArray(heap: Heap, n: Node, dataSize: nat, ghost rest: multiset<nat>) returns (ok: bool, q: nat)
    requires heap.Owns(rest + Blocks(n))
    modifies heap
    ensures heap.attempts >= old(heap.attempts)
    ensures Granting(old(heap.refusals), heap.refusals, ok, dataSize, n.count + 1)
    ensures ok ==> q != 0 && InBlock(heap, q, n.count + 1, dataSize)
    ensures heap.Owns(if ok then rest + KidsBlocks(n.kids) + Own(q) else rest + Blocks(n))
  {
    ArrayBlock(n, rest);
    ok, q := AllocateField(heap, n.ptr, dataSize, n.count + 1, rest + KidsBlocks(n.kids));
  }

  /** The item after the last, in a block that has room for it. */
  method DecodeEntry(stream: IStream, heap: Heap, f: Field, n: Node, ghost rest: multiset<nat>)
    returns (ok: bool, n': Node)
    requires stream.Valid() && HeapField(f) && f.atype.PTR? && f.htype.REPEATED? && Storage(OWNED, f, n)
    requires n.ptr != 0 && InBlock(heap, n.ptr, n.count + 1, f.dataSize) && n.count < SIZE_MAX
    requires heap.Owns(rest + Blocks(n))
    modifies stream, heap
    ensures Tried(stream, heap, ok) && Kept(heap, ok, f, n', rest)
    ensures Follows(old(heap.refusals), heap.refusals, heap.stray, ok, (), stream.Rest(),
                    TargetReading(f, old(stream.Rest())))
    ensures n'.count == n.count + 1 && n'.ptr == n.ptr
    decreases stream.bytesLeft, 2
  {
    SpanInside(n.count, n.count + 1, f.dataSize);
    if f.ltype.SUBMESSAGE? {
      var s := InitializeItem(heap, n.ptr, Span(n.count, f.dataSize), f);
      ok, n' := DecodeStructEntry(stream, heap, f, n, s, rest);
    } else if StringLike(f) {
      heap.Store(n.ptr, Span(n.count, f.dataSize), f.dataSize);
      var p;
      NoBlock(rest + Blocks(n));
      ok, p := DecodeBlock(stream, heap, f, 0, rest + Blocks(n));
      n' := Node(n.ptr, n.count + 1, n.kids + [Node(p, 0, [], [])], []);
      Leaf(p);
      EntryBack(After(ok), f, n, Node(p, 0, [], []), rest);
    } else {
      heap.Store(n.ptr, Span(n.count, f.dataSize), f.dataSize);
      n' := Node(n.ptr, n.count + 1, n.kids, []);
      PlainEntry(f, n);
      StorageRelax(OWNED, WALKABLE, f, n');
      ok := ReadPlain(stream, f);
    }
  }

  /** An array of structures. */
  method DecodeStructEntry(stream: IStream, heap: Heap, f: Field, n: Node, s: Node, ghost rest: multiset<nat>)
    returns (ok: bool, n': Node)
    requires stream.Valid() && HeapField(f) && f.atype.PTR? && f.htype.REPEATED? && f.ltype.SUBMESSAGE?
    requires Storage(OWNED, f, n) && n.ptr != 0 && n.count < SIZE_MAX
    requires s == Zero(f.sub) && Struct(OWNED, f.sub, s) && AllNull(s) && heap.Owns(rest + Blocks(n))
    modifies stream, heap
    ensures Tried(stream, heap, ok) && Kept(heap, ok, f, n', rest)
    ensures Follows(old(heap.refusals), heap.refusals, heap.stray, ok, (), stream.Rest(),
                    TargetReading(f, old(stream.Rest())))
    ensures n'.count == n.count + 1 && n'.ptr == n.ptr
    decreases stream.bytesLeft, 1
  {
    StructRelax(OWNED, MEMORY, f.sub, s);
    StructRelax(OWNED, WALKABLE, f.sub, s);
    var s';
    ok, s' := PbDecSubmessage(stream, heap, f, s, rest + Blocks(n));
    n' := Node(n.ptr, n.count + 1, n.kids + [s'], []);
    EntryBack(After(ok), f, n, s', rest);
    FailedItem(f, n, s', false, rest);
  }

  /** The packed branch of decode_pointer_field. */
  method DecodePackedPointer(stream: IStream, heap: Heap, f: Field, n: Node, ghost rest: multiset<nat>)
    returns (ok: bool, n': Node)
    requires stream.Valid() && HeapField(f) && f.atype.PTR? && f.htype.REPEATED? && Packable(f.ltype)
    requires Storage(OWNED, f, n)
    requires heap.Owns(rest + Blocks(n))
    modifies stream, heap
    ensures Tried(stream, heap, ok) && Storage(OWNED, f, n') && heap.Owns(rest + Blocks(n'))
    ensures Follows(old(heap.refusals), heap.refusals, heap.stray, ok, Node(0, n'.count, [], []), stream.Rest(),
                    PackedReading(f, old(stream.Rest()), n.count))
    ensures n'.count >= n.count
    ensures ok ==> n'.count == n.count + Numbers(f, Delimited(old(stream.Rest())).v)
  {
    n' := n;
    ghost var before, s := heap.refusals, stream.Rest();
    var substream;
    ok, substream := OpenSubstream(stream);
    if !ok {
      return;
    }
    var status;
    status, n' := DecodePayload(substream, heap, f, n, rest);
    ok := stream.PbCloseStringSubstream(substream);
    ok := ok && status;
    PackedFollows(before, heap.refusals, ok, stream.Rest(), f, s, n.count, n'.count);
    if ok {
      CountsNumbers(f, Delimited(s).v, n.count, n.count);
    }
  }

  method DecodePayload(stream: IStream, heap: Heap, f: Field, n: Node, ghost rest: multiset<nat>)
    returns (ok: bool, n': Node)
    requires stream.Valid() && f.dataSize > 0 && f.atype.PTR? && f.htype.REPEATED? && Packable(f.ltype)
    requires Storage(OWNED, f, n)
    requires heap.Owns(rest + Blocks(n))
    modifies stream, heap
    ensures heap.attempts >= old(heap.attempts)
    ensures Counted(old(heap.refusals), heap.refusals, ok, n'.count,
                    NumbersReading(f, old(stream.Rest()), n.count, n.count))
    ensures stream.Valid() && stream.End() == old(stream.End()) && Storage(OWNED, f, n') && heap.Owns(rest + Blocks(n'))
    ensures n'.count >= n.count
  {
    PackedOnly(f, n, rest);
    var p, count;
    ok, p, count := GrowPacked(stream, heap, f, n.ptr, n.count, rest);
    n' := Node(p, count, [], []);
    PackedBack(f, p, count, rest);
  }

  /** The loop of the packed branch.  Every item is written inside the block that was allocated last. */
  method GrowPacked(stream: IStream, heap: Heap, f: Field, p0: nat, first: nat, ghost rest: multiset<nat>)
    returns (ok: bool, p: nat, count: nat)
    requires stream.Valid() && f.dataSize > 0 && f.atype.PTR? && Packable(f.ltype) && first <= SIZE_MAX
    requires p0 == 0 ==> first == 0
    requires heap.Owns(rest + Own(p0))
    modifies stream, heap
    ensures heap.attempts >= old(heap.attempts)
    ensures Counted(old(heap.refusals), heap.refusals, ok, count,
                    NumbersReading(f, old(stream.Rest()), first, first))
    ensures stream.Valid() && stream.End() == old(stream.End()) && Held(heap, p, first, count, rest)
  {
    p, count, ok := p0, first, true;
    var allocatedSize := first;
    ghost var payload, end := stream.Rest(), stream.End();
    while stream.bytesLeft > 0
      invariant stream.Valid() && stream.End() == end && ok
      invariant heap.refusals == old(heap.refusals) && heap.attempts >= old(heap.attempts)
      invariant Growing(heap, f, p, first, count, allocatedSize, rest)
      invariant Counting(f, payload, first, stream.Rest(), count, allocatedSize)
      decreases stream.bytesLeft
    {
      ok, p, allocatedSize := CountedEntry(stream, heap, f, p, count, allocatedSize, first, payload, rest);
      if !ok {
        return;
      }
      count := count + 1;
    }
    CountAll(f, payload, first, stream.Rest(), count, allocatedSize, heap.refusals);
  }

  /** The array has `count` items in a block for `allocatedSize`, which is the one allocated last, if any. */
  ghost predicate Growing(heap: Heap, f: Field, p: nat, first: nat, count: nat, allocatedSize: nat, rest: multiset<nat>)
    reads heap
  {
    && first <= count <= allocatedSize <= SIZE_MAX && (p == 0 ==> allocatedSize == 0)
    && (allocatedSize > first ==> InBlock(heap, p, allocatedSize, f.dataSize)) && heap.Owns(rest + Own(p))
  }

  /** The array is in order, whatever its block has room for. */
  ghost predicate Held(heap: Heap, p: nat, first: nat, count: nat, rest: multiset<nat>)
    reads heap
  {
    first <= count <= SIZE_MAX && (p == 0 ==> count == 0) && heap.Owns(rest + Own(p))
  }

  /** One turn of the loop: one number more, or none at all of the payload. */
  method CountedEntry(stream: IStream, heap: Heap, f: Field, p: nat, count: nat, allocatedSize: nat, ghost first: nat,
                      ghost payload: Bytes, ghost rest: multiset<nat>)
    returns (ok: bool, p': nat, allocatedSize': nat)
    requires stream.Valid() && stream.bytesLeft > 0 && f.dataSize > 0 && f.atype.PTR? && Packable(f.ltype)
    requires Growing(heap, f, p, first, count, allocatedSize, rest)
    requires Counting(f, payload, first, stream.Rest(), count, allocatedSize)
    modifies stream, heap
    ensures stream.Valid() && stream.End() == old(stream.End()) && (!ok ==> Held(heap, p', first, count, rest))
    ensures heap.attempts >= old(heap.attempts) && heap.refusals >= old(heap.refusals)
    ensures ok ==> Growing(heap, f, p', first, count + 1, allocatedSize', rest)
    ensures ok ==> stream.bytesLeft < old(stream.bytesLeft) && heap.refusals == old(heap.refusals)
                   && Counting(f, payload, first, stream.Rest(), count + 1, allocatedSize')
    ensures !ok ==> Counted(old(heap.refusals), heap.refusals, false, count, NumbersReading(f, payload, first, first))
  {
    if count == SIZE_MAX {
      CountEnd(f, payload, first, stream.Rest(), count, allocatedSize);
      return false, p, allocatedSize;
    }
    ghost var before := stream.Rest();
    ok, p', allocatedSize' := PackedEntry(stream, heap, f, p, count, allocatedSize, first, rest);
    if RoomFor(f, count, allocatedSize, |before|).None? {
      CountEnd(f, payload, first, before, count, allocatedSize);
    } else {
      CountNext(f, payload, first, before, count, allocatedSize, RoomFor(f, count, allocatedSize, |before|).value);
    }
  }

  /** One item of a packed array, written behind those there are. */
  method PackedEntry(stream: IStream, heap: Heap, f: Field, p: nat, count: nat, allocatedSize: nat, ghost first: nat,
                     ghost rest: multiset<nat>)
    returns (ok: bool, p': nat, allocatedSize': nat)
    requires stream.Valid() && stream.bytesLeft > 0 && f.dataSize > 0 && f.atype.PTR? && Packable(f.ltype)
    requires heap.Owns(rest + Own(p))
    requires first <= count <= allocatedSize <= SIZE_MAX && count < SIZE_MAX && (p == 0 ==> allocatedSize == 0)
    requires allocatedSize > first ==> InBlock(heap, p, allocatedSize, f.dataSize)
    modifies stream, heap
    ensures heap.attempts >= old(heap.attempts)
    ensures stream.Valid() && stream.End() == old(stream.End()) && heap.Owns(rest + Own(p'))
    ensures p' == 0 ==> p == 0
    ensures ok ==> p' != 0 && count < allocatedSize' <= SIZE_MAX && InBlock(heap, p', allocatedSize', f.dataSize)
    ensures ok ==> stream.bytesLeft < old(stream.bytesLeft)
    ensures heap.refusals >= old(heap.refusals) && (heap.refusals > old(heap.refusals) ==> !ok)
    ensures var room := RoomFor(f, count, allocatedSize, old(stream.bytesLeft));
            if room.None? then !ok && heap.refusals == old(heap.refusals)
            else
              && (ok ==> allocatedSize' == room.value)
              && (heap.refusals == old(heap.refusals) ==>
                    PlainReading(f, old(stream.Rest())) == if ok then Accepted((), stream.Rest()) else Refused)
  {
    ok, p', allocatedSize' := EnsureRoom(heap, f, p, count, allocatedSize, first, stream.bytesLeft, rest);
    if ok {
      SpanInside(count, allocatedSize', f.dataSize);
      heap.Store(p', Span(count, f.dataSize), f.dataSize);
      ok := ReadNumber(stream, f);
    }
  }

  /** More storage, if the array is full: the block grows by a guess of what is still to come. */
  method EnsureRoom(heap: Heap, f: Field, p: nat, count: nat, allocatedSize: nat, ghost first: nat, bytesLeft: nat,
                    ghost rest: multiset<nat>)
    returns (ok: bool, p': nat, allocatedSize': nat)
    requires f.atype.PTR? && f.dataSize > 0 && bytesLeft > 0 && heap.Owns(rest + Own(p))
    requires first <= count <= allocatedSize <= SIZE_MAX && count < SIZE_MAX && (p == 0 ==> allocatedSize == 0)
    requires allocatedSize > first ==> InBlock(heap, p, allocatedSize, f.dataSize)
    modifies heap
    ensures heap.attempts >= old(heap.attempts)
    ensures heap.Owns(rest + Own(p'))
    ensures ok ==> p' != 0 && count < allocatedSize' <= SIZE_MAX && InBlock(heap, p', allocatedSize', f.dataSize)
    ensures var room := RoomFor(f, count, allocatedSize, bytesLeft);
            if room.None? then !ok && heap.refusals == old(heap.refusals)
            else
              && heap.refusals == old(heap.refusals) + (if ok then 0 else 1)
              && (ok ==> allocatedSize' == room.value)
    ensures !ok ==> p' == p
  {
    ok, p', allocatedSize' := true, p, allocatedSize;
    if count + 1 > allocatedSize {
      ItemsInIsQuotient(bytesLeft, f.dataSize);
      var remain := (bytesLeft - 1) / f.dataSize + 1;
      allocatedSize' := if remain < SIZE_MAX - allocatedSize then allocatedSize + remain else allocatedSize + 1;
      ok, p' := AllocateField(heap, p, f.dataSize, allocatedSize', rest);
    }
  }

  /** decode_pointer_field. */
  method DecodePointerField(stream: IStream, heap: Heap, f: Field, wireType: nat, n: Node, ghost rest: multiset<nat>)
    returns (ok: bool, n': Node)
    requires stream.Valid() && HeapField(f) && f.atype.PTR? && Storage(OWNED, f, n) && heap.Owns(rest + Blocks(n))
    modifies stream, heap
    ensures Tried(stream, heap, ok) && Kept(heap, ok, f, n', rest)
    ensures Follows(old(heap.refusals), heap.refusals, heap.stray, ok, Bare(f, n'), stream.Rest(),
                    PointerReading(f, wireType, old(stream.Rest()), Bare(f, n)))
    ensures ok ==> Received(f, wireType, n, n')
    decreases stream.bytesLeft, 5
  {
    ghost var before, s := heap.refusals, stream.Rest();
    StorageRelax(OWNED, WALKABLE, f, n);
    if f.htype.REPEATED? && wireType == WT_STRING && Packable(f.ltype) {
      ok, n' := DecodePackedPointer(stream, heap, f, n, rest);
      if !ok {
        StorageRelax(OWNED, WALKABLE, f, n');
      }
    } else if f.htype.REPEATED? && n.count == SIZE_MAX {
      return false, n;
    } else {
      if f.htype.REPEATED? {
        ok, n' := DecodePointerEntry(stream, heap, f, n, rest);
      } else {
        ok, n' := DecodePointerItem(stream, heap, f, n, rest);
      }
      PointerFollows(before, heap.refusals, heap.stray, ok, stream.Rest(), f, wireType, s, n, n');
    }
  }

  /** decode_field, for the two kinds of storage. */
  method DecodeField(stream: IStream, heap: Heap, f: Field, wireType: nat, n: Node, ghost rest: multiset<nat>)
    returns (ok: bool, n': Node)
    requires stream.Valid() && HeapField(f) && Storage(OWNED, f, n) && heap.Owns(rest + Blocks(n))
    modifies stream, heap
    ensures Tried(stream, heap, ok) && Kept(heap, ok, f, n', rest) && Idle(stream, heap, f)
    ensures Follows(old(heap.refusals), heap.refusals, heap.stray, ok, Bare(f, n'), stream.Rest(),
                    FieldReading(f, wireType, old(stream.Rest()), Bare(f, n)))
    ensures ok ==> Received(f, wireType, n, n')
    decreases stream.bytesLeft, 6
  {
    if f.atype.PTR? {
      ok, n' := DecodePointerField(stream, heap, f, wireType, n, rest);
    } else {
      ok, n' := DecodeStaticField(stream, heap, f, wireType, n, rest);
    }
  }

  // ----- Messages -----

  /** The body of the field loop, for a field header that has been read. */
  method DecodeNext(stream: IStream, heap: Heap, iter: FieldIter, fieldsSeen: array<Word>, ghost seen: set<nat>,
                    tag: nat, wireType: nat, ns: seq<Node>, ghost rest: multiset<nat>)
    returns (ok: bool, ghost seen': set<nat>, ns': seq<Node>)
    requires stream.Valid() && Walking(iter, fieldsSeen, seen) && Members(OWNED, iter.start, ns)
    requires Present(iter.start, ns, seen) && heap.Owns(rest + KidsBlocks(ns))
    modifies stream, heap, iter, fieldsSeen
    ensures Tried(stream, heap, ok) && Walking(iter, fieldsSeen, seen') && |ns'| == |iter.start|
    ensures Follows(old(heap.refusals), heap.refusals, heap.stray, ok, CourseOf(iter.start, ns', seen'), stream.Rest(),
                    NextReading(iter.start, tag, wireType, old(stream.Rest()), CourseOf(iter.start, ns, seen)))
    ensures KeptAll(heap, ok, iter.start, ns', rest) && (ok ==> Present(iter.start, ns', seen'))
    ensures NoPointers(iter.start) && old(stream.bytesLeft) == 0 ==> heap.attempts == old(heap.attempts)
    decreases stream.bytesLeft, 9
  {
    ns', seen' := ns, seen;
    FindNeedsTag(iter.start, tag);
    MembersRelax(OWNED, WALKABLE, iter.start, ns);
    var found := iter.Find(tag);
    if !found {
      ok := stream.PbSkipField(wireType);
      assert |stream.Rest()| == stream.bytesLeft && old(|stream.Rest()| == stream.bytesLeft);
    } else if iter.AtEnd() {
      // The terminator of an empty message type.
      var ignored;
      ok, ignored := stream.PbDecodeVarint32();
      assert |stream.Rest()| == stream.bytesLeft && old(|stream.Rest()| == stream.bytesLeft);
    } else {
      ok, seen', ns' := DecodeFound(stream, heap, iter, fieldsSeen, seen, tag, wireType, ns, rest);
    }
  }

  method DecodeFound(stream: IStream, heap: Heap, iter: FieldIter, fieldsSeen: array<Word>, ghost seen: set<nat>,
                     ghost tag: nat, wireType: nat, ns: seq<Node>, ghost rest: multiset<nat>)
    returns (ok: bool, ghost seen': set<nat>, ns': seq<Node>)
    requires stream.Valid() && Walking(iter, fieldsSeen, seen) && Members(OWNED, iter.start, ns)
    requires iter.pos < |iter.start| && FindTag(iter.start, tag) == iter.pos
    requires Present(iter.start, ns, seen) && heap.Owns(rest + KidsBlocks(ns))
    modifies stream, heap, fieldsSeen
    ensures Tried(stream, heap, ok) && Walking(iter, fieldsSeen, seen') && |ns'| == |iter.start|
    ensures Follows(old(heap.refusals), heap.refusals, heap.stray, ok, CourseOf(iter.start, ns', seen'), stream.Rest(),
                    NextReading(iter.start, tag, wireType, old(stream.Rest()), CourseOf(iter.start, ns, seen)))
    ensures KeptAll(heap, ok, iter.start, ns', rest) && (ok ==> Present(iter.start, ns', seen'))
    ensures Idle(stream, heap, iter.start[iter.pos])
    decreases stream.bytesLeft, 8
  {
    ghost var before, s := heap.refusals, stream.Rest();
    seen' := MarkSeen(iter, fieldsSeen, seen);
    ok, ns' := DecodeAt(stream, heap, iter.start, iter.pos, wireType, ns, rest);
    NextFollows(before, heap.refusals, heap.stray, ok, stream.Rest(), iter.start, tag, wireType, s, ns, ns'[iter.pos],
                seen);
    if ok {
      PresentNext(iter.start, iter.pos, wireType, ns, ns'[iter.pos], seen, seen');
    }
  }

  lemma {:induction false} FindNeedsTag(schema: seq<Field>, tag: nat)
    requires HeapSchema(schema)
    ensures tag == 0 ==> FindTag(schema, tag) == |schema|
  {
    if FindTag(schema, tag) < |schema| {
      assert HeapField(schema[FindTag(schema, tag)]);
    }
  }

  ghost predicate Walking(iter: FieldIter, fieldsSeen: array<Word>, seen: set<nat>)
    reads iter, fieldsSeen
  {
    iter.Valid() && HeapSchema(iter.start) && Represents(fieldsSeen[..], seen) && Tracked(iter.start, seen)
  }

  method DecodeAt(stream: IStream, heap: Heap, schema: seq<Field>, i: nat, wireType: nat, ns: seq<Node>,
                  ghost rest: multiset<nat>)
    returns (ok: bool, ns': seq<Node>)
    requires stream.Valid() && HeapSchema(schema) && i < |schema| && Members(OWNED, schema, ns)
    requires heap.Owns(rest + KidsBlocks(ns))
    modifies stream, heap
    ensures |ns'| == |ns| == |schema|
    ensures Tried(stream, heap, ok) && KeptAll(heap, ok, schema, ns', rest) && Idle(stream, heap, schema[i])
    ensures Follows(old(heap.refusals), heap.refusals, heap.stray, ok, Bare(schema[i], ns'[i]), stream.Rest(),
                    FieldReading(schema[i], wireType, old(stream.Rest()), Bare(schema[i], ns[i])))
    ensures ns' == ns[i := ns'[i]] && (ok ==> Received(schema[i], wireType, ns[i], ns'[i]))
    decreases stream.bytesLeft, 7
  {
    MembersAt(OWNED, schema, ns, i);
    Regroup(rest, ns, i, ns[i]);
    var n;
    ok, n := DecodeField(stream, heap, schema[i], wireType, ns[i], rest + Others(ns, i));
    Regroup(rest, ns, i, n);
    ns' := ns[i := n];
    if !heap.stray {
      MembersUpdate(After(ok), schema, ns, i, n);
    }
  }

  /** The required pointer fields whose bits are set are there. */
  predicate Present(schema: seq<Field>, ns: seq<Node>, seen: set<nat>)
    requires |ns| == |schema|
  {
    forall i | 0 <= i < |schema| && schema[i].htype.REQUIRED? && schema[i].atype.PTR? && ReqIndex(schema, i) in seen ::
      ns[i].ptr != 0
  }

  lemma {:induction false} PresentNext(schema: seq<Field>, i: nat, wireType: nat, ns: seq<Node>, n: Node,
                                       seen: set<nat>, seen': set<nat>)
    requires i < |schema| == |ns| && Present(schema, ns, seen) && Received(schema[i], wireType, ns[i], n)
    requires seen' == if schema[i].htype.REQUIRED? && ReqIndex(schema, i) < MAX_REQUIRED
                      then seen + {ReqIndex(schema, i)} else seen
    ensures Present(schema, ns[i := n], seen')
  {
    forall j | 0 <= j < |schema| && schema[j].htype.REQUIRED? && schema[j].atype.PTR? && ReqIndex(schema, j) in seen'
      ensures ns[i := n][j].ptr != 0
    {
      if j != i && schema[i].htype.REQUIRED? {
        BitsDiffer(schema, i, j);
      }
    }
  }

  /** Every required pointer field that has a bit is there. */
  predicate RequiredPresent(schema: seq<Field>, ns: seq<Node>) {
    |ns| == |schema|
    && forall i: nat | i < |schema| && TrackedField(schema, i) && schema[i].atype.PTR? :: ns[i].ptr != 0
  }

  lemma {:induction false} AllPresent(schema: seq<Field>, ns: seq<Node>, seen: set<nat>)
    requires |ns| == |schema| && Present(schema, ns, seen) && AllSeen(schema, seen)
    ensures RequiredPresent(schema, ns)
  {
    forall i: nat | i < |schema| && TrackedField(schema, i) && schema[i].atype.PTR? ensures ns[i].ptr != 0 {
      ReqIndexBelow(schema, i);
    }
  }

  /** pb_decode_noinit: whether it succeeds or not, the structure owns what it points to. */
  method PbDecodeNoinit(stream: IStream, heap: Heap, schema: seq<Field>, s: Node, ghost rest: multiset<nat>)
    returns (ok: bool, s': Node)
    requires stream.Valid() && HeapSchema(schema) && Struct(OWNED, schema, s) && heap.Owns(rest + Blocks(s))
    modifies stream, heap
    ensures Tried(stream, heap, ok) && heap.Holds(rest + Blocks(s')) && (heap.stray || Struct(After(ok), schema, s'))
    ensures IdleMessage(stream, heap, schema)
    ensures Follows(old(heap.refusals), heap.refusals, heap.stray, ok, BareAll(schema, s'.kids), stream.Rest(),
                    StructReading(schema, old(stream.Rest()), BareAll(schema, s.kids)))
    ensures ok ==> RequiredPresent(schema, s'.kids)
    decreases stream.bytesLeft, 12
  {
    NoPointer(s);
    var kids;
    ok, kids := DecodeFields(stream, heap, schema, s.kids, rest);
    s' := Node(0, 0, kids, []);
    NoPointer(s');
  }

  method DecodeFields(stream: IStream, heap: Heap, schema: seq<Field>, ns: seq<Node>, ghost rest: multiset<nat>)
    returns (ok: bool, ns': seq<Node>)
    requires stream.Valid() && HeapSchema(schema) && Members(OWNED, schema, ns) && heap.Owns(rest + KidsBlocks(ns))
    modifies stream, heap
    ensures Tried(stream, heap, ok) && KeptAll(heap, ok, schema, ns', rest) && IdleMessage(stream, heap, schema)
    ensures Follows(old(heap.refusals), heap.refusals, heap.stray, ok, BareAll(schema, ns'), stream.Rest(),
                    StructReading(schema, old(stream.Rest()), BareAll(schema, ns)))
    ensures ok ==> RequiredPresent(schema, ns')
    decreases stream.bytesLeft, 11
  {
    var iter, _ := HeapFields(schema);
    var fieldsSeen := NoneSeen();
    ghost var seen;
    ok, seen, ns' := FieldLoop(stream, heap, iter, fieldsSeen, ns, rest);
    if ok {
      ok := CheckRequired(iter, fieldsSeen, seen);
      if ok {
        AllPresent(schema, ns', seen);
      } else {
        MembersRelax(OWNED, WALKABLE, schema, ns');
      }
    }
  }

  method FieldLoop(stream: IStream, heap: Heap, iter: FieldIter, fieldsSeen: array<Word>, ns: seq<Node>,
                   ghost rest: multiset<nat>)
    returns (ok: bool, ghost seen: set<nat>, ns': seq<Node>)
    requires stream.Valid() && Walking(iter, fieldsSeen, {}) && Members(OWNED, iter.start, ns)
    requires heap.Owns(rest + KidsBlocks(ns))
    modifies stream, heap, iter, fieldsSeen
    ensures Tried(stream, heap, ok) && Walking(iter, fieldsSeen, seen) && |ns'| == |iter.start|
    ensures Follows(old(heap.refusals), heap.refusals, heap.stray, ok, CourseOf(iter.start, ns', seen), stream.Rest(),
                    LoopReading(iter.start, old(stream.Rest()), CourseOf(iter.start, ns, {})))
    ensures KeptAll(heap, ok, iter.start, ns', rest) && (ok ==> Present(iter.start, ns', seen))
    ensures IdleMessage(stream, heap, iter.start)
    decreases stream.bytesLeft, 10
  {
    seen, ns', ok := {}, ns, true;
    while stream.bytesLeft > 0
      invariant stream.Valid() && stream.End() == old(stream.End()) && stream.bytesLeft <= old(stream.bytesLeft)
      invariant Walking(iter, fieldsSeen, seen) && ok
      invariant Members(OWNED, iter.start, ns') && heap.Owns(rest + KidsBlocks(ns')) && Present(iter.start, ns', seen)
      invariant heap.attempts >= old(heap.attempts)
      invariant heap.refusals == old(heap.refusals)
      invariant stream.bytesLeft < old(stream.bytesLeft) || heap.attempts == old(heap.attempts)
      invariant IdleMessage(stream, heap, iter.start)
      invariant LoopReading(iter.start, old(stream.Rest()), CourseOf(iter.start, ns, {}))
                == LoopReading(iter.start, stream.Rest(), CourseOf(iter.start, ns', seen))
      decreases stream.bytesLeft
    {
      var wireType, tag, eof;
      LoopStep(iter.start, stream.Rest(), CourseOf(iter.start, ns', seen));
      ok, wireType, tag, eof := ReadHeader(stream);
      if !ok {
        ok := eof;
        MembersRelax(OWNED, WALKABLE, iter.start, ns');
        return;
      }
      ok, seen, ns' := DecodeNext(stream, heap, iter, fieldsSeen, seen, tag, wireType, ns', rest);
      if !ok {
        return;
      }
    }
    LoopStep(iter.start, stream.Rest(), CourseOf(iter.start, ns', seen));
  }

  /** One turn of the loop. */
  lemma LoopStep(schema: seq<Field>, s: Bytes, c: Course)
    requires |c.ns| == |schema|
    ensures ReadTag(s).TagError? ==> LoopReading(schema, s, c) == Refused
    ensures ReadTag(s).Stop? ==> LoopReading(schema, s, c) == Accepted(c, ReadTag(s).rest)
    ensures ReadTag(s).Header? ==>
              var r := NextReading(schema, ReadTag(s).tag, ReadTag(s).wireType, ReadTag(s).rest, c);
              LoopReading(schema, s, c) == if r.Accepted? then LoopReading(schema, r.rest, r.v) else r
  {}

  /** pb_decode_tag, as far as the lengths go. */
  method ReadHeader(stream: IStream) returns (ok: bool, wireType: nat, tag: nat, eof: bool)
    requires stream.Valid()
    modifies stream
    ensures stream.Valid() && stream.End() == old(stream.End())
    ensures ok || eof ==> stream.bytesLeft <= old(stream.bytesLeft)
    ensures ok ==> stream.bytesLeft < old(stream.bytesLeft)
    ensures ReadTag(old(stream.Rest())) == if ok then Header(tag, wireType, stream.Rest())
                                           else if eof then TagParse.Stop(stream.Rest()) else TagError
  {
    ok, wireType, tag, eof := stream.PbDecodeTag();
    assert |stream.Rest()| == stream.bytesLeft && old(|stream.Rest()| == stream.bytesLeft);
  }

  /** pb_decode with PB_ENABLE_MALLOC, into any memory.  If it fails, everything it allocated is free again, and every
      pointer of the structure is null; if not, the required pointer fields are there.  Only an input that goes astray
      on this memory ends differently: pb_release, which comes next, has no meaning then. */
  method PbDecode(stream: IStream, heap: Heap, schema: seq<Field>, s: Node, ghost rest: multiset<nat>)
    returns (ok: bool, s': Node)
    requires stream.Valid() && HeapSchema(schema) && Struct(MEMORY, schema, s) && heap.Owns(rest)
    modifies stream, heap
    ensures Tried(stream, heap, ok) && heap.Holds(if ok then rest + Blocks(s') else rest)
    ensures heap.stray || Struct(OWNED, schema, s')
    ensures if ok then RequiredPresent(schema, s'.kids) else heap.stray || AllNull(s')
    ensures Follows(old(heap.refusals), heap.refusals, heap.stray, ok, BareAll(schema, s'.kids), stream.Rest(),
                    MessageReading(schema, old(stream.Rest()), s))
    ensures IdleMessage(stream, heap, schema)
    decreases stream.bytesLeft, 13
  {
    s' := PbMessageSetToDefaults(schema, s);
    NullOwns(s', rest);
    BareReset(schema, s.kids);
    ok, s' := PbDecodeNoinit(stream, heap, schema, s', rest);
    if !ok && !heap.stray {
      s' := PbRelease(heap, schema, s', rest);
    }
  }

  /** A caller that releases what it has decoded.  If the allocator grants every request, the bytes and the memory
      decide whether decoding succeeds, fails or goes astray; if not, it fails.  However often allocation fails, all
      blocks are back where they were, and each was released during the call exactly as often as it was acquired,
      unless the input goes astray; and that no input does if the items of static arrays are harmless. */
  method DecodeAndRelease(stream: IStream, heap: Heap, schema: seq<Field>, s: Node, ghost rest: multiset<nat>)
    returns (ok: bool, s': Node)
    requires stream.Valid() && HeapSchema(schema) && Struct(MEMORY, schema, s) && heap.Owns(rest)
    modifies stream, heap
    ensures old(heap.attempts) <= heap.attempts
    ensures var reading := MessageReading(schema, old(stream.Rest()), s);
            if Granted(heap.refuses, old(heap.attempts), heap.attempts)
            then (ok <==> reading.Accepted?) && (heap.stray <==> reading.Astray?)
            else !ok && !heap.stray
    ensures ArraysClear(schema, Reset(schema, s.kids)) ==> !heap.stray
    ensures heap.Holds(rest) && (heap.stray || (AllNull(s') && Struct(OWNED, schema, s')))
    ensures heap.stray || forall p :: Times(heap.log, Acquired(p)) - old(Times(heap.log, Acquired(p)))
                                  == Times(heap.log, Released(p)) - old(Times(heap.log, Released(p)))
  {
    ghost var log, attempts := heap.log, heap.attempts;
    assert heap.refusals == Denied(heap.refuses, attempts);
    ok, s' := PbDecode(stream, heap, schema, s, rest);
    assert heap.refusals == Denied(heap.refuses, heap.attempts);
    DeniedNone(heap.refuses, attempts, heap.attempts);
    if ok {
      StructRelax(OWNED, WALKABLE, schema, s');
      s' := PbRelease(heap, schema, s', rest);
    }
    if !heap.stray {
      SameBalance(log, heap.log, rest);
    }
    if ArraysClear(schema, Reset(schema, s.kids)) {
      MessageClear(schema, old(stream.Rest()), s);
    }
  }
}
