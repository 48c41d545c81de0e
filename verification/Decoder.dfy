/** pb_decode.c over memory streams: every decoder returns what module WireReader says of the bytes. */
module Decoder {
  import opened Bits
  import opened Config
  import opened Wrappers
  import opened Schema
  import opened Varint
  import opened Streams
  import opened WireReader
  import opened FieldIterator
  import opened RequiredFields

  // ----- Decoders of one item -----

  /** The cast of a 64-bit integer to a signed type of `size` bytes. */
  function CastSigned(x: int, size: nat): int
    requires -0x8000_0000_0000_0000 <= x < 0x1_0000_0000_0000_0000
  {
    Signed(Unsigned64(x), Pow256(size))
  }

  /** Whether a number survives the cast to `size` bytes, case by case. */
  lemma Cast8(x: Int64)
    ensures Signed(Unsigned64(x), 0x100) == x <==> -0x80 <= x < 0x80
  {}

  lemma Cast16(x: Int64)
    ensures Signed(Unsigned64(x), 0x1_0000) == x <==> -0x8000 <= x < 0x8000
  {}

  lemma Cast32(x: Int64)
    ensures Signed(Unsigned64(x), 0x1_0000_0000) == x <==> -0x8000_0000 <= x < 0x8000_0000
  {}

  /** The check "clamped != svalue" is a range check. */
  lemma {:induction false} CastKeeps(x: Int64, size: nat)
    requires IntSize(size)
    ensures CastSigned(x, size) == x <==> InSigned(x, size)
  {
    if size == 1 {
      Cast8(x);
    } else if size == 2 {
      Cast16(x);
    } else if size == 4 {
      Cast32(x);
    }
  }

  method PbDecVarint(stream: IStream, f: Field) returns (ok: bool, n: int)
    requires stream.Valid() && f.ltype.VARINT?
    modifies stream
    ensures stream.Valid() && stream.End() == old(stream.End())
    ensures Outcome(ok, IntVal(n), stream.Rest()) == Number(f, Varint64(old(stream.Rest())))
  {
    var value;
    n := 0;
    ok, value := stream.PbDecodeVarint();
    if !ok {
      return;
    }
    var svalue := if f.dataSize == 8 then Signed(value, 0x1_0000_0000_0000_0000) else Signed(value, 0x1_0000_0000);
    if !IntSize(f.dataSize) {
      return false, n;
    }
    var clamped := CastSigned(svalue, f.dataSize);
    CastKeeps(svalue, f.dataSize);
    return clamped == svalue, clamped;
  }

  method PbDecUvarint(stream: IStream, f: Field) returns (ok: bool, n: int)
    requires stream.Valid() && f.ltype.UVARINT?
    modifies stream
    ensures stream.Valid() && stream.End() == old(stream.End())
    ensures Outcome(ok, IntVal(n), stream.Rest()) == Number(f, Varint64(old(stream.Rest())))
  {
    var value;
    n := 0;
    ok, value := stream.PbDecodeVarint();
    if !ok {
      return;
    }
    if !IntSize(f.dataSize) {
      return false, n;
    }
    var clamped := value % Pow256(f.dataSize);
    assert clamped == value <==> value < Pow256(f.dataSize);
    return clamped == value, clamped;
  }

  method PbDecSvarint(stream: IStream, f: Field) returns (ok: bool, n: int)
    requires stream.Valid() && f.ltype.SVARINT?
    modifies stream
    ensures stream.Valid() && stream.End() == old(stream.End())
    ensures Outcome(ok, IntVal(n), stream.Rest()) == Number(f, Varint64(old(stream.Rest())))
  {
    var zigzag;
    n := 0;
    ok, zigzag := stream.PbDecodeVarint();
    if !ok {
      return;
    }
    // pb_decode_svarint: the complement of the upper bits, or the upper bits.
    var half: int := zigzag / 2;
    var value := if zigzag % 2 == 1 then -half - 1 else half;
    if !IntSize(f.dataSize) {
      return false, n;
    }
    var clamped := CastSigned(value, f.dataSize);
    CastKeeps(value, f.dataSize);
    return clamped == value, clamped;
  }

  method PbDecFixed(stream: IStream, width: nat) returns (ok: bool, n: int)
    requires stream.Valid() && (width == 4 || width == 8)
    modifies stream
    ensures stream.Valid() && stream.End() == old(stream.End())
    ensures Outcome(ok, IntVal(n), stream.Rest()) == FixedWidth(old(stream.Rest()), width)
  {
    var bytes;
    n := 0;
    ok, bytes := stream.PbRead(width);
    if ok {
      n := 0;
      // bytes[0] << 0 | bytes[1] << 8 | ..., from the most significant byte down.
      for k := width downto 0
        invariant n == FromLittleEndian(bytes[k..])
      {
        assert bytes[k..][1..] == bytes[k + 1..];
        n := bytes[k] + 256 * n;
      }
      assert bytes[0..] == bytes;
    }
  }

  method PbDecBytes(stream: IStream, f: Field) returns (ok: bool, b: seq<Byte>)
    requires stream.Valid() && f.ltype.BYTES?
    modifies stream
    ensures stream.Valid() && stream.End() == old(stream.End())
    ensures Outcome(ok, BytesVal(b), stream.Rest()) == Block(old(stream.Rest()), f)
  {
    var size;
    b := [];
    ok, size := stream.PbDecodeVarint32();
    if !ok {
      return;
    }
    if size > SIZE_MAX {
      return false, b;
    }
    var allocSize := size + SIZE_BYTES;
    if allocSize > f.dataSize {
      return false, b;
    }
    ok, b := stream.PbRead(size);
  }

  /** The test for space in 32-bit arithmetic, with its wrap-around, is an ordinary comparison. */
  lemma {:induction false} StringSpace(size: nat, space: nat)
    requires space < 0x1_0000_0000
    ensures var allocSize := (size + 1) % 0x1_0000_0000; allocSize < size || allocSize > space <==> size + 1 > space
  {}

  method PbDecString(stream: IStream, f: Field) returns (ok: bool, b: seq<Byte>)
    requires stream.Valid() && f.ltype.STRING? && f.dataSize <= SIZE_MAX
    modifies stream
    ensures stream.Valid() && stream.End() == old(stream.End())
    ensures Outcome(ok, BytesVal(b), stream.Rest()) == Block(old(stream.Rest()), f)
  {
    var size;
    b := [];
    ok, size := stream.PbDecodeVarint32();
    if !ok {
      return;
    }
    // Space for the terminator, in 32-bit arithmetic.
    StringSpace(size, f.dataSize);
    var allocSize := (size + 1) % 0x1_0000_0000;
    if allocSize < size || allocSize > f.dataSize {
      return false, b;
    }
    ok, b := stream.PbRead(size);
  }

  method PbDecFixedLengthBytes(stream: IStream, f: Field) returns (ok: bool, b: seq<Byte>)
    requires stream.Valid() && f.ltype.FIXED_LENGTH_BYTES?
    modifies stream
    ensures stream.Valid() && stream.End() == old(stream.End())
    ensures Outcome(ok, BytesVal(b), stream.Rest()) == Block(old(stream.Rest()), f)
  {
    var size;
    b := [];
    ok, size := stream.PbDecodeVarint32();
    if !ok {
      return;
    }
    if size > SIZE_MAX {
      return false, b;
    }
    if size == 0 {
      return true, seq(f.dataSize, i => 0);
    }
    if size != f.dataSize {
      return false, b;
    }
    ok, b := stream.PbRead(f.dataSize);
  }

  method DecodeNumber(stream: IStream, f: Field) returns (ok: bool, n: int)
    requires stream.Valid() && Packable(f.ltype)
    modifies stream
    ensures stream.Valid() && stream.End() == old(stream.End())
    ensures Outcome(ok, IntVal(n), stream.Rest()) == DecVal(f, old(stream.Rest()), IntVal(0))
  {
    match f.ltype
    case BOOL =>
      var value;
      ok, value := stream.PbDecodeVarint32();
      n := if value != 0 then 1 else 0;
    case VARINT =>
      ok, n := PbDecVarint(stream, f);
    case UVARINT =>
      ok, n := PbDecUvarint(stream, f);
    case SVARINT =>
      ok, n := PbDecSvarint(stream, f);
    case FIXED32 =>
      ok, n := PbDecFixed(stream, 4);
    case FIXED64 =>
      ok, n := PbDecFixed(stream, 8);
  }

  /** PB_DECODERS[ltype] for everything but submessages. */
  method DecodePlain(stream: IStream, f: Field) returns (ok: bool, v: Val)
    requires stream.Valid() && f.dataSize <= SIZE_MAX && !f.ltype.SUBMESSAGE? && !f.ltype.EXTENSION?
    modifies stream
    ensures stream.Valid() && stream.End() == old(stream.End())
    ensures Outcome(ok, v, stream.Rest()) == DecVal(f, old(stream.Rest()), IntVal(0))
  {
    var b;
    match f.ltype
    case BYTES =>
      ok, b := PbDecBytes(stream, f);
      v := BytesVal(b);
    case STRING =>
      ok, b := PbDecString(stream, f);
      v := BytesVal(b);
    case FIXED_LENGTH_BYTES =>
      ok, b := PbDecFixedLengthBytes(stream, f);
      v := BytesVal(b);
    case BOOL | VARINT | UVARINT | SVARINT | FIXED32 | FIXED64 =>
      var n;
      ok, n := DecodeNumber(stream, f);
      v := IntVal(n);
  }

  /** PB_DECODERS[ltype]; `prev` is the structure that a submessage is merged into. */
  method DecodeValue(stream: IStream, f: Field, prev: Val) returns (ok: bool, v: Val)
    requires stream.Valid() && FieldOk(f)
    requires f.htype.REPEATED? && f.ltype.SUBMESSAGE? ==> Inner(f, prev) == Defaults(f.sub)
    modifies stream
    ensures stream.Valid() && stream.End() <= old(stream.End()) && (ok ==> stream.End() == old(stream.End()))
    ensures Outcome(ok, v, stream.Rest()) == DecVal(f, old(stream.Rest()), prev)
    decreases stream.bytesLeft, 1
  {
    if f.ltype.SUBMESSAGE? {
      var m;
      ok, m := PbDecSubmessage(stream, f, Inner(f, prev));
      v := MsgVal(m);
    } else {
      ok, v := DecodePlain(stream, f);
    }
  }

  /** pb_dec_submessage: new items of an array are set to their defaults, other submessages are merged into
      what is there; whatever the submessage leaves unread is skipped. */
  method PbDecSubmessage(stream: IStream, f: Field, dest: Message) returns (ok: bool, m: Message)
    requires stream.Valid() && SchemaOk(f.sub) && |dest| == |f.sub|
    requires f.htype.REPEATED? ==> dest == Defaults(f.sub)
    modifies stream
    ensures stream.Valid() && stream.End() <= old(stream.End()) && (ok ==> stream.End() == old(stream.End()))
    ensures Outcome(ok, m, stream.Rest())
            == var d := Delimited(old(stream.Rest()));
               if d.Fail? then Fail
               else var r := DecodeNoinit(f.sub, d.v, dest); if r.Done? then Done(r.v, d.rest) else Fail
    decreases stream.bytesLeft, 0
  {
    var substream;
    m := dest;
    ok, substream := stream.PbMakeStringSubstream();
    if !ok {
      return;
    }
    var status;
    if f.htype.REPEATED? {
      status, m := PbDecode(substream, f.sub);
    } else {
      status, m := PbDecodeNoinit(substream, f.sub, dest);
    }
    ok := stream.PbCloseStringSubstream(substream);
    ok := ok && status;
  }

  // ----- Fields -----

  /** One number of a packed array. */
  lemma PackedStep(f: Field, s: Bytes, items: seq<Val>, count: nat)
    requires Packable(f.ltype) && s != [] && count < f.arraySize
    ensures var p := DecVal(f, s, IntVal(0));
            DecPacked(f, s, items, count)
            == if p.Done? then DecPacked(f, p.rest, Put(items, count, p.v), count + 1) else None
  {
    assert DecVal(f, s, IntVal(0)) == DecVal(f, s, UnsetVal(f));
  }

  /** decode_static_field for a packed array: its items, into the array from position `count` on. */
  method DecodePacked(stream: IStream, f: Field, dest: seq<Val>, first: nat)
    returns (ok: bool, items: seq<Val>, count: nat)
    requires stream.Valid() && FieldOk(f) && Packable(f.ltype)
    modifies stream
    ensures stream.Valid() && stream.End() == old(stream.End())
    ensures (if ok then Some((items, count)) else None) == DecPacked(f, old(stream.Rest()), dest, first)
    ensures ok ==> stream.Rest() == []
  {
    items, count := dest, first;
    while stream.bytesLeft > 0 && count < f.arraySize
      invariant stream.Valid() && stream.End() == old(stream.End())
      invariant DecPacked(f, old(stream.Rest()), dest, first) == DecPacked(f, stream.Rest(), items, count)
      decreases stream.bytesLeft
    {
      PackedStep(f, stream.Rest(), items, count);
      var n;
      ok, n := DecodeNumber(stream, f);
      if !ok {
        return;
      }
      items := Put(items, count, IntVal(n));
      count := count + 1;
    }
    // "array overflow": all of the payload must have been used.
    ok := stream.bytesLeft == 0;
  }

  /** decode_static_field for a repeated field, counting in the structure or in the local counter. */
  method DecodeArray(stream: IStream, f: Field, wireType: nat, dest: seq<Val>, first: nat)
    returns (ok: bool, items: seq<Val>, count: nat)
    requires stream.Valid() && FieldOk(f)
    modifies stream
    ensures stream.Valid() && stream.End() <= old(stream.End()) && (ok ==> stream.End() == old(stream.End()))
    ensures Outcome(ok, (items, count), stream.Rest()) == DecArray(f, wireType, old(stream.Rest()), dest, first)
    decreases stream.bytesLeft, 2
  {
    items, count := dest, first;
    if wireType == WT_STRING && Packable(f.ltype) {
      var substream;
      ok, substream := stream.PbMakeStringSubstream();
      if !ok {
        return;
      }
      var status;
      status, items, count := DecodePacked(substream, f, dest, first);
      if !status {
        return false, items, count;
      }
      ok := stream.PbCloseStringSubstream(substream);
    } else {
      if count >= f.arraySize {
        return false, items, count;
      }
      var v;
      ok, v := DecodeValue(stream, f, UnsetVal(f));
      items := Put(items, count, v);
      count := count + 1;
    }
  }

  /** decode_static_field for the field at position `i`; `count` is the local counter of a fixed-count field. */
  method DecodeStaticField(stream: IStream, schema: seq<Field>, i: nat, wireType: nat, ghost st: Progress, m: Message,
                           fixCount: nat)
    returns (ok: bool, m': Message, fixCount': nat)
    requires stream.Valid() && SchemaOk(schema) && i < |schema| == |m|
    requires st.m == m && st.fixCount == fixCount
    modifies stream
    ensures stream.Valid() && stream.End() <= old(stream.End()) && (ok ==> stream.End() == old(stream.End()))
    ensures Outcome(ok, st.(m := m', fixCount := fixCount'), stream.Rest())
            == DecField(schema, i, wireType, old(stream.Rest()), st)
    decreases stream.bytesLeft, 3
  {
    var f := schema[i];
    assert FieldOk(f);
    m', fixCount' := m, fixCount;
    match f.htype
    case REPEATED =>
      var items := ItemsOf(m[i]);
      var count: nat;
      ok, items, count := DecodeArray(stream, f, wireType, items, if FixedCount(f) then fixCount else |items|);
      m' := m[i := Rep(items)];
      if FixedCount(f) {
        fixCount' := count;
      }
    case ONEOF =>
      // which_ := tag; a submessage starts from its defaults.
      var v;
      ok, v := DecodeValue(stream, f, DefaultVal(f));
      m' := m[Leader(schema, i) := Union(f.tag, v)];
    case OPTIONAL =>
      var v;
      ok, v := DecodeValue(stream, f, ItemOf(m[i]));
      m' := m[i := if f.sizeOffset != 0 then Opt(true, v) else Single(v)];
    case REQUIRED =>
      var v;
      ok, v := DecodeValue(stream, f, ItemOf(m[i]));
      m' := m[i := Single(v)];
  }

  // ----- Messages -----

  /** pb_field_set_to_default. */
  method PbFieldSetToDefault(f: Field, leads: bool) returns (slot: Slot)
    requires FieldOk(f)
    ensures slot == DefaultSlot(f, leads)
    decreases f
  {
    if f.htype.REPEATED? {
      return Rep(if f.sizeOffset != 0 then [] else seq(f.arraySize, i => UnsetVal(f)));
    }
    if f.htype.ONEOF? {
      return if leads then Union(0, IntVal(0)) else Member;
    }
    var v;
    if f.ltype.SUBMESSAGE? {
      var m := PbMessageSetToDefaults(f.sub);
      v := MsgVal(m);
    } else if f.dflt.Some? {
      v := f.dflt.value;
    } else {
      v := ZeroVal(f);
    }
    return if f.htype.OPTIONAL? && f.sizeOffset != 0 then Opt(false, v) else Single(v);
  }

  /** pb_message_set_to_defaults. */
  method PbMessageSetToDefaults(schema: seq<Field>) returns (m: Message)
    requires SchemaOk(schema)
    ensures m == Defaults(schema)
    decreases schema
  {
    var iter, more := Fields(schema);
    m := [];
    while more
      invariant iter.Valid() && iter.start == schema && fresh(iter)
      invariant if more then |m| == iter.pos < |schema| else |m| == |schema|
      invariant m == Defaults(schema)[..|m|]
      decreases |schema| - |m|
    {
      assert FieldOk(schema[iter.pos]);
      var slot := PbFieldSetToDefault(schema[iter.pos], !Joined(schema, iter.pos));
      DefaultAppended(schema, m, slot);
      m := m + [slot];
      more := iter.Next();
    }
    assert Defaults(schema)[..|schema|] == Defaults(schema);
  }

  lemma DefaultAppended(schema: seq<Field>, m: Message, slot: Slot)
    requires |m| < |schema| && m == Defaults(schema)[..|m|] && slot == DefaultSlot(schema[|m|], !Joined(schema, |m|))
    ensures m + [slot] == Defaults(schema)[..|m| + 1]
  {
    assert Defaults(schema)[|m|] == slot;
  }

  /** pb_decode. */
  method PbDecode(stream: IStream, schema: seq<Field>) returns (ok: bool, m: Message)
    requires stream.Valid() && SchemaOk(schema)
    modifies stream
    ensures stream.Valid() && stream.End() <= old(stream.End()) && (ok ==> stream.End() == old(stream.End()))
    ensures Outcome(ok, m, stream.Rest()) == Decode(schema, old(stream.Rest()))
    decreases stream.bytesLeft, 8
  {
    m := PbMessageSetToDefaults(schema);
    ok, m := PbDecodeNoinit(stream, schema, m);
  }

  /** The part of the field loop for a field that the iterator has found: the bookkeeping for fixed-count and
      required fields, and the field itself. */
  method DecodeKnown(stream: IStream, iter: FieldIter, fieldsSeen: array<Word>, wireType: nat, ghost st: Progress,
                     m: Message, fixField: int, fixCount: nat)
    returns (ok: bool, ghost st': Progress, m': Message, fixField': int, fixCount': nat)
    requires stream.Valid() && InLoop(iter, fieldsSeen, st, m, fixField, fixCount) && iter.pos < |iter.start|
    modifies stream, iter`pSize, fieldsSeen
    ensures stream.Valid() && stream.End() <= old(stream.End()) && (ok ==> stream.End() == old(stream.End()))
    ensures Outcome(ok, st', stream.Rest()) == Known(iter.start, iter.pos, wireType, old(stream.Rest()), st)
    ensures ok ==> InLoop(iter, fieldsSeen, st', m', fixField', fixCount')
    decreases stream.bytesLeft, 4
  {
    var i, f := iter.pos, iter.start[iter.pos];
    assert DescribesMember(iter.start, iter.layout, i);
    m', fixField', fixCount', st' := m, fixField, fixCount, st;
    ok := false;
    if f.htype.REPEATED? && iter.pSize == InStruct(iter.pData) {
      if fixField != i {
        if 0 <= fixField < |iter.start| && fixCount != iter.start[fixField].arraySize {
          return;
        }
        fixField', fixCount' := i, 0;
      }
      iter.pSize := LocalCounter;
    }
    st' := Progress(m, st.seen, fixField', fixCount');
    ghost var seen := MarkSeen(iter, fieldsSeen, st.seen);
    st' := st'.(seen := seen);
    ok, m', fixCount' := DecodeStaticField(stream, iter.start, i, wireType, st', m, fixCount');
    st' := st'.(m := m', fixCount := fixCount');
  }

  /** What the field loop of pb_decode_noinit keeps: its variables are those of `st`. */
  ghost predicate InLoop(iter: FieldIter, fieldsSeen: array<Word>, st: Progress, m: Message, fixField: int,
                         fixCount: nat)
    reads iter, fieldsSeen
  {
    && iter.Valid() && SchemaOk(iter.start)
    && st == Progress(m, st.seen, fixField, fixCount) && |m| == |iter.start|
    && Represents(fieldsSeen[..], st.seen) && Tracked(iter.start, st.seen)
    && (iter.pSize == LocalCounter ==> fixField == iter.pos)
  }

  /** The body of the field loop, for a field header that has been read. */
  method DecodeNext(stream: IStream, iter: FieldIter, fieldsSeen: array<Word>, tag: nat, wireType: nat,
                    ghost st: Progress, m: Message, fixField: int, fixCount: nat)
    returns (ok: bool, ghost st': Progress, m': Message, fixField': int, fixCount': nat)
    requires stream.Valid() && InLoop(iter, fieldsSeen, st, m, fixField, fixCount)
    modifies stream, iter, fieldsSeen
    ensures stream.Valid() && stream.End() <= old(stream.End()) && (ok ==> stream.End() == old(stream.End()))
    ensures Outcome(ok, st', stream.Rest()) == Step(iter.start, tag, wireType, old(stream.Rest()), st)
    ensures ok ==> InLoop(iter, fieldsSeen, st', m', fixField', fixCount')
    decreases stream.bytesLeft, 5
  {
    st', m', fixField', fixCount' := st, m, fixField, fixCount;
    FindNeedsTag(iter.start, tag);
    var found := iter.Find(tag);
    if !found {
      ok := stream.PbSkipField(wireType);
    } else if iter.AtEnd() {
      // The terminator of an empty message type: its bit in the bitmap is never looked at.
      var ignored;
      ok, ignored := stream.PbDecodeVarint32();
    } else {
      ok, st', m', fixField', fixCount' := DecodeKnown(stream, iter, fieldsSeen, wireType, st, m, fixField, fixCount);
    }
  }

  lemma {:induction false} FindNeedsTag(schema: seq<Field>, tag: nat)
    requires SchemaOk(schema)
    ensures tag == 0 ==> FindTag(schema, tag) == |schema|
  {
    if FindTag(schema, tag) < |schema| {
      assert FieldOk(schema[FindTag(schema, tag)]);
    }
  }

  /** One turn of the loop. */
  lemma LoopStep(schema: seq<Field>, s: Bytes, st: Progress)
    requires |st.m| == |schema|
    ensures ReadTag(s).TagError? ==> Loop(schema, s, st) == LoopError
    ensures ReadTag(s).Stop? ==> Loop(schema, s, st) == Ended(st, s != [], ReadTag(s).rest)
    ensures ReadTag(s).Header? ==>
              var p := Step(schema, ReadTag(s).tag, ReadTag(s).wireType, ReadTag(s).rest, st);
              Loop(schema, s, st) == if p.Done? then Loop(schema, p.rest, p.v) else LoopError
  {}

  /** The field loop of pb_decode_noinit. */
  method FieldLoop(stream: IStream, iter: FieldIter, fieldsSeen: array<Word>, dest: Message)
    returns (ok: bool, ghost st: Progress, m: Message, fixField: int, fixCount: nat)
    requires stream.Valid() && InLoop(iter, fieldsSeen, Start(dest), dest, -1, 0) && iter.pSize != LocalCounter
    modifies stream, iter, fieldsSeen
    ensures stream.Valid() && stream.End() <= old(stream.End()) && (ok ==> stream.End() == old(stream.End()))
    ensures var e := Loop(iter.start, old(stream.Rest()), Start(dest));
            if ok then e.Ended? && e.st == st && e.rest == stream.Rest() else e == LoopError
    ensures ok ==> InLoop(iter, fieldsSeen, st, m, fixField, fixCount)
    decreases stream.bytesLeft, 6
  {
    m, fixField, fixCount, ok := dest, -1, 0, true;
    st := Start(dest);
    while stream.bytesLeft > 0
      invariant stream.Valid() && stream.End() == old(stream.End()) && ok
      invariant InLoop(iter, fieldsSeen, st, m, fixField, fixCount)
      invariant Loop(iter.start, old(stream.Rest()), Start(dest)) == Loop(iter.start, stream.Rest(), st)
      decreases stream.bytesLeft
    {
      LoopStep(iter.start, stream.Rest(), st);
      var wireType, tag, eof;
      ok, wireType, tag, eof := stream.PbDecodeTag();
      if !ok {
        ok := eof;
        return;
      }
      ok, st, m, fixField, fixCount := DecodeNext(stream, iter, fieldsSeen, tag, wireType, st, m, fixField, fixCount);
      if !ok {
        return;
      }
    }
    LoopStep(iter.start, stream.Rest(), st);
  }

  /** pb_decode_noinit. */
  method PbDecodeNoinit(stream: IStream, schema: seq<Field>, dest: Message) returns (ok: bool, m: Message)
    requires stream.Valid() && SchemaOk(schema) && |dest| == |schema|
    modifies stream
    ensures stream.Valid() && stream.End() <= old(stream.End()) && (ok ==> stream.End() == old(stream.End()))
    ensures Outcome(ok, m, stream.Rest()) == DecodeNoinit(schema, old(stream.Rest()), dest)
    decreases stream.bytesLeft, 7
  {
    var iter, _ := Fields(schema);
    var fieldsSeen := NoneSeen();
    var fixField, fixCount;
    ghost var st;
    ok, st, m, fixField, fixCount := FieldLoop(stream, iter, fieldsSeen, dest);
    if !ok {
      return;
    }
    if 0 <= fixField < |schema| && fixCount != schema[fixField].arraySize {
      return false, m;
    }
    ok := CheckRequired(iter, fieldsSeen, st.seen);
  }
}
