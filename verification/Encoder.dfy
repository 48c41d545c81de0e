/** pb_encode.c over memory structures: every encoder writes exactly the bytes of module WireFormat. */
module Encoder {
  import opened Config
  import opened Wrappers
  import opened Schema
  import opened Varint
  import opened Streams
  import opened OutputStreams
  import opened WireFormat
  import opened FieldIterator

  // ----- Structures of the described C type -----

  /** An item that its C type can hold. */
  predicate ValTyped(f: Field, v: Val)
    decreases f, 0
  {
    match f.ltype
    case BOOL => v.IntVal?
    case VARINT => v.IntVal? && InSigned(v.n, f.dataSize)
    case UVARINT => v.IntVal? && InUnsigned(v.n, f.dataSize)
    case SVARINT => v.IntVal? && InSigned(v.n, f.dataSize)
    case FIXED32 => v.IntVal? && InUnsigned(v.n, 4)
    case FIXED64 => v.IntVal? && InUnsigned(v.n, 8)
    case BYTES => v.BytesVal? && |v.b| <= SIZE_MAX
    case STRING => v.BytesVal?
    case SUBMESSAGE => v.MsgVal? && Typed(f.sub, v.m)
    case EXTENSION => false
    case FIXED_LENGTH_BYTES => v.BytesVal? && |v.b| == f.dataSize
  }

  predicate SlotTyped(schema: seq<Field>, i: nat, slot: Slot)
    requires i < |schema|
    decreases schema, 0
  {
    var f := schema[i];
    match f.htype
    case REQUIRED => slot.Single? && ValTyped(f, slot.v)
    case OPTIONAL =>
      if f.sizeOffset == 0 then slot.Single? && ValTyped(f, slot.v) else slot.Opt? && (slot.has ==> ValTyped(f, slot.v))
    case REPEATED =>
      && slot.Rep?
      && (f.sizeOffset == 0 ==> |slot.items| == f.arraySize)
      && forall k | 0 <= k < |slot.items| :: ValTyped(f, slot.items[k])
    case ONEOF =>
      if Joined(schema, i) then slot.Member?
      else
        slot.Union? && forall j | 0 <= j < |schema| ::
          Leader(schema, j) == i && schema[j].tag == slot.which ==> ValTyped(schema[j], slot.v)
  }

  /** The structure has the C type that the descriptors describe: nothing is said of counts or `which_`. */
  predicate Typed(schema: seq<Field>, m: Message)
    decreases schema, 1
  {
    |m| == |schema| && forall i | 0 <= i < |schema| :: SlotTyped(schema, i, m[i])
  }

  lemma {:induction false} AppendUnit(t: Option<Bytes>)
    ensures Append(Some([]), t) == t
  {
    if t.Some? { assert [] + t.value == t.value; }
  }

  lemma {:induction false} AppendAssoc(a: Bytes, b: Bytes, t: Option<Bytes>)
    ensures Append(Some(a), Append(Some(b), t)) == Append(Some(a + b), t)
  {
    if t.Some? { assert a + (b + t.value) == a + b + t.value; }
  }

  /** Structures in normal form are among them. */
  lemma {:induction false} NormalFormTyped(schema: seq<Field>, m: Message)
    requires SchemaOk(schema) && NormalForm(schema, m)
    ensures Typed(schema, m)
    decreases schema, 1
  {
    forall i | 0 <= i < |schema| ensures SlotTyped(schema, i, m[i]) {
      assert SlotOk(schema, i, m[i]) && FieldOk(schema[i]);
      NormalSlotTyped(schema, i, m[i]);
    }
  }

  lemma {:induction false} NormalSlotTyped(schema: seq<Field>, i: nat, slot: Slot)
    requires SchemaOk(schema) && i < |schema| && SlotOk(schema, i, slot)
    ensures SlotTyped(schema, i, slot)
    decreases schema, 0
  {
    var f := schema[i];
    assert FieldOk(f);
    match f.htype
    case REQUIRED =>
      NormalValTyped(f, slot.v);
    case OPTIONAL =>
      if slot.Single? || slot.has {
        NormalValTyped(f, slot.v);
      }
    case REPEATED =>
      forall k | 0 <= k < |slot.items| ensures ValTyped(f, slot.items[k]) {
        NormalValTyped(f, slot.items[k]);
      }
    case ONEOF =>
      if slot.Union? {
        forall j | 0 <= j < |schema| && Leader(schema, j) == i && schema[j].tag == slot.which
          ensures ValTyped(schema[j], slot.v)
        {
          assert FieldOk(schema[j]);
          FindTagAt(schema, j);
          NormalValTyped(schema[j], slot.v);
        }
      }
  }

  lemma {:induction false} NormalValTyped(f: Field, v: Val)
    requires FieldOk(f) && ValOk(f, v)
    ensures ValTyped(f, v)
    decreases f, 0
  {
    if f.ltype.SUBMESSAGE? {
      NormalFormTyped(f.sub, v.m);
    }
  }

  lemma Concatenated(a: Bytes, b: Bytes, c: Bytes)
    ensures a + b + c == a + (b + c) && (a + b)[..|a|] == a && a <= a + b
  {}

  // ----- Encoders of one item -----

  /** The loop of pb_enc_string that stands for strnlen. */
  method StrnLen(b: Bytes, maxSize: nat) returns (size: nat)
    ensures size <= |b| && CString(b, maxSize) == b[..size]
  {
    size := 0;
    while size < maxSize && size < |b| && b[size] != 0
      invariant size <= maxSize && size <= |b| && forall k | 0 <= k < size :: b[k] != 0
    {
      size := size + 1;
    }
    CStringAt(b, maxSize, size);
  }

  lemma {:induction false} CStringAt(b: Bytes, max: nat, size: nat)
    requires size <= max && size <= |b| && forall k | 0 <= k < size :: b[k] != 0
    requires size == max || size == |b| || b[size] == 0
    ensures CString(b, max) == b[..size]
  {
    if size > 0 {
      CStringAt(b[1..], max - 1, size - 1);
      assert b[..size] == [b[0]] + b[1..][..size - 1];
    }
  }

  /** The width that decides how a number is loaded from the structure; only integers can have an invalid one. */
  function Width(f: Field): nat {
    if f.ltype.VARINT? || f.ltype.UVARINT? || f.ltype.SVARINT? then f.dataSize else if f.ltype.FIXED64? then 8 else 4
  }

  /** One number; the data_size of an integer that is not 1, 2, 4 or 8 is refused. */
  method EncodeNumber(stream: OStream, f: Field, v: Val) returns (ok: bool)
    requires stream.Valid() && Packable(f.ltype) && v.IntVal? && (IntSize(Width(f)) ==> ValTyped(f, v))
    modifies stream, stream.buf
    ensures stream.Wrote(ok, EncVal(f, v))
  {
    if !IntSize(Width(f)) {
      return false;
    }
    match f.ltype
    case BOOL =>
      ok := stream.PbEncodeVarint(if v.n != 0 then 1 else 0);
    case VARINT =>
      ok := stream.PbEncodeVarint(Unsigned64(v.n));
    case UVARINT =>
      ok := stream.PbEncodeVarint(v.n);
    case SVARINT =>
      ok := stream.PbEncodeSvarint(v.n);
    case FIXED32 =>
      ok := stream.PbEncodeFixed32(v.n);
    case FIXED64 =>
      ok := stream.PbEncodeFixed64(v.n);
  }

  method EncodeValue(stream: OStream, f: Field, v: Val) returns (ok: bool)
    requires stream.Valid() && FieldOk(f) && ValTyped(f, v)
    modifies stream, stream.buf
    ensures stream.Wrote(ok, EncVal(f, v))
    decreases f, 0
  {
    match f.ltype
    case BYTES =>
      if |v.b| + SIZE_BYTES > f.dataSize {
        ok := false;
      } else {
        ok := stream.PbEncodeString(v.b);
      }
    case STRING =>
      var size := StrnLen(v.b, f.dataSize);
      ok := stream.PbEncodeString(v.b[..size]);
    case SUBMESSAGE =>
      ok := PbEncodeSubmessage(stream, f.sub, v.m);
    case FIXED_LENGTH_BYTES =>
      ok := stream.PbEncodeString(v.b);
    case BOOL | VARINT | UVARINT | SVARINT | FIXED32 | FIXED64 =>
      ok := EncodeNumber(stream, f, v);
  }

  /** pb_get_encoded_size: the sizing pass succeeds exactly on what can be encoded, and counts its bytes. */
  method PbGetEncodedSize(schema: seq<Field>, m: Message) returns (ok: bool, size: nat)
    requires SchemaOk(schema) && Typed(schema, m)
    ensures ok == Encode(schema, m).Some?
    ensures ok ==> size == |Encode(schema, m).value|
    decreases schema, 4
  {
    var stream := new OStream.Sizing();
    ok := PbEncode(stream, schema, m);
    size := stream.bytesWritten;
  }

  /** The second pass of pb_encode_submessage, into a substream limited to `size` bytes.  It writes what the
      sizing pass counted, so the check for a changed size never fails. */
  method WriteSubmessage(stream: OStream, schema: seq<Field>, m: Message, size: nat) returns (ok: bool)
    requires stream.Valid() && !stream.sizing && SchemaOk(schema) && Typed(schema, m)
    requires Encode(schema, m).Some? && size == |Encode(schema, m).value|
    modifies stream, stream.buf
    ensures stream.Emitted(ok, Encode(schema, m).value)
    decreases schema, 4
  {
    if stream.bytesWritten + size > stream.maxSize {
      return false;
    }
    var substream := new OStream.Substream(stream, size);
    var status := PbEncode(substream, schema, m);
    assert status && substream.bytesWritten == size;
    stream.bytesWritten := stream.bytesWritten + substream.bytesWritten;
    stream.state := substream.state;
    return status && substream.bytesWritten == size;
  }

  /** pb_encode_submessage. */
  method PbEncodeSubmessage(stream: OStream, schema: seq<Field>, m: Message) returns (ok: bool)
    requires stream.Valid() && SchemaOk(schema) && Typed(schema, m)
    modifies stream, stream.buf
    ensures stream.Wrote(ok, if Encode(schema, m).Some? then Some(Delimit(Encode(schema, m).value)) else None)
    decreases schema, 5
  {
    var size;
    ok, size := PbGetEncodedSize(schema, m);
    if !ok {
      return;
    }
    ok := stream.PbEncodeVarint(size % 0x1_0000_0000_0000_0000);
    if !ok {
      return;
    }
    if stream.sizing {
      ok := stream.PbWriteNothing(size);
    } else {
      ok := WriteSubmessage(stream, schema, m, size);
    }
  }

  // ----- Fields -----

  method PbEncodeTagForField(stream: OStream, f: Field) returns (ok: bool)
    requires stream.Valid() && FieldOk(f)
    modifies stream, stream.buf
    ensures stream.Emitted(ok, FieldTag(f))
  {
    var wireType;
    match f.ltype {
      case BOOL => wireType := WT_VARINT;
      case VARINT => wireType := WT_VARINT;
      case UVARINT => wireType := WT_VARINT;
      case SVARINT => wireType := WT_VARINT;
      case FIXED32 => wireType := WT_32BIT;
      case FIXED64 => wireType := WT_64BIT;
      case _ => wireType := WT_STRING;
    }
    ok := stream.PbEncodeTag(wireType, f.tag);
  }

  method EncodeTagged(stream: OStream, f: Field, v: Val) returns (ok: bool)
    requires stream.Valid() && FieldOk(f) && ValTyped(f, v)
    modifies stream, stream.buf
    ensures stream.Wrote(ok, Tagged(f, v))
    decreases f, 2
  {
    ghost var before := if stream.sizing then [] else stream.buf[..stream.state];
    ok := PbEncodeTagForField(stream, f);
    if ok {
      ok := EncodeBehind(stream, f, v, before, FieldTag(f));
    }
  }

  /** The value behind its header. */
  method EncodeBehind(stream: OStream, f: Field, v: Val, ghost before: Bytes, ghost header: Bytes) returns (ok: bool)
    requires stream.Valid() && FieldOk(f) && ValTyped(f, v)
    modifies stream, stream.buf
    ensures stream.Wrote(ok, EncVal(f, v))
    ensures var e := EncVal(f, v); e.Some? ==> before + header + e.value == before + (header + e.value)
    decreases f, 1
  {
    ok := EncodeValue(stream, f, v);
    Concatenated(before, header, if EncVal(f, v).Some? then EncVal(f, v).value else []);
  }


  lemma {:induction false} PackedLength(f: Field, items: seq<Val>, k: nat)
    requires f.ltype.FIXED32? || f.ltype.FIXED64?
    requires k <= |items| && EncPacked(f, items[k..]).Some?
    ensures |EncPacked(f, items[k..]).value| == (if f.ltype.FIXED32? then 4 else 8) * (|items| - k)
    decreases |items| - k
  {
    if k < |items| {
      assert items[k..][1..] == items[k + 1..];
      PackedLength(f, items, k + 1);
    }
  }

  lemma {:induction false} FixedAlwaysEncode(f: Field, items: seq<Val>, k: nat)
    requires f.ltype.FIXED32? || f.ltype.FIXED64?
    requires k <= |items| && forall j | 0 <= j < |items| :: ValTyped(f, items[j])
    ensures EncPacked(f, items[k..]).Some?
    decreases |items| - k
  {
    if k < |items| {
      assert items[k..][1..] == items[k + 1..];
      FixedAlwaysEncode(f, items, k + 1);
    }
  }

  /** The item loop of a packed array, which encode_array runs once to size and once to write. */
  method EncodeItems(stream: OStream, f: Field, items: seq<Val>) returns (ok: bool)
    requires stream.Valid() && FieldOk(f) && Packable(f.ltype) && forall k | 0 <= k < |items| :: ValTyped(f, items[k])
    modifies stream, stream.buf
    ensures stream.Wrote(ok, EncPacked(f, items))
    decreases f, 3
  {
    ok := true;
    ghost var done, whole := [], EncPacked(f, items);
    ghost var before := if stream.sizing then [] else stream.buf[..stream.state];
    assert items[0..] == items;
    AppendUnit(whole);
    for i := 0 to |items|
      invariant ok && stream.Emitted(true, done) && ItemsReached(f, items, i, done, whole)
    {
      ghost var e;
      ok, e := EncodeItem(stream, f, items, i, done, whole);
      Concatenated(before, done, e);
      if !ok {
        return;
      }
      done := done + e;
    }
    ItemsAllReached(f, items, done, whole);
  }

  /** The items before number `i` are encoded as `done`. */
  ghost predicate ItemsReached(f: Field, items: seq<Val>, i: nat, done: Bytes, whole: Option<Bytes>) {
    i <= |items| && whole == Append(Some(done), EncPacked(f, items[i..]))
  }

  lemma ItemsAllReached(f: Field, items: seq<Val>, done: Bytes, whole: Option<Bytes>)
    requires ItemsReached(f, items, |items|, done, whole)
    ensures whole == Some(done)
  {
    assert done + [] == done;
  }

  lemma {:induction false} NextItemReached(f: Field, items: seq<Val>, i: nat, done: Bytes, whole: Option<Bytes>)
    requires i < |items| && ItemsReached(f, items, i, done, whole)
    ensures var e := EncVal(f, items[i]);
            if e.None? then whole == None
            else
              && ItemsReached(f, items, i + 1, done + e.value, whole)
              && (whole.Some? ==> |whole.value| >= |done| + |e.value|)
  {
    assert items[i..][0] == items[i] && items[i..][1..] == items[i + 1..];
    var e := EncVal(f, items[i]);
    if e.Some? {
      AppendAssoc(done, e.value, EncPacked(f, items[i + 1..]));
    }
  }

  /** One item of the loop: if it fails there is no encoding, or it does not fit. */
  method EncodeItem(stream: OStream, f: Field, items: seq<Val>, i: nat, ghost done: Bytes, ghost whole: Option<Bytes>)
    returns (ok: bool, ghost e: Bytes)
    requires stream.Valid() && FieldOk(f) && i < |items| && ValTyped(f, items[i])
    requires ItemsReached(f, items, i, done, whole)
    modifies stream, stream.buf
    ensures stream.Wrote(ok, if whole.None? && !ok then None else Some(e))
    ensures ok ==> ItemsReached(f, items, i + 1, done + e, whole)
    ensures !ok && whole.Some? ==> |whole.value| >= |done| + |e|
    decreases f, 2
  {
    NextItemReached(f, items, i, done, whole);
    ok := EncodeValue(stream, f, items[i]);
    e := if EncVal(f, items[i]).Some? then EncVal(f, items[i]).value else [];
  }

  /** The size of a packed array: known for fixed-width types, otherwise by a sizing pass. */
  method PackedSize(f: Field, items: seq<Val>) returns (ok: bool, size: nat)
    requires FieldOk(f) && Packable(f.ltype) && forall k | 0 <= k < |items| :: ValTyped(f, items[k])
    ensures ok == EncPacked(f, items).Some?
    ensures ok ==> size == |EncPacked(f, items).value|
    decreases f, 4
  {
    ok, size := true, 0;
    assert items[0..] == items;
    if f.ltype.FIXED32? || f.ltype.FIXED64? {
      FixedAlwaysEncode(f, items, 0);
      PackedLength(f, items, 0);
    }
    if f.ltype.FIXED32? {
      size := 4 * |items|;
    } else if f.ltype.FIXED64? {
      size := 8 * |items|;
    } else {
      var sizestream := new OStream.Sizing();
      ok := EncodeItems(sizestream, f, items);
      size := sizestream.bytesWritten;
    }
  }

  /** The size and the items of a packed array. */
  method EncodePayload(stream: OStream, f: Field, items: seq<Val>) returns (ok: bool)
    requires stream.Valid() && FieldOk(f) && Packable(f.ltype) && forall k | 0 <= k < |items| :: ValTyped(f, items[k])
    modifies stream, stream.buf
    ensures var p := EncPacked(f, items); stream.Wrote(ok, if p.Some? then Some(Delimit(p.value)) else None)
    decreases f, 5
  {
    var size;
    ok, size := PackedSize(f, items);
    if !ok {
      return;
    }
    ok := stream.PbEncodeVarint(size % 0x1_0000_0000_0000_0000);
    if !ok {
      return;
    }
    if stream.sizing {
      ok := stream.PbWriteNothing(size);
    } else {
      ok := EncodeItems(stream, f, items);
    }
  }

  method EncodePacked(stream: OStream, f: Field, items: seq<Val>) returns (ok: bool)
    requires stream.Valid() && FieldOk(f) && Packable(f.ltype) && forall k | 0 <= k < |items| :: ValTyped(f, items[k])
    modifies stream, stream.buf
    ensures var p := EncPacked(f, items);
            stream.Wrote(ok, if p.Some? then Some(EncTag(WT_STRING, f.tag) + Delimit(p.value)) else None)
    decreases f, 6
  {
    ok := stream.PbEncodeTag(WT_STRING, f.tag);
    if ok {
      ok := EncodePayload(stream, f, items);
    }
  }

  method EncodeUnpacked(stream: OStream, f: Field, items: seq<Val>) returns (ok: bool)
    requires stream.Valid() && FieldOk(f) && forall k | 0 <= k < |items| :: ValTyped(f, items[k])
    modifies stream, stream.buf
    ensures stream.Wrote(ok, EncUnpacked(f, items))
    decreases f, 5
  {
    ok := true;
    ghost var done := [];
    assert items[0..] == items;
    AppendUnit(EncUnpacked(f, items));
    for i := 0 to |items|
      invariant ok && stream.Emitted(true, done)
      invariant EncUnpacked(f, items) == Append(Some(done), EncUnpacked(f, items[i..]))
    {
      assert items[i..][1..] == items[i + 1..];
      ok := EncodeTagged(stream, f, items[i]);
      if !ok {
        return;
      }
      AppendAssoc(done, Tagged(f, items[i]).value, EncUnpacked(f, items[i + 1..]));
      done := done + Tagged(f, items[i]).value;
    }
  }

  /** encode_array. */
  method EncodeArray(stream: OStream, f: Field, items: seq<Val>) returns (ok: bool)
    requires stream.Valid() && FieldOk(f) && forall k | 0 <= k < |items| :: ValTyped(f, items[k])
    modifies stream, stream.buf
    ensures stream.Wrote(ok, EncArray(f, items))
    decreases f, 7
  {
    if |items| == 0 {
      return true;
    }
    if |items| > f.arraySize {
      return false;
    }
    if Packable(f.ltype) {
      ok := EncodePacked(stream, f, items);
    } else {
      ok := EncodeUnpacked(stream, f, items);
    }
  }

  /** pb_check_proto3_default_value. */
  method PbCheckProto3DefaultValue(schema: seq<Field>, i: nat, m: Message) returns (isDefault: bool)
    requires SchemaOk(schema) && Typed(schema, m) && i < |schema|
    ensures isDefault == IsProto3Default(schema, i, m)
    decreases schema, 0
  {
    var f := schema[i];
    assert FieldOk(f) && SlotTyped(schema, i, m[i]);
    if f.htype.REQUIRED? {
      return false;
    } else if f.htype.REPEATED? {
      return f.sizeOffset != 0 && |m[i].items| == 0;
    } else if f.htype.ONEOF? {
      assert SlotTyped(schema, Leader(schema, i), m[Leader(schema, i)]);
      return m[Leader(schema, i)].which == 0;
    } else if f.sizeOffset != 0 {
      return !m[i].has;
    }
    var v := m[i].v;
    match f.ltype {
      case BYTES =>
        return |v.b| == 0;
      case STRING =>
        // The first character is the terminator; an empty array has none.
        return |v.b| == 0 || f.dataSize == 0 || v.b[0] == 0;
      case FIXED_LENGTH_BYTES =>
        return f.dataSize == 0;
      case SUBMESSAGE =>
        isDefault := AllProto3Default(f.sub, v.m);
      case _ =>
        return v == IntVal(0);
    }
  }

  /** The loop of pb_check_proto3_default_value over the fields of a submessage. */
  method AllProto3Default(schema: seq<Field>, m: Message) returns (isDefault: bool)
    requires SchemaOk(schema) && Typed(schema, m)
    ensures isDefault == AllZero(schema, m)
    decreases schema, 1
  {
    var iter, more := Fields(schema);
    while more
      invariant iter.Valid() && iter.start == schema
      invariant more ==> iter.pos < |schema| && forall j | 0 <= j < iter.pos :: IsProto3Default(schema, j, m)
      invariant !more ==> forall j | 0 <= j < |schema| :: IsProto3Default(schema, j, m)
      decreases more, |schema| - iter.pos
    {
      isDefault := PbCheckProto3DefaultValue(schema, iter.pos, m);
      if !isDefault {
        return;
      }
      more := iter.Next();
    }
    return true;
  }

  /** encode_field. */
  method EncodeField(stream: OStream, schema: seq<Field>, m: Message, i: nat) returns (ok: bool)
    requires stream.Valid() && SchemaOk(schema) && Typed(schema, m) && i < |schema|
    modifies stream, stream.buf
    ensures stream.Wrote(ok, EncField(schema, m, i))
    decreases schema, 0
  {
    var f, slot := schema[i], m[i];
    assert FieldOk(f) && SlotTyped(schema, i, slot);
    match f.htype
    case REQUIRED =>
      ok := EncodeTagged(stream, f, slot.v);
    case OPTIONAL =>
      var has: bool;
      if f.sizeOffset != 0 {
        has := slot.has;
      } else {
        var implicit := PbCheckProto3DefaultValue(schema, i, m);
        has := !implicit;
      }
      ok := true;
      if has {
        ok := EncodeTagged(stream, f, slot.v);
      }
    case REPEATED =>
      ok := EncodeArray(stream, f, slot.items);
    case ONEOF =>
      var u := m[Leader(schema, i)];
      assert SlotTyped(schema, Leader(schema, i), u);
      ok := true;
      if u.which == f.tag {
        ok := EncodeTagged(stream, f, u.v);
      }
  }

  /** The fields before position `i` are encoded as `done`. */
  ghost predicate Reached(schema: seq<Field>, m: Message, i: nat, done: Bytes, whole: Option<Bytes>)
    requires |m| == |schema|
  {
    i <= |schema| && whole == Append(Some(done), EncFrom(schema, m, i))
  }

  lemma {:induction false} NextReached(schema: seq<Field>, m: Message, i: nat, done: Bytes, whole: Option<Bytes>)
    requires |m| == |schema| && i < |schema| && Reached(schema, m, i, done, whole)
    ensures var e := EncField(schema, m, i);
            if e.None? then whole == None
            else
              && Reached(schema, m, i + 1, done + e.value, whole)
              && (whole.Some? ==> |whole.value| >= |done| + |e.value|)
  {
    var e := EncField(schema, m, i);
    if e.Some? {
      AppendAssoc(done, e.value, EncFrom(schema, m, i + 1));
    }
  }

  lemma AllReached(schema: seq<Field>, m: Message, done: Bytes, whole: Option<Bytes>)
    requires |m| == |schema| && Reached(schema, m, |schema|, done, whole)
    ensures whole == Some(done)
  {
    assert done + [] == done;
  }

  /** pb_encode. */
  method PbEncode(stream: OStream, schema: seq<Field>, m: Message) returns (ok: bool)
    requires stream.Valid() && SchemaOk(schema) && Typed(schema, m)
    modifies stream, stream.buf
    ensures stream.Wrote(ok, Encode(schema, m))
    decreases schema, 3
  {
    ok := EncodeFields(stream, schema, m, Encode(schema, m));
  }

  method EncodeFields(stream: OStream, schema: seq<Field>, m: Message, ghost whole: Option<Bytes>) returns (ok: bool)
    requires stream.Valid() && SchemaOk(schema) && Typed(schema, m) && whole == EncFrom(schema, m, 0)
    modifies stream, stream.buf
    ensures stream.Wrote(ok, whole)
    decreases schema, 2
  {
    var iter, more := Fields(schema);
    ghost var done, i: nat := [], 0;
    ghost var before := if stream.sizing then [] else stream.buf[..stream.state];
    AppendUnit(whole);
    ok := true;
    while more
      invariant iter.Valid() && iter.start == schema && fresh(iter)
      invariant if more then i == iter.pos < |schema| else i == |schema|
      invariant stream.Emitted(true, done) && Reached(schema, m, i, done, whole)
      decreases |schema| - i
    {
      ghost var e;
      ok, e := EncodeNext(stream, schema, m, iter.pos, done, whole);
      Concatenated(before, done, e);
      if !ok {
        return;
      }
      done, i := done + e, i + 1;
      more := iter.Next();
    }
    AllReached(schema, m, done, whole);
  }

  /** One field of the loop: if it fails there is no encoding, or it does not fit. */
  method EncodeNext(stream: OStream, schema: seq<Field>, m: Message, i: nat, ghost done: Bytes,
                    ghost whole: Option<Bytes>)
    returns (ok: bool, ghost e: Bytes)
    requires stream.Valid() && SchemaOk(schema) && Typed(schema, m)
    requires i < |schema| && Reached(schema, m, i, done, whole)
    modifies stream, stream.buf
    ensures stream.Wrote(ok, if whole.None? && !ok then None else Some(e))
    ensures ok ==> Reached(schema, m, i + 1, done + e, whole)
    ensures !ok && whole.Some? ==> |whole.value| >= |done| + |e|
    decreases schema, 1
  {
    NextReached(schema, m, i, done, whole);
    ok := EncodeField(stream, schema, m, i);
    e := if EncField(schema, m, i).Some? then EncField(schema, m, i).value else [];
  }
}
