/** Which bytes stand for which item, number by number: what the encoder writes and the decoder takes, and the ranges
    that they check. */
module Items {
  import opened Config
  import opened Schema
  import opened Varint
  import opened Streams
  import opened OutputStreams
  import opened WireFormat
  import opened WireReader
  import opened RoundTrip

  /** The C integer types of one, two, four and eight bytes. */
  predicate IsSigned(x: int, size: nat) {
    || (size == 1 && -0x80 <= x < 0x80)
    || (size == 2 && -0x8000 <= x < 0x8000)
    || (size == 4 && -0x8000_0000 <= x < 0x8000_0000)
    || (size == 8 && -0x8000_0000_0000_0000 <= x < 0x8000_0000_0000_0000)
  }

  predicate IsUnsigned(x: int, size: nat) {
    || (size == 1 && 0 <= x < 0x100)
    || (size == 2 && 0 <= x < 0x1_0000)
    || (size == 4 && 0 <= x < 0x1_0000_0000)
    || (size == 8 && 0 <= x < 0x1_0000_0000_0000_0000)
  }

  // ----- Tags and lengths -----

  /** A tag is a varint: the field number, and three bits of wire type. */
  lemma {:induction false} TagExactly(s: Bytes, tag: nat, wireType: nat, rest: Bytes)
    requires s != []
    ensures ReadTag(s) == Header(tag, wireType, rest)
            <==> 0 < 8 * tag + wireType && wireType < 8 && Varint32(s) == Done(8 * tag + wireType, rest)
    ensures ReadTag(s) == Stop(rest) <==> Varint32(s) == Done(0, rest)
  {}

  lemma {:induction false} DelimitedExactly(s: Bytes, b: Bytes, rest: Bytes)
    ensures Delimited(s) == Done(b, rest) <==> Varint32(s) == Done(|b|, b + rest)
  {
    var p := Varint32(s);
    if p == Done(|b|, b + rest) {
      assert p.rest[..|b|] == b && p.rest[|b|..] == rest;
    }
    if Delimited(s) == Done(b, rest) {
      assert p.rest == p.rest[..p.v] + p.rest[p.v..];
    }
  }

  /** An unknown field is passed over if it is complete and of one of the four wire types. */
  lemma {:induction false} SkipExactly(wireType: nat, s: Bytes)
    ensures Skip(wireType, s).Done?
            <==> || (wireType == 0 && VarintLen(s) > 0)
                 || (wireType == 1 && |s| >= 8)
                 || (wireType == 2 && Delimited(s).Done?)
                 || (wireType == 5 && |s| >= 4)
    ensures Skip(wireType, s).Done? ==>
              Skip(wireType, s).rest
              == s[if wireType == 0 then VarintLen(s) else if wireType == 1 then 8
                   else if wireType == 5 then 4 else |s| - |Delimited(s).rest|..]
  {
    if wireType == 2 && Delimited(s).Done? {
      Varint32Uses(s);
      var n, size := VarintLen(s), Varint32(s).v;
      assert s[n..][size..] == s[n + size..];
    }
  }

  /** A varint without superfluous bytes. */
  predicate Shortest(e: Bytes, w: nat) {
    e != [] && VarintLen(e) == |e| && Value(e) == w && (|e| > 1 ==> e[|e| - 1] != 0)
  }

  lemma {:induction false} EncVarintShortest(w: nat)
    ensures Shortest(EncVarint(w), w)
  {
    EncVarintParses(w);
    EncVarintBytes(w, |EncVarint(w)| - 1);
  }

  lemma {:induction false} TagShortest(wireType: nat, tag: nat)
    ensures Shortest(EncTag(wireType, tag), 8 * tag + wireType)
  {
    EncVarintShortest(8 * tag + wireType);
  }

  // ----- Numbers -----

  /** The varint that `s` starts with has at most ten bytes, and the value `w` in 64 bits. */
  predicate Starts(s: Bytes, w: nat) {
    1 <= VarintLen(s) <= 10 && w == Value(s[..VarintLen(s)]) % 0x1_0000_0000_0000_0000
  }

  function Low32(s: Bytes): nat
    requires |s| >= 4
  {
    var a: nat, b: nat, c: nat, d: nat := s[0], s[1], s[2], s[3];
    a + 0x100 * b + 0x1_0000 * c + 0x100_0000 * d
  }

  /** `s` starts with the number `x`, as a field of this type has it.  Signed numbers of up to four bytes are cut off at
      32 bits before they are checked; the others count in full. */
  predicate StandsFor(f: Field, s: Bytes, x: int) {
    match f.ltype
    case BOOL => Varint32(s).Done? && x == if Varint32(s).v == 0 then 0 else 1
    case VARINT =>
      && IsSigned(x, f.dataSize) && 1 <= VarintLen(s) <= 10
      && (Value(s[..VarintLen(s)]) - x) % (if f.dataSize == 8 then 0x1_0000_0000_0000_0000 else 0x1_0000_0000) == 0
    case UVARINT => IsUnsigned(x, f.dataSize) && Starts(s, x)
    case SVARINT => IsSigned(x, f.dataSize) && Starts(s, if x < 0 then -2 * x - 1 else 2 * x)
    case FIXED32 => |s| >= 4 && x == Low32(s)
    case FIXED64 => |s| >= 8 && x == Low32(s) + 0x1_0000_0000 * Low32(s[4..])
    case _ => false
  }

  /** The decoder takes a number exactly if there is one in range, and uses exactly its bytes. */
  lemma {:induction false} NumberExactly(f: Field, s: Bytes, prev: Val, x: int)
    requires Packable(f.ltype)
    ensures DecVal(f, s, prev) == Done(IntVal(x), s[NumberLen(f, s)..]) <==> StandsFor(f, s, x)
    ensures DecVal(f, s, prev).Done? ==> StandsFor(f, s, DecVal(f, s, prev).v.n)
  {
    if DecVal(f, s, prev).Done? {
      NumberUses(f, s, prev);
      TakenStands(f, s, prev);
    }
    if StandsFor(f, s, x) {
      StandsTaken(f, s, prev, x);
    }
  }

  lemma {:induction false} TakenStands(f: Field, s: Bytes, prev: Val)
    requires Packable(f.ltype) && DecVal(f, s, prev).Done?
    ensures DecVal(f, s, prev).v.IntVal? && StandsFor(f, s, DecVal(f, s, prev).v.n)
  {
    match f.ltype
    case BOOL =>
    case VARINT =>
      SignedTaken(Value(s[..VarintLen(s)]), f.dataSize, Convert(f, Varint64(s).v).value);
    case UVARINT => assert Starts(s, Varint64(s).v);
    case SVARINT => assert Starts(s, Varint64(s).v);
    case FIXED32 => FourBytesSum(s[..4]);
    case FIXED64 => EightBytesSum(s);
  }

  lemma SignedTaken(v: nat, size: nat, x: int)
    requires IntSize(size) && InSigned(x, size)
    requires var w := v % 0x1_0000_0000_0000_0000;
             x == if size == 8 then Signed(w, 0x1_0000_0000_0000_0000) else Signed(w, 0x1_0000_0000)
    ensures IsSigned(x, size) && (v - x) % (if size == 8 then 0x1_0000_0000_0000_0000 else 0x1_0000_0000) == 0
  {
    ModMod(v);
  }

  lemma SignedUnique(v: nat, size: nat, x: int)
    requires IsSigned(x, size) && (v - x) % (if size == 8 then 0x1_0000_0000_0000_0000 else 0x1_0000_0000) == 0
    ensures IntSize(size) && InSigned(x, size)
    ensures var w := v % 0x1_0000_0000_0000_0000;
            x == if size == 8 then Signed(w, 0x1_0000_0000_0000_0000) else Signed(w, 0x1_0000_0000)
  {
    if size == 8 {
      SameRemainder64(v, x);
    } else {
      SameRemainder32(v, x);
      ModMod(v);
    }
  }

  lemma SameRemainder64(v: nat, x: int)
    requires (v - x) % 0x1_0000_0000_0000_0000 == 0
    ensures -0x8000_0000_0000_0000 <= x < 0x8000_0000_0000_0000 ==>
              v % 0x1_0000_0000_0000_0000 == if x < 0 then x + 0x1_0000_0000_0000_0000 else x
  {}

  lemma SameRemainder32(v: nat, x: int)
    requires (v - x) % 0x1_0000_0000 == 0
    ensures -0x8000_0000 <= x < 0x8000_0000 ==> v % 0x1_0000_0000 == if x < 0 then x + 0x1_0000_0000 else x
  {}

  lemma {:induction false} StandsTaken(f: Field, s: Bytes, prev: Val, x: int)
    requires Packable(f.ltype) && StandsFor(f, s, x)
    ensures DecVal(f, s, prev).Done? && DecVal(f, s, prev).v == IntVal(x)
    ensures DecVal(f, s, prev).rest == s[NumberLen(f, s)..]
  {
    match f.ltype
    case BOOL => Varint32Uses(s);
    case VARINT => SignedUnique(Value(s[..VarintLen(s)]), f.dataSize, x);
    case UVARINT =>
    case SVARINT =>
    case FIXED32 => FourBytesSum(s[..4]);
    case FIXED64 => EightBytesSum(s);
  }

  lemma FourBytesSum(s: Bytes)
    requires |s| == 4
    ensures FromLittleEndian(s) == Low32(s)
  {
    var s1, s2, s3 := s[1..], s[2..], s[3..];
    assert s1[1..] == s2 && s2[1..] == s3 && s3[1..] == [];
    assert FromLittleEndian(s3) == s[3] && FromLittleEndian(s2) == s[2] + 256 * FromLittleEndian(s3);
  }

  lemma {:induction false} EightBytesSum(s: Bytes)
    requires |s| >= 8
    ensures FromLittleEndian(s[..8]) == Low32(s) + 0x1_0000_0000 * Low32(s[4..])
  {
    LittleEndianConcat(s[..4], s[4..8]);
    assert s[..8] == s[..4] + s[4..8];
    FourBytesSum(s[..4]);
    FourBytesSum(s[4..8]);
  }

  lemma LittleEndianConcat(a: Bytes, b: Bytes)
    requires |a| == 4
    ensures FromLittleEndian(a + b) == FromLittleEndian(a) + 0x1_0000_0000 * FromLittleEndian(b)
  {
    var s := a + b;
    assert s[4..] == b && s[0] == a[0] && s[1] == a[1] && s[2] == a[2] && s[3] == a[3];
    var s1, s2, s3 := s[1..], s[2..], s[3..];
    assert s1[1..] == s2 && s2[1..] == s3 && s3[1..] == b;
    assert FromLittleEndian(s3) == s[3] + 256 * FromLittleEndian(b);
    assert FromLittleEndian(s2) == s[2] + 256 * FromLittleEndian(s3);
    FourBytesSum(a);
  }

  /** What the encoder writes for a number that is in range; it refuses any other. */
  predicate Represents(f: Field, x: int, e: Bytes) {
    match f.ltype
    case BOOL => Shortest(e, if x != 0 then 1 else 0)
    case VARINT => IsSigned(x, 8) && Shortest(e, if x < 0 then x + 0x1_0000_0000_0000_0000 else x)
    case UVARINT => x >= 0 && Shortest(e, x)
    case SVARINT => Shortest(e, if x < 0 then -2 * x - 1 else 2 * x)
    case FIXED32 => |e| == 4 && Low32(e) == x
    case FIXED64 => |e| == 8 && Low32(e) + 0x1_0000_0000 * Low32(e[4..]) == x
    case _ => false
  }

  predicate InRange(f: Field, x: int) {
    match f.ltype
    case BOOL => true
    case VARINT => IsSigned(x, f.dataSize)
    case UVARINT => IsUnsigned(x, f.dataSize)
    case SVARINT => IsSigned(x, f.dataSize)
    case FIXED32 => IsUnsigned(x, 4)
    case FIXED64 => IsUnsigned(x, 8)
    case _ => false
  }

  /** Negative numbers of a plain integer type take ten bytes, whatever their size is. */
  lemma {:induction false} NumberEncoded(f: Field, x: int)
    requires Packable(f.ltype)
    ensures EncVal(f, IntVal(x)).Some? <==> InRange(f, x)
    ensures EncVal(f, IntVal(x)).Some? ==> InRange(f, x) && Represents(f, x, EncVal(f, IntVal(x)).value)
  {
    match f.ltype
    case BOOL => EncVarintShortest(if x != 0 then 1 else 0);
    case VARINT =>
      if InRange(f, x) { EncVarintShortest(Unsigned64(x)); }
    case UVARINT =>
      if InRange(f, x) { EncVarintShortest(x); }
    case SVARINT =>
      if InRange(f, x) { EncVarintShortest(ZigZag(x)); }
    case FIXED32 =>
      if InRange(f, x) {
        FixedWidthRoundTrip(x, 4);
        FourBytesSum(LittleEndian(x, 4)[..4]);
      }
    case FIXED64 =>
      if InRange(f, x) {
        FixedWidthRoundTrip(x, 8);
        EightBytesSum(LittleEndian(x, 8));
      }
  }

  // ----- Strings and bytes -----

  /** How many bytes an item has room for. */
  predicate Fits(f: Field, n: nat) {
    match f.ltype
    case STRING => n + 1 <= f.dataSize
    case BYTES => n + SIZE_BYTES <= f.dataSize && n <= SIZE_MAX
    case _ => n == f.dataSize && n <= SIZE_MAX
  }

  /** The decoder takes what fits.  A fixed-length item may also come empty: then it is zeros. */
  lemma {:induction false} BlockExactly(f: Field, s: Bytes, prev: Val)
    requires f.ltype.STRING? || f.ltype.BYTES? || f.ltype.FIXED_LENGTH_BYTES?
    ensures DecVal(f, s, prev)
            == match Delimited(s)
               case Fail => Fail
               case Done(b, rest) =>
                 if b == [] && f.ltype.FIXED_LENGTH_BYTES? then Done(BytesVal(seq(f.dataSize, _ => 0)), rest)
                 else if Fits(f, |b|) then Done(BytesVal(b), rest) else Fail
  {
    var p := Varint32(s);
    if p.Done? && p.v == 0 {
      assert p.rest[..0] == [] && p.rest[0..] == p.rest;
      assert ZeroVal(f).b == seq(|ZeroVal(f).b|, _ => 0);
    }
  }

  /** The encoder writes the bytes of an item; of a string, those before its terminator or the end of its storage. */
  lemma {:induction false} BlockEncoded(f: Field, b: Bytes)
    requires f.ltype.STRING? || f.ltype.BYTES? || f.ltype.FIXED_LENGTH_BYTES?
    requires |b| < 0x1_0000_0000
    ensures EncVal(f, BytesVal(b)).Some?
            <==> && (f.ltype.BYTES? ==> |b| + SIZE_BYTES <= f.dataSize)
                 && (f.ltype.FIXED_LENGTH_BYTES? ==> |b| == f.dataSize)
    ensures EncVal(f, BytesVal(b)).Some? ==>
              var d := Delimited(EncVal(f, BytesVal(b)).value);
              if f.ltype.STRING? then
                d.Done? && d.rest == [] && d.v <= b && 0 !in d.v && |d.v| <= f.dataSize
                && (|d.v| == |b| || |d.v| == f.dataSize || b[|d.v|] == 0)
              else d == Done(b, [])
  {
    if f.ltype.STRING? {
      CStringEnds(b, f.dataSize);
      DelimitRoundTrip(CString(b, f.dataSize));
    } else {
      DelimitRoundTrip(b);
    }
  }

  lemma {:induction false} CStringEnds(b: Bytes, max: nat)
    ensures var c := CString(b, max);
            c <= b && 0 !in c && |c| <= max && (|c| == |b| || |c| == max || b[|c|] == 0)
  {
    if b != [] && max != 0 && b[0] != 0 {
      CStringEnds(b[1..], max - 1);
    }
  }

  // ----- Structures -----

  /** An item that can be written. */
  predicate ItemSendable(f: Field, v: Val)
    decreases f, 0
  {
    match v
    case IntVal(n) => InRange(f, n)
    case BytesVal(b) =>
      || f.ltype.STRING?
      || (f.ltype.BYTES? && |b| + SIZE_BYTES <= f.dataSize)
      || (f.ltype.FIXED_LENGTH_BYTES? && |b| == f.dataSize)
    case MsgVal(m) => f.ltype.SUBMESSAGE? && Sendable(f.sub, m)
  }

  /** Every array is within its bounds, and every item that is to be written can be. */
  predicate Sendable(schema: seq<Field>, m: Message)
    decreases schema, 1
  {
    |m| == |schema| && forall i | 0 <= i < |schema| :: FieldSendable(schema, m, i)
  }

  predicate FieldSendable(schema: seq<Field>, m: Message, i: nat)
    requires i < |schema| == |m|
    decreases schema, 0
  {
    var f, slot := schema[i], m[i];
    match f.htype
    case REQUIRED => slot.Single? && ItemSendable(f, slot.v)
    case OPTIONAL =>
      if f.sizeOffset != 0 then slot.Opt? && (slot.has ==> ItemSendable(f, slot.v))
      else slot.Single? && (IsZero(f, slot.v) || ItemSendable(f, slot.v))
    case REPEATED =>
      && slot.Rep?
      && (if f.sizeOffset == 0 then |slot.items| == f.arraySize else |slot.items| <= f.arraySize)
      && forall k | 0 <= k < |slot.items| :: ItemSendable(f, slot.items[k])
    case ONEOF =>
      var u := m[Leader(schema, i)];
      u.Union? && (u.which == f.tag ==> ItemSendable(f, u.v))
  }

  /** pb_encode succeeds, given the room, exactly for the structures that are within their bounds. */
  lemma {:induction false} EncodesExactly(schema: seq<Field>, m: Message)
    ensures Encode(schema, m).Some? <==> Sendable(schema, m)
    decreases schema, 3
  {
    if |m| == |schema| {
      forall i | 0 <= i < |schema| ensures Encodable(schema, m, i) <==> FieldSendable(schema, m, i) {
        FieldEncodes(schema, m, i);
      }
      AllEncode(schema, m, 0);
    }
  }

  predicate Encodable(schema: seq<Field>, m: Message, i: nat)
    requires i < |schema| == |m|
  {
    EncField(schema, m, i).Some?
  }

  lemma {:induction false} AllEncode(schema: seq<Field>, m: Message, i: nat)
    requires i <= |schema| == |m|
    ensures EncFrom(schema, m, i).Some? <==> forall j | i <= j < |schema| :: Encodable(schema, m, j)
    decreases |schema| - i
  {
    if i < |schema| {
      AllEncode(schema, m, i + 1);
      FirstEncodes(schema, m, i);
    }
  }

  lemma FirstEncodes(schema: seq<Field>, m: Message, i: nat)
    requires i < |schema| == |m|
    ensures EncFrom(schema, m, i).Some? <==> Encodable(schema, m, i) && EncFrom(schema, m, i + 1).Some?
  {}

  lemma {:induction false} FieldEncodes(schema: seq<Field>, m: Message, i: nat)
    requires i < |schema| == |m|
    ensures EncField(schema, m, i).Some? <==> FieldSendable(schema, m, i)
    decreases schema, 2
  {
    var f, slot := schema[i], m[i];
    match f.htype
    case REQUIRED =>
      if slot.Single? { ItemEncodes(f, slot.v); }
    case OPTIONAL =>
      if slot.Single? || slot.Opt? { ItemEncodes(f, slot.v); }
    case REPEATED =>
      if slot.Rep? { ItemsEncode(f, slot.items); }
    case ONEOF =>
      var u := m[Leader(schema, i)];
      if u.Union? { ItemEncodes(f, u.v); }
  }

  lemma {:induction false} ItemsEncode(f: Field, items: seq<Val>)
    ensures EncPacked(f, items).Some? <==> forall k | 0 <= k < |items| :: ItemSendable(f, items[k])
    ensures EncUnpacked(f, items).Some? <==> forall k | 0 <= k < |items| :: ItemSendable(f, items[k])
    decreases f, 1, |items|
  {
    if items != [] {
      ItemEncodes(f, items[0]);
      ItemsEncode(f, items[1..]);
      assert forall k | 0 < k < |items| :: items[k] == items[1..][k - 1];
    }
  }

  lemma {:induction false} ItemEncodes(f: Field, v: Val)
    ensures EncVal(f, v).Some? <==> ItemSendable(f, v)
    decreases f, 0
  {
    if v.MsgVal? && f.ltype.SUBMESSAGE? {
      EncodesExactly(f.sub, v.m);
    } else if v.IntVal? && Packable(f.ltype) {
      NumberEncoded(f, v.n);
    }
  }
}
