/** pb_ostream_t: a writing stream over a byte buffer, or a sizing stream that only counts. */
module OutputStreams {
  import opened Bits
  import opened Varint
  import opened Wrappers

  class OStream {
    const buf: array<Byte>
    const sizing: bool
    const maxSize: nat
    var state: nat
    var bytesWritten: nat

    ghost predicate Valid()
      reads this
    {
      sizing || (bytesWritten <= maxSize && Limit() <= buf.Length)
    }

    /** The first buffer position the stream may not write; every write conserves it. */
    ghost function Limit(): int
      reads this
    {
      state + maxSize - bytesWritten
    }

    /** pb_ostream_from_buffer. */
    constructor (buffer: array<Byte>)
      ensures Valid() && !sizing && buf == buffer && maxSize == buffer.Length && state == 0 && bytesWritten == 0
    {
      buf, sizing, maxSize := buffer, false, buffer.Length;
      state, bytesWritten := 0, 0;
    }

    /** PB_OSTREAM_SIZING. */
    constructor Sizing()
      ensures Valid() && sizing && bytesWritten == 0 && fresh(buf)
    {
      buf, sizing, maxSize := new Byte[0], true, 0;
      state, bytesWritten := 0, 0;
    }

    /** The second pass of pb_encode_submessage: the parent's buffer, limited to `size` bytes. */
    constructor Substream(parent: OStream, size: nat)
      requires parent.Valid() && !parent.sizing && parent.bytesWritten + size <= parent.maxSize
      ensures Valid() && !sizing && buf == parent.buf && maxSize == size && state == parent.state && bytesWritten == 0
    {
      buf, sizing, maxSize := parent.buf, false, size;
      state, bytesWritten := parent.state, 0;
    }

    ghost predicate Fits(n: nat)
      reads this
    {
      sizing || bytesWritten + n <= maxSize
    }

    /** The call left alone what lies after the stream's part of the buffer. */
    twostate predicate Bounded()
      reads this, buf
    {
      && old(Valid())
      && Valid()
      && (if sizing then buf[..] == old(buf[..])
          else Limit() == old(Limit()) && old(state) <= state && buf[Limit()..] == old(buf[Limit()..]))
    }

    /** The call wrote `out` exactly if there was room for all of it. */
    twostate predicate Emitted(ok: bool, new out: seq<Byte>)
      reads this, buf
    {
      && Bounded()
      && ok == old(Fits(|out|))
      && (ok ==> bytesWritten == old(bytesWritten) + |out|)
      && (!sizing ==> if ok then buf[..state] == old(buf[..state]) + out else Kept())
    }

    /** What the stream held before is still there. */
    twostate predicate Kept()
      reads this, buf
    {
      old(state) <= state <= buf.Length && old(state) <= buf.Length && buf[..old(state)] == old(buf[..state])
    }

    /** The call wrote `out`, or failed because there is nothing to write or no room for it. */
    twostate predicate Wrote(ok: bool, new out: Option<seq<Byte>>)
      reads this, buf
    {
      match out
      case None => !ok && Bounded() && (!sizing ==> Kept())
      case Some(b) => Emitted(ok, b)
    }

    method BufWrite(data: seq<Byte>)
      requires state + |data| <= buf.Length
      modifies `state, buf
      ensures state == old(state) + |data|
      ensures buf[..old(state)] == old(buf[..state]) && buf[old(state)..state] == data
      ensures buf[state..] == old(buf[state + |data|..])
    {
      var dest := state;
      state := dest + |data|;
      for i := 0 to |data|
        invariant buf[..dest] == old(buf[..dest]) && buf[dest..dest + i] == data[..i]
        invariant buf[dest + i..] == old(buf[dest + i..])
        modifies buf
      {
        buf[dest + i] := data[i];
      }
    }

    /** pb_write. */
    method PbWrite(data: seq<Byte>) returns (ok: bool)
      requires Valid()
      modifies this, buf
      ensures Emitted(ok, data)
    {
      if |data| > 0 && !sizing {
        if bytesWritten + |data| > maxSize {
          return false;
        }
        BufWrite(data);
      }
      bytesWritten := bytesWritten + |data|;
      return true;
    }

    /** pb_write without data, as the sizing pass calls it. */
    method PbWriteNothing(count: nat) returns (ok: bool)
      requires Valid() && sizing
      modifies this
      ensures ok && Valid() && bytesWritten == old(bytesWritten) + count
    {
      bytesWritten := bytesWritten + count;
      return true;
    }

    /** pb_encode_varint. */
    method PbEncodeVarint(v: nat) returns (ok: bool)
      requires Valid() && v < 0x1_0000_0000_0000_0000
      modifies this, buf
      ensures Emitted(ok, EncVarint(v))
    {
      if v <= 0x7F {
        ok := PbWrite([v]);
        return;
      }
      var buffer := new Byte[10];
      var i := FillVarint(buffer, v);
      ok := PbWrite(buffer[..i]);
    }

    /** pb_encode_negative_varint, of builds without 64-bit integers: `v` is the low word of a negative int32. */
    method PbEncodeNegativeVarint(v: nat) returns (ok: bool)
      requires Valid() && 0x8000_0000 <= v < 0x1_0000_0000
      modifies this, buf
      ensures Emitted(ok, EncVarint(Unsigned64(v - 0x1_0000_0000)))
    {
      var buffer := new Byte[10];
      var i := FillNegativeVarint(buffer, v);
      ok := PbWrite(buffer[..i]);
    }

    /** pb_encode_svarint. */
    method PbEncodeSvarint(x: Int64) returns (ok: bool)
      requires Valid()
      modifies this, buf
      ensures Emitted(ok, EncVarint(ZigZag(x)))
    {
      ZigZagBits(x);
      var zigzagged: nat;
      if x < 0 {
        zigzagged := 0xFFFF_FFFF_FFFF_FFFF - Unsigned64(x) * 2 % 0x1_0000_0000_0000_0000;
      } else {
        zigzagged := Unsigned64(x) * 2;
      }
      ok := PbEncodeVarint(zigzagged);
    }

    /** pb_encode_fixed32. */
    method PbEncodeFixed32(v: nat) returns (ok: bool)
      requires Valid() && v < 0x1_0000_0000
      modifies this, buf
      ensures Emitted(ok, LittleEndian(v, 4))
    {
      var bytes := [v % 0x100, v / 0x100 % 0x100, v / 0x1_0000 % 0x100, v / 0x100_0000 % 0x100];
      FourBytes(v);
      ok := PbWrite(bytes);
    }

    /** pb_encode_fixed64. */
    method PbEncodeFixed64(v: nat) returns (ok: bool)
      requires Valid() && v < 0x1_0000_0000_0000_0000
      modifies this, buf
      ensures Emitted(ok, LittleEndian(v, 8))
    {
      var bytes := [v % 0x100, v / 0x100 % 0x100, v / 0x1_0000 % 0x100, v / 0x100_0000 % 0x100,
                    v / 0x1_0000_0000 % 0x100, v / 0x100_0000_0000 % 0x100,
                    v / 0x1_0000_0000_0000 % 0x100, v / 0x100_0000_0000_0000 % 0x100];
      EightBytes(v);
      ok := PbWrite(bytes);
    }

    /** pb_encode_tag. */
    method PbEncodeTag(wireType: nat, tag: nat) returns (ok: bool)
      requires Valid() && wireType < 8 && tag < 0x1_0000_0000
      modifies this, buf
      ensures Emitted(ok, EncTag(wireType, tag))
    {
      ShlSmall(tag);
      Pow2Small();
      OrDisjoint(wireType, tag, 3);
      ok := PbEncodeVarint(BitOr(wireType, Shl(tag, 3)));
    }

    /** pb_encode_string. */
    method PbEncodeString(data: seq<Byte>) returns (ok: bool)
      requires Valid()
      modifies this, buf
      ensures Emitted(ok, Delimit(data))
    {
      ok := PbEncodeVarint(|data| % 0x1_0000_0000_0000_0000);
      if !ok {
        return;
      }
      ok := PbWrite(data);
    }
  }

  /** A field header on the wire. */
  function EncTag(wireType: nat, tag: nat): seq<Byte> {
    EncVarint(8 * tag + wireType)
  }

  /** The loop of pb_encode_varint, which never leaves its ten-byte buffer. */
  method FillVarint(buffer: array<Byte>, v: nat) returns (i: nat)
    requires buffer.Length == 10 && 0x80 <= v < 0x1_0000_0000_0000_0000
    modifies buffer
    ensures i <= 10 && buffer[..i] == EncVarint(v)
  {
    var value: nat := v;
    i := 0;
    EncodedLength(v);
    while value != 0
      invariant value > 0 ==> i < |EncVarint(v)| && EncVarint(v) == buffer[..i] + EncVarint(value)
      invariant value == 0 ==> 1 <= i <= 10 && buffer[i - 1] >= 128
      invariant value == 0 ==> EncVarint(v) == buffer[..i - 1] + [buffer[i - 1] - 128]
    {
      PeelGroup(v, buffer[..i], value);
      buffer[i] := value % 128 + 128;
      value := value / 128;
      i := i + 1;
      assert buffer[..i] == buffer[..i - 1] + [buffer[i - 1]];
    }
    buffer[i - 1] := buffer[i - 1] - 128;
    assert buffer[..i] == buffer[..i - 1] + [buffer[i - 1]];
  }

  /** A length-delimited record; the length is cast to 64 bits. */
  function Delimit(data: seq<Byte>): seq<Byte> {
    EncVarint(|data| % 0x1_0000_0000_0000_0000) + data
  }

  lemma {:induction false} PeelGroup(v: nat, prefix: seq<Byte>, value: nat)
    requires value > 0 && EncVarint(v) == prefix + EncVarint(value)
    ensures value >= 128 ==> EncVarint(v) == prefix + [value % 128 + 128] + EncVarint(value / 128)
    ensures value < 128 ==> EncVarint(v) == prefix + [value]
  {}

  lemma {:induction false} FourBytes(v: nat)
    requires v < 0x1_0000_0000
    ensures LittleEndian(v, 4) == [v % 0x100, v / 0x100 % 0x100, v / 0x1_0000 % 0x100, v / 0x100_0000 % 0x100]
  {
    assert v / 0x100 / 0x100 == v / 0x1_0000 && v / 0x1_0000 / 0x100 == v / 0x100_0000;
    assert LittleEndian(v / 0x1_0000, 2) == [v / 0x1_0000 % 0x100, v / 0x100_0000 % 0x100];
    assert LittleEndian(v / 0x100, 3) == [v / 0x100 % 0x100] + LittleEndian(v / 0x1_0000, 2);
  }

  lemma {:induction false} EightBytes(v: nat)
    requires v < 0x1_0000_0000_0000_0000
    ensures LittleEndian(v, 8)
            == [v % 0x100, v / 0x100 % 0x100, v / 0x1_0000 % 0x100, v / 0x100_0000 % 0x100,
                v / 0x1_0000_0000 % 0x100, v / 0x100_0000_0000 % 0x100,
                v / 0x1_0000_0000_0000 % 0x100, v / 0x100_0000_0000_0000 % 0x100]
  {
    DivDiv(v, 0x100);
    DivDiv(v, 0x1_0000);
    DivDiv(v, 0x100_0000);
    DivDiv(v, 0x1_0000_0000);
    DivDiv(v, 0x100_0000_0000);
    DivDiv(v, 0x1_0000_0000_0000);
    assert LittleEndian(v / 0x1_0000_0000_0000, 2)
           == [v / 0x1_0000_0000_0000 % 0x100, v / 0x100_0000_0000_0000 % 0x100];
    assert LittleEndian(v / 0x1_0000_0000, 4)
        == [v / 0x1_0000_0000 % 0x100, v / 0x100_0000_0000 % 0x100] + LittleEndian(v / 0x1_0000_0000_0000, 2);
    assert LittleEndian(v / 0x1_0000, 6)
        == [v / 0x1_0000 % 0x100, v / 0x100_0000 % 0x100] + LittleEndian(v / 0x1_0000_0000, 4);
    assert LittleEndian(v, 8) == [v % 0x100, v / 0x100 % 0x100] + LittleEndian(v / 0x1_0000, 6);
  }

  // ----- The 32-bit encoder of negative numbers -----

  /** `2^(64 - 7i)`: one more than the largest value of a 64-bit number shifted by `i` groups. */
  function Top(i: nat): nat {
    if i == 0 then 0x1_0000_0000_0000_0000 else if i == 1 then 0x200_0000_0000_0000
    else if i == 2 then 0x4_0000_0000_0000 else if i == 3 then 0x800_0000_0000 else if i == 4 then 0x10_0000_0000
    else if i == 5 then 0x2000_0000 else if i == 6 then 0x40_0000 else if i == 7 then 0x8000
    else if i == 8 then 0x100 else if i == 9 then 2 else 1
  }

  /** What is left after `i` shifts of the 31 bits that are not known to be ones. */
  function Unknown(i: nat): nat {
    if i == 0 then 0x8000_0000 else if i == 1 then 0x100_0000 else if i == 2 then 0x2_0000
    else if i == 3 then 0x400 else if i == 4 then 8 else 1
  }

  /** `high` is a negative int32, sign-extended to 64 bits and shifted right by `i` groups. */
  predicate Shifted(high: nat, i: nat) {
    Top(i) - Unknown(i) <= high < Top(i)
  }

  /** The bits still to be set after `i` shifts. */
  function Compensation(i: nat): nat {
    if i < 5 then 32 - 7 * i else 0
  }

  /** The bits set by shift `i`. */
  function Refill(i: nat): nat {
    if i < 4 then 0x7F else if i == 4 then 0xF else 0
  }

  lemma {:induction false} ShiftOnce(high: nat, i: nat)
    requires i < 10 && Shifted(high, i)
    ensures Shifted(high / 128, i + 1)
  {
    var t, u := Top(i), Unknown(i);
    assert i < 9 ==> t == 128 * Top(i + 1);
    assert i < 4 ==> u == 128 * Unknown(i + 1);
  }

  /** The low word of `q * 2^32 + w`. */
  lemma {:induction false} LowWordOf(high: nat, q: nat, w: nat)
    requires high == q * 0x1_0000_0000 + w && w < 0x1_0000_0000
    ensures high % 0x1_0000_0000 == w && w % 128 == high % 128 && high / 128 == q * 0x200_0000 + w / 128
  {}

  /** One shift: refilling the top of the 32-bit word keeps it the low word of the shifted 64-bit number. */
  lemma {:induction false} RefillWord(high: nat, i: nat)
    requires i < 10 && Shifted(high, i)
    ensures Shifted(high / 128, i + 1)
    ensures var word := high % 0x1_0000_0000;
            word > 0 && word / 128 < 0x200_0000 && word % 128 == high % 128
            && high / 128 % 0x1_0000_0000 == word / 128 + 0x200_0000 * Refill(i)
  {
    ShiftOnce(high, i);
    if i < 5 {
      var q := if i == 0 then 0xFFFF_FFFF else if i == 1 then 0x1FF_FFFF else if i == 2 then 0x3_FFFF
               else if i == 3 then 0x7FF else 0xF;
      LowWordOf(high, q, high - q * 0x1_0000_0000);
      assert (q * 0x200_0000) % 0x1_0000_0000 == 0x200_0000 * Refill(i);
    }
  }

  /** The exclusive or of the loop sets the bits of `Refill`. */
  lemma {:induction false} RefillXor(value: nat, i: nat, bits: nat)
    requires value < 0x200_0000 && i < 5 && bits == (if Compensation(i) > 7 then 7 else Compensation(i))
    ensures BitXor(value, Shl(0xFF / Pow2(8 - bits), 25)) == value + 0x200_0000 * Refill(i)
    ensures Compensation(i + 1) == Compensation(i) - bits
  {
    Pow2Small();
    assert 0xFF / Pow2(8 - bits) == Refill(i);
    ShlTwentyFive(Refill(i));
    XorDisjoint(value, Refill(i), 25);
  }

  /** One shift of the 32-bit word: ones come in at the top as long as `compensation` lasts. */
  method NextWord(word: nat, compensation: nat, ghost high: nat, ghost i: nat) returns (value: nat, left: nat)
    requires i < 10 && Shifted(high, i) && word == high % 0x1_0000_0000 && compensation == Compensation(i)
    ensures value == high / 128 % 0x1_0000_0000 && left == Compensation(i + 1)
  {
    RefillWord(high, i);
    value, left := word / 128, compensation;
    if compensation != 0 {
      var bits := if compensation > 7 then 7 else compensation;
      RefillXor(value, i, bits);
      value := BitXor(value, Shl(0xFF / Pow2(8 - bits), 25));
      left := compensation - bits;
    }
  }

  /** The loop of pb_encode_negative_varint, on a 32-bit word. */
  method FillNegativeVarint(buffer: array<Byte>, v: nat) returns (i: nat)
    requires buffer.Length == 10 && 0x8000_0000 <= v < 0x1_0000_0000
    modifies buffer
    ensures i == 10 && buffer[..i] == EncVarint(Unsigned64(v - 0x1_0000_0000))
  {
    ghost var v64: nat := Unsigned64(v - 0x1_0000_0000);
    ghost var high := v64;
    var value, compensation := v, 32;
    i := 0;
    while value != 0
      invariant i <= 10 && compensation == Compensation(i)
      invariant Shifted(high, i) && value == high % 0x1_0000_0000
      invariant i < 10 ==> EncVarint(v64) == buffer[..i] + EncVarint(high)
      invariant i == 10 ==> buffer[9] >= 128 && EncVarint(v64) == buffer[..9] + [buffer[9] - 128]
      decreases 10 - i
    {
      PeelGroup(v64, buffer[..i], high);
      RefillWord(high, i);
      buffer[i] := value % 128 + 128;
      value, compensation := NextWord(value, compensation, high, i);
      high := high / 128;
      i := i + 1;
      assert buffer[..i] == buffer[..i - 1] + [buffer[i - 1]];
    }
    assert i == 10 by { if i < 10 { RefillWord(high, i); } }
    buffer[i - 1] := buffer[i - 1] - 128;
    assert buffer[..10] == buffer[..9] + [buffer[9]];
  }
}
