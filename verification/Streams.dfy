/** Memory streams, and the primitives of pb_decode.c and pb_encode.c that move them. */
module Streams {
  import opened Bits
  import opened Varint

  /** What a reading method did, in the form of the parsers of module Varint. */
  ghost function Outcome<T>(ok: bool, v: T, rest: seq<Byte>): Parse<T> {
    if ok then Done(v, rest) else Fail
  }

  // ----- Parsers of the primitives -----

  /** pb_read. */
  function Take(s: seq<Byte>, n: nat): (p: Parse<seq<Byte>>)
    ensures p.Done? ==> |p.rest| + n == |s|
  {
    if n <= |s| then Done(s[..n], s[n..]) else Fail
  }

  /** A length-delimited record: its payload, and what follows it. */
  function Delimited(s: seq<Byte>): (p: Parse<seq<Byte>>)
    ensures p.Done? ==> |p.v| + |p.rest| < |s|
  {
    match Varint32(s)
    case Fail => Fail
    case Done(size, rest) => Take(rest, size)
  }

  /** pb_decode_tag: an error, the end of the message (a zero tag, or nothing left), or a field header. */
  datatype TagParse = TagError | Stop(rest: seq<Byte>) | Header(tag: nat, wireType: nat, rest: seq<Byte>)

  function ReadTag(s: seq<Byte>): (p: TagParse)
    ensures p.Header? ==> |p.rest| < |s|
  {
    if s == [] then Stop([])
    else
      match Varint32(s)
      case Fail => TagError
      case Done(temp, rest) => if temp == 0 then Stop(rest) else Header(temp / 8, temp % 8, rest)
  }

  const WT_VARINT: nat := 0
  const WT_64BIT: nat := 1
  const WT_STRING: nat := 2
  const WT_32BIT: nat := 5

  /** pb_skip_field: what is left after the value of a field of the given wire type. */
  function Skip(wireType: nat, s: seq<Byte>): (p: Parse<()>)
    ensures p.Done? ==> |p.rest| < |s|
  {
    if wireType == WT_VARINT then
      var n := VarintLen(s);
      if n == 0 then Fail else Done((), s[n..])
    else if wireType == WT_64BIT then Discard(Take(s, 8))
    else if wireType == WT_STRING then Discard(Delimited(s))
    else if wireType == WT_32BIT then Discard(Take(s, 4))
    else Fail
  }

  function Discard<T>(p: Parse<T>): Parse<()> {
    if p.Done? then Done((), p.rest) else Fail
  }

  // ----- Input -----

  /** pb_istream_t over a memory buffer. */
  class IStream {
    const buf: seq<Byte>
    var pos: nat
    var bytesLeft: nat

    ghost predicate Valid()
      reads this
    {
      pos + bytesLeft <= |buf|
    }

    /** The bytes the stream may still deliver. */
    ghost function Rest(): seq<Byte>
      requires Valid()
      reads this
    {
      buf[pos..pos + bytesLeft]
    }

    /** Where the stream ends in its buffer.  Every operation but opening a substream conserves it. */
    ghost function End(): nat
      reads this
    {
      pos + bytesLeft
    }

    /** pb_istream_from_buffer. */
    constructor (bytes: seq<Byte>)
      ensures Valid() && buf == bytes && Rest() == bytes && End() == |bytes|
    {
      buf := bytes;
      pos, bytesLeft := 0, |bytes|;
    }

    /** The copy that pb_make_string_substream limits to `size` bytes. */
    constructor Substream(parent: IStream, size: nat)
      requires parent.Valid() && size <= parent.bytesLeft
      ensures Valid() && buf == parent.buf && pos == parent.pos && bytesLeft == size
    {
      buf := parent.buf;
      pos, bytesLeft := parent.pos, size;
    }

    method BufRead(count: nat) returns (data: seq<Byte>)
      requires pos + count <= |buf|
      modifies `pos
      ensures data == buf[old(pos)..old(pos) + count] && pos == old(pos) + count
    {
      var source := pos;
      pos := pos + count;
      data := [];
      for i := 0 to count
        invariant data == buf[source..source + i]
      {
        data := data + [buf[source + i]];
      }
    }

    /** pb_read: nothing moves unless all `count` bytes are there. */
    method PbRead(count: nat) returns (ok: bool, data: seq<Byte>)
      requires Valid()
      modifies this
      ensures Valid() && End() == old(End())
      ensures Outcome(ok, data, Rest()) == Take(old(Rest()), count)
      ensures !ok ==> pos == old(pos)
    {
      data := [];
      if count == 0 {
        assert data == Rest()[..0] && Rest() == Rest()[0..];
        return true, data;
      }
      if bytesLeft < count {
        return false, data;
      }
      data := BufRead(count);
      bytesLeft := bytesLeft - count;
      assert data == old(Rest())[..count] && Rest() == old(Rest())[count..];
      return true, data;
    }

    method PbReadByte() returns (ok: bool, byte: Byte)
      requires Valid()
      modifies this
      ensures Valid() && End() == old(End())
      ensures ok == (old(Rest()) != [])
      ensures ok ==> byte == old(Rest())[0] && Rest() == old(Rest())[1..]
      ensures !ok ==> pos == old(pos)
    {
      byte := 0;
      if bytesLeft == 0 {
        return false, byte;
      }
      byte := buf[pos];
      pos, bytesLeft := pos + 1, bytesLeft - 1;
      return true, byte;
    }

    /** pb_decode_varint32_eof; `eof` tells that the stream was already at its end. */
    method PbDecodeVarint32Eof() returns (ok: bool, dest: nat, eof: bool)
      requires Valid()
      modifies this
      ensures Valid() && End() == old(End())
      ensures Outcome(ok, dest, Rest()) == Varint32(old(Rest()))
      ensures eof == (old(Rest()) == [])
      ensures eof ==> bytesLeft == 0
    {
      dest, eof := 0, false;
      var byte: Byte;
      ok, byte := PbReadByte();
      if !ok {
        eof := bytesLeft == 0;
        return;
      }
      if byte < 128 {
        dest := byte;
        return;
      }
      var bitpos: nat, result: nat := 7, byte % 128;
      ghost var first := old(Rest());
      while true
        invariant Valid() && End() == old(End()) && ok && !eof
        invariant first != [] && Varint32(first) == Varint32From(Rest(), bitpos, result)
        decreases bytesLeft
      {
        ok, byte := PbReadByte();
        if !ok {
          return;
        }
        if bitpos >= 32 {
          var signExtension := if bitpos < 63 then 0xFF else 0x01;
          if byte % 128 != 0 && (result / 0x8000_0000 == 0 || byte != signExtension) {
            ok := false;
            return;
          }
        } else {
          result := BitOr(result, Shl(byte % 128, bitpos) % 0x1_0000_0000);
        }
        bitpos := (bitpos + 7) % 256;
        if byte < 128 {
          break;
        }
      }
      if bitpos == 35 && byte / 16 % 8 != 0 {
        ok := false;
        return;
      }
      dest := result;
    }

    method PbDecodeVarint32() returns (ok: bool, dest: nat)
      requires Valid()
      modifies this
      ensures Valid() && End() == old(End())
      ensures Outcome(ok, dest, Rest()) == Varint32(old(Rest()))
    {
      var eof;
      ok, dest, eof := PbDecodeVarint32Eof();
    }

    /** pb_decode_varint: proved against the encoding guide's reading of the bytes. */
    method PbDecodeVarint() returns (ok: bool, dest: nat)
      requires Valid()
      modifies this
      ensures Valid() && End() == old(End())
      ensures Outcome(ok, dest, Rest()) == Varint64(old(Rest()))
    {
      var byte: Byte;
      var bitpos: nat, result: nat := 0, 0;
      ghost var s, n: nat := Rest(), 0;
      dest := 0;
      while true
        invariant Valid() && End() == old(End())
        invariant n <= 10 && n <= |s| && bitpos == 7 * n && result == Value(s[..n]) % 0x1_0000_0000_0000_0000
        invariant Rest() == s[n..] && forall i | 0 <= i < n :: s[i] >= 128
        decreases bytesLeft
      {
        AllContinued(s, n);
        if bitpos >= 64 {
          return false, dest;
        }
        ok, byte := PbReadByte();
        if !ok {
          return;
        }
        assert byte == s[n];
        Group64(s, n);
        result := BitOr(result, Shl(byte % 128, bitpos) % 0x1_0000_0000_0000_0000);
        bitpos := (bitpos + 7) % 256;
        n := n + 1;
        if byte < 128 {
          break;
        }
      }
      VarintLenIs(s, n);
      dest := result;
    }

    method PbSkipVarint() returns (ok: bool)
      requires Valid()
      modifies this
      ensures Valid() && End() == old(End())
      ensures Outcome(ok, (), Rest()) == Skip(WT_VARINT, old(Rest()))
    {
      var data: seq<Byte>;
      ghost var s, n: nat := Rest(), 0;
      while true
        invariant Valid() && End() == old(End())
        invariant n <= |s| && Rest() == s[n..] && forall i | 0 <= i < n :: s[i] >= 128
        decreases bytesLeft
      {
        AllContinued(s, n);
        ok, data := PbRead(1);
        if !ok {
          return;
        }
        assert data[0] == s[n];
        n := n + 1;
        if data[0] < 128 {
          break;
        }
      }
      VarintLenIs(s, n);
    }

    method PbSkipString() returns (ok: bool)
      requires Valid()
      modifies this
      ensures Valid() && End() == old(End())
      ensures Outcome(ok, (), Rest()) == Skip(WT_STRING, old(Rest()))
    {
      var length, data;
      ok, length := PbDecodeVarint32();
      if ok {
        ok, data := PbRead(length);
      }
    }

    method PbSkipField(wireType: nat) returns (ok: bool)
      requires Valid()
      modifies this
      ensures Valid() && End() == old(End())
      ensures Outcome(ok, (), Rest()) == Skip(wireType, old(Rest()))
    {
      var data;
      if wireType == WT_VARINT {
        ok := PbSkipVarint();
      } else if wireType == WT_64BIT {
        ok, data := PbRead(8);
      } else if wireType == WT_STRING {
        ok := PbSkipString();
      } else if wireType == WT_32BIT {
        ok, data := PbRead(4);
      } else {
        ok := false;
      }
    }

    method PbDecodeTag() returns (ok: bool, wireType: nat, tag: nat, eof: bool)
      requires Valid()
      modifies this
      ensures Valid() && End() == old(End())
      ensures match ReadTag(old(Rest()))
              case TagError => !ok && !eof
              case Stop(rest) => !ok && eof && Rest() == rest
              case Header(t, wt, rest) => ok && !eof && tag == t && wireType == wt && Rest() == rest
    {
      var temp;
      wireType, tag := 0, 0;
      ok, temp, eof := PbDecodeVarint32Eof();
      if !ok {
        assert eof ==> Rest() == [];
        return;
      }
      if temp == 0 {
        ok, eof := false, true;
        return;
      }
      tag, wireType := temp / 8, temp % 8;
    }

    /** pb_make_string_substream.  Until it is closed, this stream keeps only what follows the payload. */
    method PbMakeStringSubstream() returns (ok: bool, sub: IStream)
      requires Valid()
      modifies this
      ensures var p := Delimited(old(Rest()));
              ok == p.Done? &&
              (ok ==> fresh(sub) && sub.Valid() && sub.buf == buf && sub.Rest() == p.v
                      && sub.End() + |p.rest| == old(End()) && bytesLeft == |p.rest|
                      && buf[sub.End()..old(End())] == p.rest && pos + |p.v| + |p.rest| == old(End())
                      && |p.v| + |p.rest| < |old(Rest())|)
      ensures !ok ==> Valid() && End() == old(End())
    {
      ghost var first := Rest();
      var size;
      ok, size := PbDecodeVarint32();
      sub := this;
      if !ok {
        return;
      }
      if bytesLeft < size {
        ok := false;
        return;
      }
      sub := new IStream.Substream(this, size);
      bytesLeft := bytesLeft - size;
    }

    /** pb_close_string_substream: whatever was left unread in `sub` is skipped. */
    method PbCloseStringSubstream(sub: IStream) returns (ok: bool)
      requires sub != this && sub.Valid() && sub.End() + bytesLeft <= |buf|
      modifies this, sub
      ensures ok && Valid() && pos == old(sub.End()) && bytesLeft == old(bytesLeft)
    {
      ok := true;
      if sub.bytesLeft != 0 {
        var data;
        ok, data := sub.PbRead(sub.bytesLeft);
        assert |sub.Rest()| == sub.bytesLeft;
        if !ok {
          return;
        }
      }
      pos := sub.pos;
    }
  }
}
