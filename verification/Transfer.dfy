/** A sender and a receiver: the encoder and the decoder over a buffer. */
module Transfer {
  import opened Bits
  import opened Allocator
  import opened Schema
  import opened Streams
  import opened OutputStreams
  import opened WireFormat
  import opened Encoder
  import opened Decoder
  import opened RoundTrip
  import opened Ownership
  import opened HeapReader
  import HeapDecoder
  import opened Records
  import opened PointerRecords

  /** pb_encode into a buffer and pb_decode from what was written: the same structure arrives, exactly if the buffer is
      large enough. */
  method Send(schema: seq<Field>, m: Message, buffer: array<Byte>) returns (ok: bool, received: Message)
    requires SchemaOk(schema) && NormalForm(schema, m) && buffer.Length < 0x1_0000_0000
    modifies buffer
    ensures Encode(schema, m).Some? && ok == (|Encode(schema, m).value| <= buffer.Length)
    ensures ok ==> received == m
  {
    NormalFormTyped(schema, m);
    NormalFormEncodes(schema, m);
    received := [];
    var output := new OStream(buffer);
    ok := PbEncode(output, schema, m);
    if ok {
      MessageRoundTrip(schema, m);
      var input := new IStream(buffer[..output.bytesWritten]);
      ok, received := PbDecode(input, schema);
    }
  }

  /** pb_decode with PB_ENABLE_MALLOC and an allocator that grants everything, into memory whose array items are
      harmless: it accepts what the records allow, however long its strings and arrays are. */
  method Receive(stream: IStream, heap: Heap, schema: seq<Field>, s: Node, ghost rest: multiset<nat>)
    returns (ok: bool, s': Node)
    requires stream.Valid() && PointersOk(schema) && Struct(MEMORY, schema, s) && heap.Owns(rest)
    requires ArraysClear(schema, Reset(schema, s.kids)) && forall k :: !heap.refuses(k)
    modifies stream, heap
    ensures stream.Valid() && !heap.stray && heap.Holds(if ok then rest + Blocks(s') else rest)
    ensures var a := RecordsOf(AllRoomy(schema), old(stream.Rest()));
            && (ok <==> a.Done? && Whole(AllRoomy(schema), a.v) && Counts(AllRoomy(schema), a.v))
            && (ok ==> stream.Rest() == a.rest && Struct(OWNED, schema, s')
                       && Held(schema, BareAll(schema, s'.kids), a.v))
  {
    ghost var attempts := heap.attempts;
    assert heap.refusals == Denied(heap.refuses, attempts);
    PointersAccept(schema, stream.Rest(), s);
    MessageClear(schema, stream.Rest(), s);
    ok, s' := HeapDecoder.PbDecode(stream, heap, schema, s, rest);
    assert heap.refusals == Denied(heap.refuses, heap.attempts);
    DeniedNone(heap.refuses, attempts, heap.attempts);
  }
}
