/** Alamofire's MultipartFormData: one body, encoded in memory or written to a stream piece by piece. */
module Multipart {
  import opened Bits

  type Bytes = seq<Byte>

  const CR: Byte := 13
  const LF: Byte := 10
  const DASH: Byte := 45
  const CRLF: Bytes := [CR, LF]
  const DASHES: Bytes := [DASH, DASH]

  // ----- The format -----

  datatype Header = Header(name: Bytes, value: Bytes)

  datatype Part = Part(headers: seq<Header>, body: Bytes)

  datatype BoundaryType = Initial | Encapsulated | Final

  function BoundaryData(kind: BoundaryType, boundary: Bytes): Bytes {
    match kind
    case Initial => DASHES + boundary + CRLF
    case Encapsulated => CRLF + DASHES + boundary + CRLF
    case Final => CRLF + DASHES + boundary + DASHES + CRLF
  }

  function HeaderLines(headers: seq<Header>): Bytes {
    if headers == [] then []
    else headers[0].name + [58, 32] + headers[0].value + CRLF + HeaderLines(headers[1..])
  }

  function HeaderData(headers: seq<Header>): Bytes {
    HeaderLines(headers) + CRLF
  }

  /** What stands between two delimiter lines. */
  function Content(part: Part): Bytes {
    HeaderData(part.headers) + part.body
  }

  function EncodedPart(boundary: Bytes, part: Part, first: bool, last: bool): Bytes {
    BoundaryData(if first then Initial else Encapsulated, boundary) + HeaderData(part.headers) + part.body
    + if last then BoundaryData(Final, boundary) else []
  }

  /** The parts from position `i` on. */
  function EncodedFrom(boundary: Bytes, parts: seq<Part>, i: nat): Bytes
    requires i <= |parts|
    decreases |parts| - i
  {
    if i == |parts| then []
    else EncodedPart(boundary, parts[i], i == 0, i == |parts| - 1) + EncodedFrom(boundary, parts, i + 1)
  }

  function EncodedForm(boundary: Bytes, parts: seq<Part>): Bytes {
    EncodedFrom(boundary, parts, 0)
  }

  // ----- Streams -----

  /** An input stream: how much a read returns is its own business, but it returns something until the end, unless
      it fails.  Which of its reads fail is up to the stream. */
  class InputStream {
    const content: Bytes
    const fails: nat -> bool
    var pos: nat
    var readCount: nat
    var streamError: bool

    ghost predicate Valid()
      reads this
    {
      pos <= |content|
    }

    /** Not used so far. */
    ghost predicate Unread()
      reads this
    {
      pos == 0 && readCount == 0 && !streamError
    }

    /** It is in error exactly if one of its reads failed. */
    ghost predicate Sound()
      reads this
    {
      streamError <==> !Healthy(fails, 0, readCount)
    }

    constructor (data: Bytes, fails: nat -> bool)
      ensures Valid() && Unread() && content == data && this.fails == fails
    {
      content, this.fails := data, fails;
      pos, readCount, streamError := 0, 0, false;
    }

    /** It may only find out at the next read that there is nothing left. */
    method HasBytesAvailable() returns (available: bool)
      requires Valid()
      ensures pos < |content| ==> available
    {
      available := *;
      available := available || pos < |content|;
    }

    method Read(maxLength: nat) returns (data: Bytes)
      requires Valid() && maxLength > 0 && !streamError
      modifies this
      ensures Valid() && |data| <= maxLength && readCount == old(readCount) + 1 && streamError == fails(old(readCount))
      ensures !streamError ==> pos == old(pos) + |data| && data == content[old(pos)..pos]
      ensures !streamError ==> (data == [] <==> old(pos) == |content|)
    {
      data := [];
      streamError := fails(readCount);
      readCount := readCount + 1;
      if streamError || pos == |content| {
        return;
      }
      var n := *;
      if !(0 < n <= maxLength && n <= |content| - pos) {
        n := 1;
      }
      data := content[pos..pos + n];
      pos := pos + n;
    }
  }

  /** An output stream: it takes any part of what it is given.  When it has no space and which of its writes fail is
      up to the stream.  `lost` counts what was given up for want of space. */
  class OutputStream {
    const hasSpace: nat -> bool
    const fails: nat -> bool
    var written: Bytes
    var pollCount: nat
    var writeCount: nat
    var streamError: bool
    ghost var lost: nat

    constructor (hasSpace: nat -> bool, fails: nat -> bool)
      ensures this.hasSpace == hasSpace && this.fails == fails
      ensures written == [] && pollCount == 0 && writeCount == 0 && !streamError && lost == 0
    {
      this.hasSpace, this.fails := hasSpace, fails;
      written, pollCount, writeCount, streamError, lost := [], 0, 0, false, 0;
    }

    method HasSpaceAvailable(ghost left: nat) returns (available: bool)
      modifies `lost, `pollCount
      ensures available == hasSpace(old(pollCount)) && pollCount == old(pollCount) + 1
      ensures lost == old(lost) + if available then 0 else left
    {
      available := hasSpace(pollCount);
      pollCount := pollCount + 1;
      if !available {
        lost := lost + left;
      }
    }

    method Write(data: Bytes, maxLength: nat) returns (n: nat)
      requires 0 < maxLength <= |data| && !streamError
      modifies `written, `writeCount, `streamError
      ensures writeCount == old(writeCount) + 1 && streamError == fails(old(writeCount))
      ensures streamError ==> written == old(written)
      ensures !streamError ==> 0 < n <= maxLength && written == old(written) + data[..n]
    {
      streamError := fails(writeCount);
      writeCount := writeCount + 1;
      n := *;
      if streamError {
        n := 0;
        return;
      }
      if !(0 < n <= maxLength) {
        n := maxLength;
      }
      written := written + data[..n];
    }

    ghost function Snap(): Snapshot
      reads this
    {
      Snapshot(written, lost, pollCount, writeCount)
    }

    /** What a call has done: all of `data` was added, unless an error cut it short or some was lost for want of
        space. */
    twostate predicate Took(ok: bool, new data: Bytes)
      reads this
    {
      Added(hasSpace, fails, old(Snap()), Snap(), streamError, ok, data)
    }
  }

  datatype Snapshot = Snapshot(written: Bytes, lost: nat, polls: nat, writes: nat)

  /** No poll from `a` on and before `b` was denied. */
  ghost predicate Spacious(hasSpace: nat -> bool, a: nat, b: nat) {
    forall k | a <= k < b :: hasSpace(k)
  }

  /** No read or write from `a` on and before `b` failed. */
  ghost predicate Healthy(fails: nat -> bool, a: nat, b: nat) {
    forall k | a <= k < b :: !fails(k)
  }

  /** From one state of a stream to the next: something was lost exactly if a poll was denied, there is an error
      exactly if a write failed, and if nothing was lost a beginning of `data` was written, with success all of it. */
  ghost predicate Added(hasSpace: nat -> bool, fails: nat -> bool, a: Snapshot, b: Snapshot, error: bool, ok: bool,
                        data: Bytes) {
    && a.polls <= b.polls && a.writes <= b.writes && a.lost <= b.lost
    && (b.lost == a.lost <==> Spacious(hasSpace, a.polls, b.polls))
    && (error <==> !Healthy(fails, a.writes, b.writes))
    && (ok ==> |b.written| + b.lost == |a.written| + a.lost + |data|)
    && (b.lost == a.lost ==> a.written <= b.written <= a.written + data && (ok ==> b.written == a.written + data))
    && (ok && data != [] ==> a.polls < b.polls)
  }

  /** One piece after another. */
  lemma {:induction false} AddedTwo(hasSpace: nat -> bool, fails: nat -> bool, a: Snapshot, b: Snapshot, c: Snapshot,
                                    error: bool, ok: bool, x: Bytes, y: Bytes)
    requires Added(hasSpace, fails, a, b, false, true, x) && Added(hasSpace, fails, b, c, error, ok, y)
    ensures Added(hasSpace, fails, a, c, error, ok, x + y)
  {
    assert a.written + (x + y) == a.written + x + y;
    assert Spacious(hasSpace, a.polls, c.polls)
           <==> Spacious(hasSpace, a.polls, b.polls) && Spacious(hasSpace, b.polls, c.polls);
    assert Healthy(fails, a.writes, c.writes)
           <==> Healthy(fails, a.writes, b.writes) && Healthy(fails, b.writes, c.writes);
  }

  /** The first piece may be all there is, if what comes then fails. */
  lemma {:induction false} AddedLess(hasSpace: nat -> bool, fails: nat -> bool, a: Snapshot, b: Snapshot, error: bool,
                                     x: Bytes, y: Bytes)
    requires Added(hasSpace, fails, a, b, error, false, x)
    ensures Added(hasSpace, fails, a, b, error, false, x + y)
  {
    assert a.written + (x + y) == a.written + x + y;
  }

  // ----- The form -----

  class BodyPart {
    const headers: seq<Header>
    const bodyStream: InputStream
    var hasInitialBoundary: bool
    var hasFinalBoundary: bool

    constructor (headers: seq<Header>, bodyStream: InputStream)
      ensures this.headers == headers && this.bodyStream == bodyStream
      ensures !hasInitialBoundary && !hasFinalBoundary
    {
      this.headers, this.bodyStream := headers, bodyStream;
      hasInitialBoundary, hasFinalBoundary := false, false;
    }
  }

  function PartOf(p: BodyPart): Part {
    Part(p.headers, p.bodyStream.content)
  }

  const STREAM_BUFFER_SIZE: nat := 1024

  /** encodeBodyStream: the whole stream, whatever the sizes of the reads, unless one of them fails. */
  method EncodeBodyStream(s: InputStream) returns (ok: bool, encoded: Bytes)
    requires s.Valid() && s.Unread()
    modifies s
    ensures ok == !s.streamError && s.Sound()
    ensures ok ==> encoded == s.content
  {
    encoded := [];
    var available := s.HasBytesAvailable();
    while available
      invariant s.Valid() && encoded == s.content[..s.pos] && !s.streamError && s.Sound()
      invariant s.pos < |s.content| ==> available
      decreases |s.content| - s.pos, available
    {
      var data := s.Read(STREAM_BUFFER_SIZE);
      if s.streamError {
        return false, encoded;
      }
      if |data| == 0 {
        break;
      }
      encoded := encoded + data;
      available := s.HasBytesAvailable();
    }
    ok := true;
  }

  /** write of a buffer: the loop goes on with what has not been written yet. */
  method WriteBuffer(data: Bytes, out: OutputStream) returns (ok: bool)
    requires !out.streamError
    modifies out
    ensures out.Took(ok, data) && ok == !out.streamError
  {
    var buffer := data;
    var bytesToWrite: nat := |buffer|;
    while bytesToWrite > 0
      invariant bytesToWrite <= |data| && (bytesToWrite > 0 ==> buffer == data[|data| - bytesToWrite..])
      invariant out.lost == old(out.lost) && out.written == old(out.written) + data[..|data| - bytesToWrite]
      invariant old(out.pollCount) <= out.pollCount && Spacious(out.hasSpace, old(out.pollCount), out.pollCount)
      invariant old(out.writeCount) <= out.writeCount && Healthy(out.fails, old(out.writeCount), out.writeCount)
      invariant !out.streamError && (bytesToWrite < |data| ==> out.pollCount > old(out.pollCount))
    {
      var available := out.HasSpaceAvailable(bytesToWrite);
      if !available {
        break;
      }
      var bytesWritten := out.Write(buffer, bytesToWrite);
      if out.streamError {
        return false;
      }
      assert data[..|data| - bytesToWrite] + buffer[..bytesWritten] == data[..|data| - bytesToWrite + bytesWritten];
      bytesToWrite := bytesToWrite - bytesWritten;
      if bytesToWrite > 0 {
        buffer := buffer[bytesWritten..];
      }
    }
    ok := true;
  }

  /** MultipartFormData. */
  class FormData {
    const boundary: Bytes
    var bodyParts: seq<BodyPart>
    var bodyPartError: bool

    /** The objects that encoding changes. */
    ghost function Streams(): set<object>
      reads this
    {
      set p | p in bodyParts :: p.bodyStream as object
    }

    ghost function Repr(): set<object>
      reads this
    {
      (set p | p in bodyParts :: p as object) + Streams()
    }

    function Parts(): seq<Part>
      reads this
    {
      seq(|bodyParts|, i requires 0 <= i < |bodyParts| reads this => PartOf(bodyParts[i]))
    }

    /** Parts and streams that have not been encoded before, each used once. */
    ghost predicate Fresh()
      reads this, Repr()
    {
      Distinct() && UnreadFrom(0) && forall p | p in bodyParts :: !p.hasInitialBoundary && !p.hasFinalBoundary
    }

    ghost predicate UnreadFrom(i: nat)
      reads this, Streams()
    {
      forall j | i <= j < |bodyParts| :: bodyParts[j] in bodyParts && bodyParts[j].bodyStream.Unread()
    }

    ghost predicate Distinct()
      reads this
    {
      forall i, j | 0 <= i < j < |bodyParts| ::
        bodyParts[i] != bodyParts[j] && bodyParts[i].bodyStream != bodyParts[j].bodyStream
    }

    constructor (boundary: Bytes)
      ensures this.boundary == boundary && bodyParts == [] && !bodyPartError && Fresh() && Parts() == []
    {
      this.boundary := boundary;
      bodyParts, bodyPartError := [], false;
    }

    /** append of a stream. */
    method Append(s: InputStream, headers: seq<Header>)
      requires Fresh() && s.Unread() && s !in Streams()
      modifies this
      ensures |bodyParts| == |old(bodyParts)| + 1
      ensures Fresh() && Parts() == old(Parts()) + [Part(headers, s.content)] && fresh(Repr() - old(Repr()) - {s})
      ensures bodyPartError == old(bodyPartError)
      ensures bodyParts == old(bodyParts) + [bodyParts[|bodyParts| - 1]] && bodyParts[|bodyParts| - 1].bodyStream == s
    {
      var part := new BodyPart(headers, s);
      bodyParts := bodyParts + [part];
    }

    /** The flags that encode and writeEncodedData set on the first and the last part. */
    method MarkEnds()
      requires Fresh()
      modifies Repr()
      ensures Ready(0)
    {
      if |bodyParts| > 0 {
        bodyParts[0].hasInitialBoundary := true;
        bodyParts[|bodyParts| - 1].hasFinalBoundary := true;
      }
    }

    ghost predicate Marked()
      reads this, Repr()
    {
      forall i | 0 <= i < |bodyParts| :: bodyParts[i] in bodyParts &&
        bodyParts[i].hasInitialBoundary == (i == 0) && bodyParts[i].hasFinalBoundary == (i == |bodyParts| - 1)
    }

    /** Every part's stream is in error exactly if one of its reads failed. */
    ghost predicate AllSound()
      reads this, Streams()
    {
      forall p | p in bodyParts :: p.bodyStream.Sound()
    }

    /** The flags are set, and the parts from `i` on have not been read yet. */
    ghost predicate Ready(i: nat)
      reads this, Repr()
    {
      Distinct() && Marked() && UnreadFrom(i) && AllSound()
    }

    /** encode of one part. */
    method EncodePart(p: BodyPart) returns (ok: bool, encoded: Bytes)
      requires p.bodyStream.Unread()
      modifies p.bodyStream
      ensures ok == !p.bodyStream.streamError
      ensures p.bodyStream.Sound()
      ensures ok ==> encoded == EncodedPart(boundary, PartOf(p), p.hasInitialBoundary, p.hasFinalBoundary)
    {
      encoded := BoundaryData(if p.hasInitialBoundary then Initial else Encapsulated, boundary);
      encoded := encoded + HeaderData(p.headers);
      var body;
      ok, body := EncodeBodyStream(p.bodyStream);
      if !ok {
        return;
      }
      encoded := encoded + body;
      if p.hasFinalBoundary {
        encoded := encoded + BoundaryData(Final, boundary);
      }
    }

    /** No read of a part before `i` has failed. */
    ghost predicate NoErrors(i: nat)
      reads this, Streams()
    {
      forall j | 0 <= j < i && j < |bodyParts| :: bodyParts[j] in bodyParts && !bodyParts[j].bodyStream.streamError
    }

    /** encode: it succeeds exactly if no part was added in error and no read failed. */
    method Encode() returns (ok: bool, encoded: Bytes)
      requires Fresh()
      modifies Repr()
      ensures ok == (!bodyPartError && NoErrors(|bodyParts|)) && AllSound()
      ensures ok ==> encoded == EncodedForm(boundary, Parts())
    {
      encoded := [];
      if bodyPartError {
        return false, encoded;
      }
      MarkEnds();
      ok, encoded := EncodeParts(Parts());
    }

    method EncodeParts(ghost parts: seq<Part>) returns (ok: bool, encoded: Bytes)
      requires Ready(0) && parts == Parts()
      modifies Streams()
      ensures ok == NoErrors(|bodyParts|) && AllSound()
      ensures ok ==> encoded == EncodedForm(boundary, parts)
    {
      encoded := [];
      for i := 0 to |bodyParts|
        invariant Ready(i) && NoErrors(i)
        invariant encoded + EncodedFrom(boundary, parts, i) == EncodedForm(boundary, parts)
      {
        var data;
        ok, data := EncodeAt(i, parts);
        if !ok {
          return;
        }
        PartStep(boundary, parts, i, encoded, data);
        encoded := encoded + data;
      }
      ok := true;
    }

    method EncodeAt(i: nat, ghost parts: seq<Part>) returns (ok: bool, data: Bytes)
      requires i < |bodyParts| && Ready(i) && NoErrors(i) && parts == Parts()
      modifies Streams()
      ensures Ready(i + 1) && (if ok then NoErrors(i + 1) else !NoErrors(|bodyParts|))
      ensures ok ==> data == EncodedPart(boundary, parts[i], i == 0, i == |bodyParts| - 1)
    {
      ok, data := EncodePart(bodyParts[i]);
    }

    /** write of one part. */
    method WritePart(p: BodyPart, out: OutputStream) returns (ok: bool)
      requires p.bodyStream.Unread() && !out.streamError
      modifies p.bodyStream, out
      ensures out.Took(ok, EncodedPart(boundary, PartOf(p), p.hasInitialBoundary, p.hasFinalBoundary))
      ensures ok == (!p.bodyStream.streamError && !out.streamError) && p.bodyStream.Sound()
    {
      ghost var s0 := out.Snap();
      ghost var rest := if p.hasFinalBoundary then BoundaryData(Final, boundary) else [];
      ok := WriteOpenPart(p, out);
      ghost var s1 := out.Snap();
      if ok {
        ok := WriteFinalBoundaryData(p, out);
        AddedTwo(out.hasSpace, out.fails, s0, s1, out.Snap(), out.streamError, ok, OpenPart(p), rest);
      } else {
        AddedLess(out.hasSpace, out.fails, s0, s1, out.streamError, OpenPart(p), rest);
      }
    }

    /** A part up to the end of its body. */
    ghost function OpenPart(p: BodyPart): Bytes
      reads p
    {
      BoundaryData(if p.hasInitialBoundary then Initial else Encapsulated, boundary) + HeaderData(p.headers)
      + PartOf(p).body
    }

    method WriteOpenPart(p: BodyPart, out: OutputStream) returns (ok: bool)
      requires p.bodyStream.Unread() && !out.streamError
      modifies p.bodyStream, out
      ensures out.Took(ok, OpenPart(p))
      ensures ok == (!p.bodyStream.streamError && !out.streamError) && p.bodyStream.Sound()
    {
      ghost var s0 := out.Snap();
      ghost var head := BoundaryData(if p.hasInitialBoundary then Initial else Encapsulated, boundary)
                        + HeaderData(p.headers);
      ok := WriteHead(p, out);
      ghost var s1 := out.Snap();
      if ok {
        ok := WriteBodyStream(p.bodyStream, out);
        AddedTwo(out.hasSpace, out.fails, s0, s1, out.Snap(), out.streamError, ok, head, PartOf(p).body);
      } else {
        AddedLess(out.hasSpace, out.fails, s0, s1, out.streamError, head, PartOf(p).body);
      }
    }

    /** writeInitialBoundaryData and writeHeaderData. */
    method WriteHead(p: BodyPart, out: OutputStream) returns (ok: bool)
      requires !out.streamError
      modifies out
      ensures out.Took(ok, BoundaryData(if p.hasInitialBoundary then Initial else Encapsulated, boundary)
                           + HeaderData(p.headers))
      ensures ok == !out.streamError
    {
      ghost var s0 := out.Snap();
      var a := BoundaryData(if p.hasInitialBoundary then Initial else Encapsulated, boundary);
      ok := WriteBuffer(a, out);
      ghost var s1 := out.Snap();
      if !ok {
        AddedLess(out.hasSpace, out.fails, s0, s1, out.streamError, a, HeaderData(p.headers));
        return;
      }
      ok := WriteBuffer(HeaderData(p.headers), out);
      AddedTwo(out.hasSpace, out.fails, s0, s1, out.Snap(), out.streamError, ok, a, HeaderData(p.headers));
    }

    method WriteFinalBoundaryData(p: BodyPart, out: OutputStream) returns (ok: bool)
      requires !out.streamError
      modifies out
      ensures out.Took(ok, if p.hasFinalBoundary then BoundaryData(Final, boundary) else [])
      ensures ok == !out.streamError
    {
      ok := true;
      if p.hasFinalBoundary {
        ok := WriteBuffer(BoundaryData(Final, boundary), out);
      }
    }

    /** writeEncodedData, to a stream that could be opened.  It succeeds exactly if no part was added in error and no
        read or write failed.  Then the same bytes as from encode were written, exactly if no poll for space was denied;
        otherwise some of them are missing, although the call succeeds. */
    method WriteEncodedData(out: OutputStream) returns (ok: bool)
      requires Fresh() && !out.streamError
      modifies Repr(), out
      ensures ok == (!bodyPartError && NoErrors(|bodyParts|) && !out.streamError) && AllSound()
      ensures out.streamError <==> !Healthy(out.fails, old(out.writeCount), out.writeCount)
      ensures ok ==> (out.written == old(out.written) + EncodedForm(boundary, Parts())
                      <==> Spacious(out.hasSpace, old(out.pollCount), out.pollCount))
      ensures Spacious(out.hasSpace, old(out.pollCount), out.pollCount) ==>
                old(out.written) <= out.written <= old(out.written) + EncodedForm(boundary, Parts())
      ensures ok && bodyParts != [] ==> out.pollCount > old(out.pollCount)
    {
      if bodyPartError {
        return false;
      }
      MarkEnds();
      ok := WriteParts(out, Parts());
      if bodyParts != [] {
        FormNotEmpty(boundary, Parts());
      }
    }

    method WriteParts(out: OutputStream, ghost parts: seq<Part>) returns (ok: bool)
      requires Ready(0) && parts == Parts() && !out.streamError
      modifies Streams(), out
      ensures out.Took(ok, EncodedForm(boundary, parts))
      ensures ok == (NoErrors(|bodyParts|) && !out.streamError) && AllSound()
    {
      ghost var h, f, s0, done: Bytes := out.hasSpace, out.fails, out.Snap(), [];
      for i := 0 to |bodyParts|
        invariant Ready(i) && NoErrors(i) && !out.streamError
        invariant Added(h, f, s0, out.Snap(), false, true, done)
        invariant done + EncodedFrom(boundary, parts, i) == EncodedForm(boundary, parts)
      {
        ghost var s1 := out.Snap();
        ghost var data := EncodedPart(boundary, parts[i], i == 0, i == |bodyParts| - 1);
        ok := WriteAt(i, out, parts);
        PartAdded(h, f, s0, s1, out.Snap(), out.streamError, ok, boundary, parts, i, done);
        if !ok {
          return;
        }
        done := done + data;
      }
      assert done + [] == done;
      ok := true;
    }

    method WriteAt(i: nat, out: OutputStream, ghost parts: seq<Part>) returns (ok: bool)
      requires i < |bodyParts| && Ready(i) && NoErrors(i) && parts == Parts() && !out.streamError
      modifies Streams(), out
      ensures Ready(i + 1)
      ensures if ok then NoErrors(i + 1) && !out.streamError else !NoErrors(|bodyParts|) || out.streamError
      ensures out.Took(ok, EncodedPart(boundary, parts[i], i == 0, i == |bodyParts| - 1))
    {
      ok := WritePart(bodyParts[i], out);
    }
  }

  /** writeBodyStream: every read is written before the next. */
  method WriteBodyStream(s: InputStream, out: OutputStream) returns (ok: bool)
    requires s.Valid() && s.Unread() && !out.streamError
    modifies s, out
    ensures out.Took(ok, s.content) && ok == (!s.streamError && !out.streamError) && s.Sound()
  {
    ghost var h, f, s0 := out.hasSpace, out.fails, out.Snap();
    var available := s.HasBytesAvailable();
    while available
      invariant s.Valid() && !s.streamError && !out.streamError && s.Sound()
      invariant Added(h, f, s0, out.Snap(), false, true, s.content[..s.pos])
      invariant s.pos < |s.content| ==> available
      decreases |s.content| - s.pos, available
    {
      ghost var s1, before := out.Snap(), s.content[..s.pos];
      var buffer := s.Read(STREAM_BUFFER_SIZE);
      if s.streamError {
        return false;
      }
      if |buffer| == 0 {
        break;
      }
      ok := WriteBuffer(buffer, out);
      AddedTwo(h, f, s0, s1, out.Snap(), out.streamError, ok, before, buffer);
      if !ok {
        return;
      }
      assert before + buffer == s.content[..s.pos];
      available := s.HasBytesAvailable();
    }
    ok := true;
  }

  lemma FormNotEmpty(boundary: Bytes, parts: seq<Part>)
    requires parts != []
    ensures EncodedForm(boundary, parts) != []
  {}

  lemma {:induction false} PartAdded(hasSpace: nat -> bool, fails: nat -> bool, a: Snapshot, b: Snapshot, c: Snapshot,
                                     error: bool, ok: bool, boundary: Bytes, parts: seq<Part>, i: nat, done: Bytes)
    requires i < |parts| && Added(hasSpace, fails, a, b, false, true, done)
    requires Added(hasSpace, fails, b, c, error, ok, EncodedPart(boundary, parts[i], i == 0, i == |parts| - 1))
    requires done + EncodedFrom(boundary, parts, i) == EncodedForm(boundary, parts)
    ensures var data := EncodedPart(boundary, parts[i], i == 0, i == |parts| - 1);
            done + data + EncodedFrom(boundary, parts, i + 1) == EncodedForm(boundary, parts)
            && if ok then Added(hasSpace, fails, a, c, error, true, done + data)
               else Added(hasSpace, fails, a, c, error, false, EncodedForm(boundary, parts))
  {
    var data := EncodedPart(boundary, parts[i], i == 0, i == |parts| - 1);
    PartStep(boundary, parts, i, done, data);
    AddedTwo(hasSpace, fails, a, b, c, error, ok, done, data);
    if !ok {
      AddedLess(hasSpace, fails, a, c, error, done + data, EncodedFrom(boundary, parts, i + 1));
    }
  }

  lemma PartStep(boundary: Bytes, parts: seq<Part>, i: nat, encoded: Bytes, data: Bytes)
    requires i < |parts| && data == EncodedPart(boundary, parts[i], i == 0, i == |parts| - 1)
    ensures encoded + EncodedFrom(boundary, parts, i) == encoded + data + EncodedFrom(boundary, parts, i + 1)
  {
    assert encoded + (data + EncodedFrom(boundary, parts, i + 1))
           == encoded + data + EncodedFrom(boundary, parts, i + 1);
  }

  /** A run that loses bytes: one empty part, and a stream that has no space when it is first asked.  The call
      succeeds, and the form is not what was written. */
  method Truncated(boundary: Bytes) returns (ok: bool, written: Bytes)
    ensures ok && written != EncodedForm(boundary, [Part([], [])])
  {
    var form := new FormData(boundary);
    var body := new InputStream([], k => false);
    form.Append(body, []);
    assert form.Parts() == [Part([], [])];
    assert form.bodyParts[0].bodyStream == body;
    var out := new OutputStream(k => k != 0, k => false);
    ok := form.WriteEncodedData(out);
    assert form.bodyParts[0] in form.bodyParts;
    assert !out.hasSpace(0);
    written := out.written;
  }
}
