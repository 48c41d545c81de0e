/** A submessage may come in several pieces. */
module Submessages {
  import opened Schema
  import opened Varint
  import opened Streams
  import opened OutputStreams
  import opened WireReader
  import opened Presence
  import opened RoundTrip
  import opened Concatenation

  /** The structure holds `x` for the submessage at position `i`, which is neither an array nor a member of a union. */
  predicate Holds(schema: seq<Field>, i: nat, st: Progress, x: Message) {
    && i < |schema| == |st.m| && schema[i].ltype.SUBMESSAGE? && |x| == |schema[i].sub|
    && FindTag(schema, schema[i].tag) == i && 1 <= schema[i].tag < 0x2000_0000
    && if schema[i].htype.OPTIONAL? && schema[i].sizeOffset != 0 then
         st.m[i] == Opt(true, MsgVal(x)) || st.m[i] == Opt(false, MsgVal(x))
       else (schema[i].htype.OPTIONAL? || schema[i].htype.REQUIRED?) && st.m[i] == Single(MsgVal(x))
  }

  function Piece(schema: seq<Field>, i: nat, a: Bytes): Bytes
    requires i < |schema|
  {
    EncTag(WT_STRING, schema[i].tag) + Delimit(a)
  }

  /** A piece is read by pb_decode_noinit into the structure that is there, and into nothing else. */
  lemma {:induction false} PieceRead(schema: seq<Field>, i: nat, a: Bytes, t: Bytes, st: Progress, x: Message)
    returns (st': Progress)
    requires Holds(schema, i, st, x) && |a| < 0x1_0000_0000
    ensures var p := DecodeNoinit(schema[i].sub, a, x);
            if p.Fail? then Loop(schema, Piece(schema, i, a) + t, st) == LoopError
            else
              && Holds(schema, i, st', p.v) && (st'.m[i].Opt? ==> st'.m[i].has)
              && Loop(schema, Piece(schema, i, a) + t, st) == Loop(schema, t, st')
              && (forall j | 0 <= j < |schema| && j != i :: st'.m[j] == st.m[j])
              && st' == Progress(st'.m, Marked(schema, i, st.seen), st.fix, st.fixCount)
  {
    var f := schema[i];
    TagRoundTrip(f.tag, WT_STRING, Delimit(a) + t);
    DelimitTail(a, t);
    assert Piece(schema, i, a) + t == EncTag(WT_STRING, f.tag) + (Delimit(a) + t);
    var p := DecodeNoinit(f.sub, a, x);
    var st2 := st.(seen := Marked(schema, i, st.seen));
    assert DecVal(f, Delimit(a) + t, ItemOf(st.m[i])) == if p.Done? then Done(MsgVal(p.v), t) else Fail;
    assert Known(schema, i, WT_STRING, Delimit(a) + t, st) == DecField(schema, i, WT_STRING, Delimit(a) + t, st2);
    st' := if p.Done? then DecField(schema, i, WT_STRING, Delimit(a) + t, st2).v else st;
  }

  /** Two pieces are as good as one with the bytes of both, except where concatenation does not merge. */
  lemma {:induction false} PiecesMerge(schema: seq<Field>, i: nat, a: Bytes, b: Bytes, t: Bytes, st: Progress,
                                       x: Message)
    requires Holds(schema, i, st, x) && |a| + |b| < 0x1_0000_0000
    requires var sub := schema[i].sub;
             && DecodeNoinit(sub, a, x).Done? && !Loop(sub, a, Start(x)).zero
             && var y := DecodeNoinit(sub, a, x).v;
                DecodeNoinit(sub, b, y).Done? && !Clash(sub, FixedRead(sub, a, Start(x)), FixedRead(sub, b, Start(y)))
    ensures Loop(schema, Piece(schema, i, a) + (Piece(schema, i, b) + t), st)
            == Loop(schema, Piece(schema, i, a + b) + t, st)
  {
    var sub := schema[i].sub;
    var y := DecodeNoinit(sub, a, x).v;
    ConcatenationMerges(sub, a, b, x);
    var st1 := PieceRead(schema, i, a, Piece(schema, i, b) + t, st, x);
    var st2 := PieceRead(schema, i, b, t, st1, y);
    var both := PieceRead(schema, i, a + b, t, st, x);
    assert st2.seen == both.seen;
    assert st2.m == both.m;
  }
}
