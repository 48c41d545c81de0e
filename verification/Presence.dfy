/** What the required-field check of pb_decode_noinit says about the bytes. */
module Presence {
  import opened Config
  import opened Schema
  import opened Streams
  import opened WireReader
  import opened RequiredFields

  /** The tags of the fields that the field loop meets. */
  function TagsRead(schema: seq<Field>, s: Bytes, st: Progress): seq<nat>
    requires |st.m| == |schema|
    decreases |s|
  {
    match ReadTag(s)
    case TagError => []
    case Stop(rest) => []
    case Header(tag, wireType, rest) =>
      match Step(schema, tag, wireType, rest, st)
      case Fail => [tag]
      case Done(st', rest') => [tag] + TagsRead(schema, rest', st')
  }

  /** A required field that has a bit in the bitmap. */
  predicate TrackedField(schema: seq<Field>, i: nat) {
    i < |schema| && schema[i].htype.REQUIRED? && ReqIndex(schema, i) < MAX_REQUIRED
  }

  /** The required fields that were seen, once field `i` has come. */
  function Marked(schema: seq<Field>, i: nat, seen: set<nat>): set<nat>
    requires i < |schema|
  {
    if schema[i].htype.REQUIRED? && ReqIndex(schema, i) < MAX_REQUIRED then seen + {ReqIndex(schema, i)} else seen
  }

  /** Different required fields have different bits. */
  lemma {:induction false} BitsDiffer(schema: seq<Field>, i: nat, j: nat)
    requires i < |schema| && j < |schema| && schema[i].htype.REQUIRED? && schema[j].htype.REQUIRED? && i != j
    ensures ReqIndex(schema, i) != ReqIndex(schema, j)
  {
    if i < j {
      ReqIndexMonotone(schema, i + 1, j);
    } else {
      ReqIndexMonotone(schema, j + 1, i);
    }
  }

  /** Every bit in use belongs to a required field. */
  lemma {:induction false} FieldOfBit(schema: seq<Field>, r: nat, n: nat) returns (i: nat)
    requires n <= |schema| && r < ReqIndex(schema, n)
    ensures i < n && schema[i].htype.REQUIRED? && ReqIndex(schema, i) == r
    decreases n
  {
    if schema[n - 1].htype.REQUIRED? && ReqIndex(schema, n - 1) == r {
      i := n - 1;
    } else {
      i := FieldOfBit(schema, r, n - 1);
    }
  }

  lemma {:induction false} StepMarks(schema: seq<Field>, tag: nat, wireType: nat, s: Bytes, st: Progress, i: nat)
    requires SchemaOk(schema) && |st.m| == |schema| && TrackedField(schema, i)
    requires Step(schema, tag, wireType, s, st).Done?
    ensures var r := ReqIndex(schema, i);
            r in Step(schema, tag, wireType, s, st).v.seen <==> r in st.seen || tag == schema[i].tag
  {
    assert FieldOk(schema[i]);
    FindTagAt(schema, i);
    var j := FindTag(schema, tag);
    if j < |schema| {
      if j != i && schema[j].htype.REQUIRED? {
        BitsDiffer(schema, i, j);
      }
      KnownMarks(schema, j, wireType, s, st);
    }
  }

  lemma {:induction false} KnownMarks(schema: seq<Field>, j: nat, wireType: nat, s: Bytes, st: Progress)
    requires j < |schema| == |st.m| && Known(schema, j, wireType, s, st).Done?
    ensures Known(schema, j, wireType, s, st).v.seen == Marked(schema, j, st.seen)
  {
    var st1 := if FixedCount(schema[j]) && st.fix != j then st.(fix := j, fixCount := 0) else st;
    var r := ReqIndex(schema, j);
    var st2 := if schema[j].htype.REQUIRED? && r < MAX_REQUIRED then st1.(seen := st1.seen + {r}) else st1;
    assert Known(schema, j, wireType, s, st) == DecField(schema, j, wireType, s, st2);
    assert DecField(schema, j, wireType, s, st2).v.seen == st2.seen;
  }

  /** The bit of a required field is set exactly if its tag was read. */
  lemma {:induction false} SeenAreRead(schema: seq<Field>, s: Bytes, st: Progress, i: nat)
    requires SchemaOk(schema) && |st.m| == |schema| && TrackedField(schema, i) && Loop(schema, s, st).Ended?
    ensures ReqIndex(schema, i) in Loop(schema, s, st).st.seen
            <==> ReqIndex(schema, i) in st.seen || schema[i].tag in TagsRead(schema, s, st)
    decreases |s|
  {
    match ReadTag(s)
    case Stop(rest) =>
    case Header(tag, wireType, rest) =>
      var p := Step(schema, tag, wireType, rest, st);
      StepMarks(schema, tag, wireType, rest, st, i);
      SeenAreRead(schema, p.rest, p.v, i);
  }

  /** pb_decode_noinit accepts exactly the inputs whose fields can all be read, whose last fixed-count array is
      complete, and in which every tracked required field occurs. */
  lemma {:induction false} AcceptedExactly(schema: seq<Field>, s: Bytes, m: Message)
    requires SchemaOk(schema) && |m| == |schema|
    ensures DecodeNoinit(schema, s, m).Done?
            <==> var e := Loop(schema, s, Start(m));
                 e.Ended? && FixDone(schema, e.st)
                 && forall i: nat | TrackedField(schema, i) :: schema[i].tag in TagsRead(schema, s, Start(m))
  {
    var e := Loop(schema, s, Start(m));
    if e.Ended? {
      if Complete(schema, e.st) {
        forall i: nat | TrackedField(schema, i) ensures schema[i].tag in TagsRead(schema, s, Start(m)) {
          SeenAreRead(schema, s, Start(m), i);
          ReqIndexBelow(schema, i);
        }
      }
      if forall i: nat | TrackedField(schema, i) :: schema[i].tag in TagsRead(schema, s, Start(m)) {
        forall r: nat | r < ReqIndex(schema, |schema|) && r < MAX_REQUIRED ensures r in e.st.seen {
          var i := FieldOfBit(schema, r, |schema|);
          assert TrackedField(schema, i);
          SeenAreRead(schema, s, Start(m), i);
        }
      }
    }
  }
}
