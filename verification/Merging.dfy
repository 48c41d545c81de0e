/** Decoding a longer input: concatenation merges. */
module Merging {
  import opened Config
  import opened Schema
  import opened Varint
  import opened Streams
  import opened WireReader

  // ----- Every parser ignores what follows the part it reads -----

  lemma {:induction false} TakeExtend(s: Bytes, t: Bytes, n: nat)
    requires n <= |s|
    ensures Take(s + t, n) == Done(s[..n], s[n..] + t)
  {
    assert (s + t)[..n] == s[..n] && (s + t)[n..] == s[n..] + t;
  }

  lemma {:induction false} DelimitedExtend(s: Bytes, t: Bytes)
    requires Delimited(s).Done?
    ensures Delimited(s + t) == Done(Delimited(s).v, Delimited(s).rest + t)
  {
    Varint32Extend(s, t);
    TakeExtend(Varint32(s).rest, t, Varint32(s).v);
  }

  lemma {:induction false} SkipExtend(wireType: nat, s: Bytes, t: Bytes)
    requires Skip(wireType, s).Done?
    ensures Skip(wireType, s + t) == Done((), Skip(wireType, s).rest + t)
  {
    if wireType == WT_VARINT {
      VarintLenExtend(s, t);
      assert (s + t)[VarintLen(s)..] == s[VarintLen(s)..] + t;
    } else if wireType == WT_STRING {
      DelimitedExtend(s, t);
    } else {
      TakeExtend(s, t, if wireType == WT_64BIT then 8 else 4);
    }
  }

  lemma {:induction false} ReadTagExtend(s: Bytes, t: Bytes)
    requires s != [] && !ReadTag(s).TagError?
    ensures ReadTag(s + t) == match ReadTag(s)
                              case Stop(rest) => Stop(rest + t)
                              case Header(tag, wireType, rest) => Header(tag, wireType, rest + t)
  {
    Varint32Extend(s, t);
  }

  lemma {:induction false} BlockExtend(s: Bytes, f: Field, t: Bytes)
    requires Block(s, f).Done?
    ensures Block(s + t, f) == Done(Block(s, f).v, Block(s, f).rest + t)
  {
    Varint32Extend(s, t);
    var size, rest := Varint32(s).v, Varint32(s).rest;
    if size <= |rest| {
      TakeExtend(rest, t, size);
    }
  }

  lemma {:induction false} DecValExtend(f: Field, s: Bytes, prev: Val, t: Bytes)
    requires DecVal(f, s, prev).Done?
    ensures DecVal(f, s + t, prev) == Done(DecVal(f, s, prev).v, DecVal(f, s, prev).rest + t)
  {
    match f.ltype
    case BOOL => Varint32Extend(s, t);
    case VARINT => Varint64Extend(s, t);
    case UVARINT => Varint64Extend(s, t);
    case SVARINT => Varint64Extend(s, t);
    case FIXED32 => TakeExtend(s, t, 4);
    case FIXED64 => TakeExtend(s, t, 8);
    case SUBMESSAGE => DelimitedExtend(s, t);
    case _ => BlockExtend(s, f, t);
  }

  lemma {:induction false} DecArrayExtend(f: Field, wireType: nat, s: Bytes, items: seq<Val>, count: nat, t: Bytes)
    requires DecArray(f, wireType, s, items, count).Done?
    ensures var p := DecArray(f, wireType, s, items, count);
            DecArray(f, wireType, s + t, items, count) == Done(p.v, p.rest + t)
  {
    if wireType == WT_STRING && Packable(f.ltype) {
      DelimitedExtend(s, t);
    } else {
      DecValExtend(f, s, UnsetVal(f), t);
    }
  }

  lemma {:induction false} DecFieldExtend(schema: seq<Field>, i: nat, wireType: nat, s: Bytes, st: Progress, t: Bytes)
    requires i < |schema| == |st.m| && DecField(schema, i, wireType, s, st).Done?
    ensures var p := DecField(schema, i, wireType, s, st);
            DecField(schema, i, wireType, s + t, st) == Done(p.v, p.rest + t)
  {
    var f := schema[i];
    match f.htype
    case REPEATED =>
      DecArrayExtend(f, wireType, s, ItemsOf(st.m[i]), if FixedCount(f) then st.fixCount else |ItemsOf(st.m[i])|, t);
    case ONEOF => DecValExtend(f, s, DefaultVal(f), t);
    case _ => DecValExtend(f, s, ItemOf(st.m[i]), t);
  }

  lemma {:induction false} StepExtend(schema: seq<Field>, tag: nat, wireType: nat, s: Bytes, st: Progress, t: Bytes)
    requires |st.m| == |schema| && Step(schema, tag, wireType, s, st).Done?
    ensures var p := Step(schema, tag, wireType, s, st);
            Step(schema, tag, wireType, s + t, st) == Done(p.v, p.rest + t)
  {
    var i := FindTag(schema, tag);
    if i < |schema| {
      var st1 := if FixedCount(schema[i]) && st.fix != i then st.(fix := i, fixCount := 0) else st;
      var r := ReqIndex(schema, i);
      var st2 := if schema[i].htype.REQUIRED? && r < MAX_REQUIRED then st1.(seen := st1.seen + {r}) else st1;
      DecFieldExtend(schema, i, wireType, s, st2, t);
    } else if schema == [] && tag == 0 {
      Varint32Extend(s, t);
    } else {
      SkipExtend(wireType, s, t);
    }
  }

  /** The field loop over `s + t` first does what it does over `s`, unless a zero tag ends the message there. */
  lemma {:induction false} LoopConcat(schema: seq<Field>, s: Bytes, st: Progress, t: Bytes)
    requires |st.m| == |schema| && Loop(schema, s, st).Ended?
    ensures var e := Loop(schema, s, st);
            Loop(schema, s + t, st) == if e.zero then Ended(e.st, true, e.rest + t) else Loop(schema, t, e.st)
    decreases |s|
  {
    if s == [] {
      assert s + t == t;
    } else {
      ReadTagExtend(s, t);
      match ReadTag(s)
      case Stop(rest) =>
      case Header(tag, wireType, rest) =>
        StepExtend(schema, tag, wireType, rest, st, t);
        var p := Step(schema, tag, wireType, rest, st);
        LoopConcat(schema, p.rest, p.v, t);
    }
  }

  // ----- The state that two messages share -----

  function Seen(st: Progress, more: set<nat>): Progress {
    st.(seen := st.seen + more)
  }

  /** Having seen more required fields before changes nothing but the record of them. */
  lemma {:induction false} LoopSeen(schema: seq<Field>, s: Bytes, st: Progress, more: set<nat>)
    requires |st.m| == |schema|
    ensures var e := Loop(schema, s, st);
            Loop(schema, s, Seen(st, more)) == if e.Ended? then Ended(Seen(e.st, more), e.zero, e.rest) else LoopError
    decreases |s|
  {
    match ReadTag(s)
    case TagError =>
    case Stop(rest) =>
    case Header(tag, wireType, rest) =>
      StepSeen(schema, tag, wireType, rest, st, more);
      var p := Step(schema, tag, wireType, rest, st);
      if p.Done? {
        LoopSeen(schema, p.rest, p.v, more);
      }
  }

  lemma {:induction false} StepSeen(schema: seq<Field>, tag: nat, wireType: nat, s: Bytes, st: Progress, more: set<nat>)
    requires |st.m| == |schema|
    ensures var p := Step(schema, tag, wireType, s, st);
            Step(schema, tag, wireType, s, Seen(st, more)) == if p.Done? then Done(Seen(p.v, more), p.rest) else Fail
  {
    var i := FindTag(schema, tag);
    if i < |schema| {
      var r := ReqIndex(schema, i);
      assert st.seen + more + {r} == st.seen + {r} + more;
      var st1 := if FixedCount(schema[i]) && st.fix != i then st.(fix := i, fixCount := 0) else st;
      var st2 := if schema[i].htype.REQUIRED? && r < MAX_REQUIRED then st1.(seen := st1.seen + {r}) else st1;
      DecFieldSeen(schema, i, wireType, s, st2, more);
    }
  }

  lemma {:induction false} DecFieldSeen(schema: seq<Field>, i: nat, wireType: nat, s: Bytes, st: Progress,
                                        more: set<nat>)
    requires i < |schema| == |st.m|
    ensures var p := DecField(schema, i, wireType, s, st);
            DecField(schema, i, wireType, s, Seen(st, more)) == if p.Done? then Done(Seen(p.v, more), p.rest) else Fail
  {}
}
