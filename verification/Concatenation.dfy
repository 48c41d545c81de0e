/** When the concatenation of two messages is decoded like the second one into what the first one left. */
module Concatenation {
  import opened Config
  import opened Schema
  import opened Varint
  import opened Streams
  import opened WireReader
  import opened Merging
  import opened Presence

  // ----- Fixed-count fields among those read -----

  predicate FixedTag(schema: seq<Field>, tag: nat) {
    FindTag(schema, tag) < |schema| && FixedCount(schema[FindTag(schema, tag)])
  }

  /** The tags of fixed-count fields. */
  function FixedTags(schema: seq<Field>, tags: seq<nat>): seq<nat> {
    if tags == [] then []
    else (if FixedTag(schema, tags[0]) then [tags[0]] else []) + FixedTags(schema, tags[1..])
  }

  lemma FixedTagsNext(schema: seq<Field>, tag: nat, tags: seq<nat>)
    ensures FixedTags(schema, [tag] + tags) == (if FixedTag(schema, tag) then [tag] else []) + FixedTags(schema, tags)
  {
    assert ([tag] + tags)[1..] == tags;
  }

  function FixedRead(schema: seq<Field>, s: Bytes, st: Progress): seq<nat>
    requires |st.m| == |schema|
  {
    FixedTags(schema, TagsRead(schema, s, st))
  }

  lemma {:induction false} FixedReadNext(schema: seq<Field>, s: Bytes, st: Progress)
    requires |st.m| == |schema| && ReadTag(s).Header?
    ensures var h := ReadTag(s);
            var p := Step(schema, h.tag, h.wireType, h.rest, st);
            FixedRead(schema, s, st)
            == (if FixedTag(schema, h.tag) then [h.tag] else [])
               + (if p.Done? then FixedRead(schema, p.rest, p.v) else [])
  {
    var h := ReadTag(s);
    var p := Step(schema, h.tag, h.wireType, h.rest, st);
    var more := if p.Done? then TagsRead(schema, p.rest, p.v) else [];
    assert TagsRead(schema, s, st) == if p.Done? then [h.tag] + more else [h.tag];
    assert [h.tag] + [] == [h.tag];
    FixedTagsNext(schema, h.tag, more);
  }

  // ----- The array position -----

  /** The same state with another array position. */
  function Placed(st: Progress, fix: int, fixCount: nat): Progress {
    st.(fix := fix, fixCount := fixCount)
  }

  /** Other fields neither read nor change the array position. */
  lemma {:induction false} StepAt(schema: seq<Field>, tag: nat, wireType: nat, s: Bytes, st: Progress, fix: int, n: nat)
    requires |st.m| == |schema| && !FixedTag(schema, tag)
    ensures var p := Step(schema, tag, wireType, s, st);
            && Step(schema, tag, wireType, s, Placed(st, fix, n))
               == (if p.Done? then Done(Placed(p.v, fix, n), p.rest) else Fail)
            && (p.Done? ==> p.v.fix == st.fix && p.v.fixCount == st.fixCount)
  {
    var i := FindTag(schema, tag);
    if i < |schema| {
      var r := ReqIndex(schema, i);
      var st2 := if schema[i].htype.REQUIRED? && r < MAX_REQUIRED then st.(seen := st.seen + {r}) else st;
      assert Step(schema, tag, wireType, s, st) == DecField(schema, i, wireType, s, st2);
      assert Step(schema, tag, wireType, s, Placed(st, fix, n))
             == DecField(schema, i, wireType, s, Placed(st2, fix, n));
      DecFieldAt(schema, i, wireType, s, st2, fix, n);
    }
  }

  lemma {:induction false} DecFieldAt(schema: seq<Field>, i: nat, wireType: nat, s: Bytes, st: Progress, fix: int,
                                      n: nat)
    requires i < |schema| == |st.m| && !FixedCount(schema[i])
    ensures var p := DecField(schema, i, wireType, s, st);
            && DecField(schema, i, wireType, s, Placed(st, fix, n))
               == (if p.Done? then Done(Placed(p.v, fix, n), p.rest) else Fail)
            && (p.Done? ==> p.v.fix == st.fix && p.v.fixCount == st.fixCount)
  {}

  /** A fixed-count field that is not the one being received is begun, if that one is complete. */
  lemma {:induction false} StepBegins(schema: seq<Field>, tag: nat, wireType: nat, s: Bytes, st: Progress)
    requires |st.m| == |schema| && FixedTag(schema, tag) && st.fix != FindTag(schema, tag)
    ensures Step(schema, tag, wireType, s, st)
            == if FixDone(schema, st) then Step(schema, tag, wireType, s, Placed(st, FindTag(schema, tag), 0)) else Fail
  {}

  lemma {:induction false} StepFixes(schema: seq<Field>, tag: nat, wireType: nat, s: Bytes, st: Progress)
    requires |st.m| == |schema| && FixedTag(schema, tag) && Step(schema, tag, wireType, s, st).Done?
    ensures Step(schema, tag, wireType, s, st).v.fix == FindTag(schema, tag)
  {
    var i := FindTag(schema, tag);
    var st1 := if st.fix != i then st.(fix := i, fixCount := 0) else st;
    assert Step(schema, tag, wireType, s, st) == DecField(schema, i, wireType, s, st1);
    assert DecField(schema, i, wireType, s, st1).v.fix == st1.fix;
  }

  /** The last fixed-count field that was read is the one the loop ends with. */
  lemma {:induction false} LastFixed(schema: seq<Field>, s: Bytes, st: Progress)
    requires |st.m| == |schema| && Loop(schema, s, st).Ended?
    ensures var tags, e := FixedRead(schema, s, st), Loop(schema, s, st);
            if tags == [] then e.st.fix == st.fix && e.st.fixCount == st.fixCount
            else FixedTag(schema, tags[|tags| - 1]) && e.st.fix == FindTag(schema, tags[|tags| - 1])
    decreases |s|
  {
    match ReadTag(s)
    case Stop(rest) =>
    case Header(tag, wireType, rest) =>
      var p := Step(schema, tag, wireType, rest, st);
      FixedReadNext(schema, s, st);
      LastFixed(schema, p.rest, p.v);
      if FixedTag(schema, tag) {
        StepFixes(schema, tag, wireType, rest, st);
      } else {
        StepAt(schema, tag, wireType, rest, st, st.fix, st.fixCount);
      }
  }

  /** The array position of a complete array is forgotten as soon as another fixed-count field begins; one without items
      is begun again as if it were another. */
  lemma {:induction false} LoopForgets(schema: seq<Field>, s: Bytes, st: Progress)
    requires |st.m| == |schema| && 0 <= st.fix < |schema| && FixDone(schema, st)
    requires var tags := FixedRead(schema, s, Placed(st, -1, 0));
             tags != [] && FindTag(schema, tags[0]) == st.fix ==> schema[st.fix].arraySize == 0
    ensures var e, tags := Loop(schema, s, Placed(st, -1, 0)), FixedRead(schema, s, Placed(st, -1, 0));
            Loop(schema, s, st)
            == if e.Ended? && tags == [] then Ended(Placed(e.st, st.fix, st.fixCount), e.zero, e.rest) else e
    decreases |s|
  {
    match ReadTag(s)
    case TagError =>
    case Stop(rest) =>
    case Header(tag, wireType, rest) =>
      FixedReadNext(schema, s, Placed(st, -1, 0));
      if FixedTag(schema, tag) {
        StepBegins(schema, tag, wireType, rest, Placed(st, -1, 0));
        if FindTag(schema, tag) != st.fix {
          StepBegins(schema, tag, wireType, rest, st);
        }
        assert Placed(Placed(st, -1, 0), FindTag(schema, tag), 0) == Placed(st, FindTag(schema, tag), 0);
        assert Step(schema, tag, wireType, rest, st) == Step(schema, tag, wireType, rest, Placed(st, -1, 0));
      } else {
        StepAt(schema, tag, wireType, rest, Placed(st, -1, 0), st.fix, st.fixCount);
        assert Placed(Placed(st, -1, 0), st.fix, st.fixCount) == st;
        var p := Step(schema, tag, wireType, rest, Placed(st, -1, 0));
        if p.Done? {
          assert Placed(Placed(p.v, st.fix, st.fixCount), -1, 0) == p.v;
          LoopForgets(schema, p.rest, Placed(p.v, st.fix, st.fixCount));
        }
      }
  }

  /** Reading into an array that is full: nothing fits, and only an empty packed payload does not try. */
  lemma {:induction false} FullArray(schema: seq<Field>, tag: nat, wireType: nat, s: Bytes, st: Progress)
    requires |st.m| == |schema| && FixedTag(schema, tag) && st.fix == FindTag(schema, tag)
    requires st.fixCount == schema[st.fix].arraySize
    ensures var p := Step(schema, tag, wireType, s, st);
            p.Done? ==> Step(schema, tag, wireType, s, Placed(st, st.fix, 0)) == Done(Placed(p.v, st.fix, 0), p.rest)
                        && p.v.fix == st.fix && p.v.fixCount == st.fixCount
  {
    var i := st.fix;
    var f := schema[i];
    assert Step(schema, tag, wireType, s, st) == DecField(schema, i, wireType, s, st);
    assert Step(schema, tag, wireType, s, Placed(st, i, 0)) == DecField(schema, i, wireType, s, Placed(st, i, 0));
    var items := ItemsOf(st.m[i]);
    if DecField(schema, i, wireType, s, st).Done? {
      assert DecArray(f, wireType, s, items, st.fixCount).Done?;
      assert DecPacked(f, Delimited(s).v, items, st.fixCount).Some?;
      assert DecArray(f, wireType, s, items, st.fixCount) == Done((items, st.fixCount), Delimited(s).rest);
      assert DecArray(f, wireType, s, items, 0) == Done((items, 0), Delimited(s).rest);
    }
  }

  /** An array that is complete cannot be received again: where it begins and fills up from the start, it overflows. */
  lemma {:induction false} LoopOverflows(schema: seq<Field>, s: Bytes, st: Progress, begun: bool)
    requires |st.m| == |schema| && 0 <= st.fix < |schema| && FixedCount(schema[st.fix])
    requires st.fixCount == schema[st.fix].arraySize > 0
    requires var st0 := if begun then Placed(st, st.fix, 0) else Placed(st, -1, 0);
             && Loop(schema, s, st0).Ended? && FixDone(schema, Loop(schema, s, st0).st)
             && (begun || (FixedRead(schema, s, st0) != [] && FindTag(schema, FixedRead(schema, s, st0)[0]) == st.fix))
    ensures Loop(schema, s, st).LoopError?
    decreases |s|
  {
    var st0 := if begun then Placed(st, st.fix, 0) else Placed(st, -1, 0);
    match ReadTag(s)
    case TagError =>
    case Stop(rest) =>
    case Header(tag, wireType, rest) =>
      FixedReadNext(schema, s, st0);
      if !FixedTag(schema, tag) {
        StepAt(schema, tag, wireType, rest, st0, st.fix, st.fixCount);
        assert Placed(st0, st.fix, st.fixCount) == st;
        var p0 := Step(schema, tag, wireType, rest, st0);
        assert Placed(Placed(p0.v, st.fix, st.fixCount), st0.fix, 0) == p0.v;
        LoopOverflows(schema, p0.rest, Placed(p0.v, st.fix, st.fixCount), begun);
      } else {
        if FindTag(schema, tag) != st.fix || !begun {
          StepBegins(schema, tag, wireType, rest, st0);
        }
        assert FindTag(schema, tag) == st.fix;
        FullArray(schema, tag, wireType, rest, st);
        var p := Step(schema, tag, wireType, rest, st);
        if p.Done? {
          LoopOverflows(schema, p.rest, p.v, true);
        }
      }
  }

  // ----- Main results -----

  /** The last fixed-count array of the first message is the first one of the second, and it has items. */
  predicate Clash(schema: seq<Field>, first: seq<nat>, second: seq<nat>) {
    && first != [] && second != [] && first[|first| - 1] == second[0]
    && FindTag(schema, second[0]) < |schema| && schema[FindTag(schema, second[0])].arraySize > 0
  }

  /** What the second message comes to behind the first one, which ended in `st1`. */
  lemma {:induction false} Continued(schema: seq<Field>, b2: Bytes, st1: Progress, first: seq<nat>)
    requires |st1.m| == |schema| && Complete(schema, st1)
    requires if first == [] then st1.fix == -1 && st1.fixCount == 0
             else FixedTag(schema, first[|first| - 1]) && st1.fix == FindTag(schema, first[|first| - 1])
    ensures var e2, e := Loop(schema, b2, Start(st1.m)), Loop(schema, b2, st1);
            var accepted := e2.Ended? && FixDone(schema, e2.st);
            if Clash(schema, first, FixedRead(schema, b2, Start(st1.m))) then accepted ==> e.LoopError?
            else if accepted then e.Ended? && e.st.m == e2.st.m && e.rest == e2.rest && Complete(schema, e.st)
            else e.Ended? ==> !Complete(schema, e.st)
  {
    var u, second, e2 := st1.(seen := {}), FixedRead(schema, b2, Start(st1.m)), Loop(schema, b2, Start(st1.m));
    assert Seen(u, st1.seen) == st1 && Placed(u, -1, 0) == Start(st1.m);
    LoopSeen(schema, b2, u, st1.seen);
    if first == [] {
      assert u == Start(st1.m);
    } else if !Clash(schema, first, second) {
      LoopForgets(schema, b2, u);
      if e2.Ended? {
        LastFixed(schema, b2, Start(st1.m));
      }
    } else if e2.Ended? && FixDone(schema, e2.st) {
      LoopOverflows(schema, b2, u, false);
    }
  }

  /** pb_decode_noinit merges: a message followed by another is decoded like the second one into the structure that the
      first one left, except that the second need not repeat the required fields.  It does so exactly unless the last
      fixed-count array of the first message is also the first one of the second: then a second message that would be
      accepted by itself is rejected. */
  lemma {:induction false} ConcatenationMerges(schema: seq<Field>, b1: Bytes, b2: Bytes, m: Message)
    requires |m| == |schema|
    requires DecodeNoinit(schema, b1, m).Done? && !Loop(schema, b1, Start(m)).zero
    ensures var m1 := DecodeNoinit(schema, b1, m).v;
            var e2, both := Loop(schema, b2, Start(m1)), DecodeNoinit(schema, b1 + b2, m);
            var accepted := e2.Ended? && FixDone(schema, e2.st);
            if Clash(schema, FixedRead(schema, b1, Start(m)), FixedRead(schema, b2, Start(m1)))
            then accepted ==> both.Fail?
            else both == if accepted then Done(e2.st.m, e2.rest) else Fail
    ensures var m1 := DecodeNoinit(schema, b1, m).v;
            DecodeNoinit(schema, b2, m1).Done? ==>
              (DecodeNoinit(schema, b1 + b2, m) == DecodeNoinit(schema, b2, m1)
               <==> !Clash(schema, FixedRead(schema, b1, Start(m)), FixedRead(schema, b2, Start(m1))))
  {
    LoopConcat(schema, b1, Start(m), b2);
    LastFixed(schema, b1, Start(m));
    Continued(schema, b2, Loop(schema, b1, Start(m)).st, FixedRead(schema, b1, Start(m)));
  }

  predicate NoFixedCount(schema: seq<Field>) {
    forall i | 0 <= i < |schema| :: !FixedCount(schema[i])
  }

  /** In particular it merges always where there are no fixed-count fields. */
  lemma {:induction false} NoFixedCountMerges(schema: seq<Field>, b1: Bytes, b2: Bytes, m: Message)
    requires |m| == |schema| && NoFixedCount(schema)
    requires DecodeNoinit(schema, b1, m).Done? && !Loop(schema, b1, Start(m)).zero
    ensures var e2 := Loop(schema, b2, Start(DecodeNoinit(schema, b1, m).v));
            DecodeNoinit(schema, b1 + b2, m) == if e2.Ended? then Done(e2.st.m, e2.rest) else Fail
  {
    var m1 := DecodeNoinit(schema, b1, m).v;
    ConcatenationMerges(schema, b1, b2, m);
    LastFixed(schema, b1, Start(m));
    if Loop(schema, b2, Start(m1)).Ended? {
      LastFixed(schema, b2, Start(m1));
    }
  }
}
