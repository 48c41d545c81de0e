/** pb_common.c: the cyclic iterator over the descriptors of a message. */
module FieldIterator {
  import opened Bits
  import opened Config
  import opened Schema

  /** What a field takes up in the structure. */
  function Extent(f: Field): nat {
    if f.atype.STATIC? && f.htype.REPEATED? then f.dataSize * f.arraySize
    else if f.atype.PTR? then POINTER_SIZE
    else f.dataSize
  }

  /** Where the members of a structure are: the address of each field's data and of its count, flag or tag. */
  datatype Layout = Layout(data: seq<int>, size: seq<int>)

  /** The descriptors that the macros of pb.h generate for a structure laid out like that: every offset is
      relative to the end of the member before, except inside a union, where it is PB_SIZE_MAX. */
  ghost predicate Describes(schema: seq<Field>, l: Layout) {
    |l.data| == |l.size| == |schema| && forall i | 0 <= i < |schema| :: DescribesMember(schema, l, i)
  }

  ghost predicate DescribesMember(schema: seq<Field>, l: Layout, i: nat)
    requires |l.data| == |l.size| == |schema| && i < |schema|
  {
    && schema[i].tag >= 1
    && (if Joined(schema, i) then l.data[i] == l.data[i - 1] && l.size[i] == l.size[i - 1]
        else
          && l.data[i] == (if i == 0 then 0 else l.data[i - 1] + Extent(schema[i - 1])) + schema[i].dataOffset
          && l.size[i] == l.data[i] + schema[i].sizeOffset)
  }

  /** The layout that a descriptor array describes. */
  ghost function LayoutOf(schema: seq<Field>): (l: Layout)
    requires forall i | 0 <= i < |schema| :: schema[i].tag >= 1
    ensures Describes(schema, l)
  {
    if schema == [] then Layout([], [])
    else
      var n := |schema| - 1;
      var init := LayoutOf(schema[..n]);
      assert forall i | 0 <= i < n :: DescribesMember(schema[..n], init, i);
      var d := if Joined(schema, n) then init.data[n - 1]
               else (if n == 0 then 0 else init.data[n - 1] + Extent(schema[n - 1])) + schema[n].dataOffset;
      var z := if Joined(schema, n) then init.size[n - 1] else d + schema[n].sizeOffset;
      var l := Layout(init.data + [d], init.size + [z]);
      assert forall i | 0 <= i < n :: DescribesMember(schema, l, i) by {
        forall i | 0 <= i < n ensures DescribesMember(schema, l, i) {
          assert DescribesMember(schema[..n], init, i) && Joined(schema[..n], i) == Joined(schema, i);
        }
      }
      assert DescribesMember(schema, l, n);
      l
  }

  /** Members do not overlap: whatever is stored of a member lies before the next one, and is apart from it by the
      offset in the next descriptor.  A static array has all its items there, another static member has one, and a
      pointer has its address; all members of a union are in one place. */
  lemma {:induction false} MembersApart(schema: seq<Field>, l: Layout, i: nat)
    requires Describes(schema, l) && i + 1 < |schema|
    ensures var f, g := schema[i], schema[i + 1];
            if f.htype.ONEOF? && g.htype.ONEOF? && g.dataOffset == SIZE_MAX then
              l.data[i + 1] == l.data[i] && l.size[i + 1] == l.size[i]
            else
              && (f.atype.PTR? ==> l.data[i + 1] == l.data[i] + POINTER_SIZE + g.dataOffset)
              && (!f.atype.PTR? ==> l.data[i] + f.dataSize + g.dataOffset <= l.data[i + 1]
                                    || (f.atype.STATIC? && f.htype.REPEATED? && f.arraySize == 0))
              && (f.atype.STATIC? && !f.htype.REPEATED? ==> l.data[i + 1] == l.data[i] + f.dataSize + g.dataOffset)
              && (f.atype.STATIC? && f.htype.REPEATED? ==>
                    && (forall k: nat | k < f.arraySize ::
                          l.data[i] + k * f.dataSize + f.dataSize + g.dataOffset <= l.data[i + 1])
                    && (f.arraySize > 0 ==>
                          l.data[i] + (f.arraySize - 1) * f.dataSize + f.dataSize + g.dataOffset == l.data[i + 1])
                    && (f.arraySize == 0 ==> l.data[i + 1] == l.data[i] + g.dataOffset))
  {
    var f := schema[i];
    assert DescribesMember(schema, l, i + 1);
    if f.atype.STATIC? && f.htype.REPEATED? {
      forall k: nat | k < f.arraySize ensures k * f.dataSize + f.dataSize <= f.arraySize * f.dataSize {
        MulStep(k, f.arraySize, f.dataSize);
      }
    }
  }

  /** What pSize points to: a member of the structure, or the local counter of pb_decode_noinit. */
  datatype SizeRef = InStruct(address: int) | LocalCounter

  /** pb_field_iter_t. */
  class FieldIter {
    const start: seq<Field>
    const destStruct: int
    ghost const layout: Layout
    var pos: nat
    var requiredFieldIndex: nat
    var pData: int
    var pSize: SizeRef

    /** The iterator stands on a descriptor, or on the terminator of an empty message type; its pointers
        are those of the structure's own members, and the required fields before it are counted. */
    ghost predicate Valid()
      reads this
    {
      && Describes(start, layout)
      && (if start == [] then pos == 0 else pos < |start|)
      && requiredFieldIndex == ReqIndex(start, pos)
      && (start != [] ==>
            && pData == destStruct + layout.data[pos]
            && (pSize == InStruct(destStruct + layout.size[pos]) || (pSize == LocalCounter && FixedCount(start[pos]))))
    }

    predicate AtEnd()
      reads this
    {
      pos >= |start|
    }

    constructor (schema: seq<Field>, dest: int, ghost l: Layout)
      requires Describes(schema, l)
      ensures Valid() && start == schema && destStruct == dest && layout == l && pos == 0
    {
      start, destStruct, layout := schema, dest, l;
      pos, requiredFieldIndex := 0, 0;
      var dataOffset := if schema == [] then 0 else schema[0].dataOffset;
      var sizeOffset := if schema == [] then 0 else schema[0].sizeOffset;
      assert schema != [] ==> DescribesMember(schema, l, 0);
      pData := dest + dataOffset;
      pSize := InStruct(dest + dataOffset + sizeOffset);
    }

    /** pb_field_iter_begin. */
    method Begin() returns (ok: bool)
      requires Describes(start, layout)
      modifies this
      ensures Valid() && pos == 0 && ok == (start != [])
      ensures pSize != LocalCounter && (start != [] ==> pSize == InStruct(destStruct + layout.size[0]))
    {
      pos, requiredFieldIndex := 0, 0;
      var dataOffset := if start == [] then 0 else start[0].dataOffset;
      var sizeOffset := if start == [] then 0 else start[0].sizeOffset;
      assert start != [] ==> DescribesMember(start, layout, 0);
      pData := destStruct + dataOffset;
      pSize := InStruct(pData + sizeOffset);
      ok := start != [];
    }

    /** pb_field_iter_next: one step around the circle; false when it came back to the first descriptor. */
    method Next() returns (ok: bool)
      requires Valid()
      modifies this
      ensures Valid()
      ensures ok == (old(pos) + 1 < |start|)
      ensures pos == if ok then old(pos) + 1 else 0
      ensures pos != old(pos) ==> pSize == InStruct(destStruct + layout.size[pos])
      ensures if start == [] then pSize == old(pSize) else pSize != LocalCounter
    {
      if start == [] {
        return false;
      }
      var prev := start[pos];
      pos := pos + 1;
      if pos == |start| {
        var _ := Begin();
        return false;
      }
      var prevSize := prev.dataSize;
      assert DescribesMember(start, layout, pos);
      if prev.htype.ONEOF? && start[pos].htype.ONEOF? && start[pos].dataOffset == SIZE_MAX {
        return true;
      } else if prev.atype.STATIC? && prev.htype.REPEATED? {
        prevSize := prevSize * prev.arraySize;
      } else if prev.atype.PTR? {
        prevSize := POINTER_SIZE;
      }
      if prev.htype.REQUIRED? {
        requiredFieldIndex := requiredFieldIndex + 1;
      }
      pData := pData + prevSize + start[pos].dataOffset;
      pSize := InStruct(pData + start[pos].sizeOffset);
      return true;
    }

    /** One call of pb_field_iter_next for every descriptor, from any position: each descriptor is visited once, with
        its own pointers and required field index, the calls report the wrap-around, and in the end the iterator is
        where it was. */
    method Lap() returns (stops: seq<Stop>)
      requires Valid()
      modifies this
      ensures Valid() && pos == old(pos) && pData == old(pData) && requiredFieldIndex == old(requiredFieldIndex)
      ensures |stops| == |start| && forall k | 0 <= k < |stops| :: StopOk(stops[k])
      ensures forall i | 0 <= i < |start| :: VisitedOnce(stops, i)
      ensures if start == [] then pSize == old(pSize) else pSize == InStruct(destStruct + layout.size[pos])
    {
      stops := [];
      ghost var first, n := pos, |start|;
      for k := 0 to |start|
        invariant Valid() && |stops| == k
        invariant if k > 0 then pSize != LocalCounter else pSize == old(pSize) && pData == old(pData)
        invariant n > 0 ==> pos == LapPos(first, k, n)
        invariant forall j | 0 <= j < k :: StopOk(stops[j])
        invariant Circling(stops, first, n)
      {
        var more := Next();
        stops := stops + [Stop(pos, more, pData, pSize, requiredFieldIndex)];
      }
      CircleVisitsOnce(stops, first, n);
    }

    /** What the iterator shows of a descriptor: the structure's own members and the required fields before it. */
    ghost predicate StopOk(s: Stop)
      requires Describes(start, layout)
    {
      && s.index < |start|
      && (s.more <==> s.index != 0)
      && s.pData == destStruct + layout.data[s.index]
      && s.pSize == InStruct(destStruct + layout.size[s.index])
      && s.requiredFieldIndex == ReqIndex(start, s.index)
    }

    /** pb_field_iter_find: the first descriptor with the tag on the lap that starts where the iterator stands; if
        there is none, the iterator is back where it was.  The terminator of an empty message type matches tag 0. */
    method Find(tag: nat) returns (found: bool)
      requires Valid()
      modifies this
      ensures Valid()
      ensures tag >= 1 ==> found == (exists i | 0 <= i < |start| :: Matches(start, i, tag))
      ensures tag >= 1 ==> found == (FindTag(start, tag) < |start|)
      ensures tag == 0 ==> found == (start == [])
      ensures found && tag >= 1 ==> Nearest(start, old(pos), tag, pos)
      ensures found && tag >= 1 && DistinctTags(start) ==> pos == FindTag(start, tag)
      ensures if start == [] || (found && pos == old(pos)) then pSize == old(pSize) else pSize != LocalCounter
      ensures !found ==> pos == old(pos)
    {
      var first := pos;
      ghost var n, k: nat := |start|, 0;
      if start == [] {
        // The terminator has tag 0; looking for any other tag leaves it there.
        if tag == 0 {
          return true;
        }
        var _ := Next();
        return false;
      }
      while true
        invariant Valid() && k < n && pos == LapPos(first, k, n)
        invariant k == 0 ==> pSize == old(pSize)
        invariant k > 0 ==> pSize != LocalCounter
        invariant NoMatch(start, first, tag, k)
        decreases n - k
      {
        assert DescribesMember(start, layout, pos);
        if start[pos].tag == tag && !start[pos].ltype.EXTENSION? {
          NearestAt(start, first, tag, k);
          return true;
        }
        assert !Matches(start, LapPos(first, k, n), tag);
        var _ := Next();
        k := k + 1;
        if pos == first {
          break;
        }
      }
      WholeLap(start, first, tag);
      return false;
    }
  }

  /** What the iterator shows after a call of pb_field_iter_next, and what that call returned. */
  datatype Stop = Stop(index: nat, more: bool, pData: int, pSize: SizeRef, requiredFieldIndex: nat)

  ghost predicate VisitedOnce(stops: seq<Stop>, i: nat) {
    exists k | 0 <= k < |stops| :: OnlyVisit(stops, i, k)
  }

  ghost predicate OnlyVisit(stops: seq<Stop>, i: nat, k: nat) {
    k < |stops| && forall j | 0 <= j < |stops| :: stops[j].index == i <==> j == k
  }

  predicate Matches(schema: seq<Field>, i: int, tag: nat) {
    0 <= i < |schema| && schema[i].tag == tag && !schema[i].ltype.EXTENSION?
  }

  /** Where `j` steps lead from position `first` of a circle of `n` descriptors. */
  function LapPos(first: nat, j: nat, n: nat): int {
    if first + j < n then first + j else first + j - n
  }

  /** The stops are those behind position `first` of a circle of `n` descriptors. */
  ghost predicate Circling(stops: seq<Stop>, first: nat, n: nat) {
    forall j | 0 <= j < |stops| :: stops[j].index == LapPos(first, j + 1, n)
  }

  lemma CircleVisitsOnce(stops: seq<Stop>, first: nat, n: nat)
    requires |stops| == n && Circling(stops, first, n) && (n > 0 ==> first < n)
    ensures forall i | 0 <= i < n :: VisitedOnce(stops, i)
  {
    forall i | 0 <= i < n ensures VisitedOnce(stops, i) {
      var k := StepsTo(first, n, i);
      assert stops[k].index == i;
      assert OnlyVisit(stops, i, k);
    }
  }

  /** The steps from position `first` to descriptor `i`, the first one being step 0. */
  lemma StepsTo(first: nat, n: nat, i: nat) returns (k: nat)
    requires first < n && i < n
    ensures k < n && LapPos(first, k + 1, n) == i
  {
    k := if i > first then i - first - 1 else i + n - first - 1;
  }

  /** None of the first `k` descriptors of the lap from `first` matches. */
  ghost predicate NoMatch(schema: seq<Field>, first: nat, tag: nat, k: nat) {
    forall j | 0 <= j < k :: !Matches(schema, LapPos(first, j, |schema|), tag)
  }

  /** Descriptor `i` is the first match of the lap from `first`. */
  ghost predicate Nearest(schema: seq<Field>, first: nat, tag: nat, i: nat) {
    && Matches(schema, i, tag)
    && exists k: nat | k < |schema| :: LapPos(first, k, |schema|) == i && NoMatch(schema, first, tag, k)
  }

  lemma {:induction false} NearestAt(schema: seq<Field>, first: nat, tag: nat, k: nat)
    requires k < |schema| && NoMatch(schema, first, tag, k) && Matches(schema, LapPos(first, k, |schema|), tag)
    ensures Nearest(schema, first, tag, LapPos(first, k, |schema|)) && FindTag(schema, tag) < |schema|
    ensures DistinctTags(schema) ==> FindTag(schema, tag) == LapPos(first, k, |schema|)
  {
    FindTagBelow(schema, tag, LapPos(first, k, |schema|));
    if DistinctTags(schema) {
      FindTagAt(schema, LapPos(first, k, |schema|));
    }
  }

  lemma {:induction false} FindTagBelow(schema: seq<Field>, tag: nat, i: nat)
    requires Matches(schema, i, tag)
    ensures FindTag(schema, tag) <= i
  {
    if i > 0 && !(schema[0].tag == tag && !schema[0].ltype.EXTENSION?) {
      FindTagBelow(schema[1..], tag, i - 1);
    }
  }

  lemma {:induction false} FindTagMatches(schema: seq<Field>, tag: nat)
    requires FindTag(schema, tag) < |schema|
    ensures Matches(schema, FindTag(schema, tag), tag)
  {
    if !(schema[0].tag == tag && !schema[0].ltype.EXTENSION?) {
      FindTagMatches(schema[1..], tag);
    }
  }

  /** A lap without a match means that no descriptor has the tag. */
  lemma {:induction false} WholeLap(schema: seq<Field>, first: nat, tag: nat)
    requires first < |schema| && NoMatch(schema, first, tag, |schema|)
    ensures FindTag(schema, tag) == |schema| && forall i | 0 <= i < |schema| :: !Matches(schema, i, tag)
  {
    forall i | 0 <= i < |schema| ensures !Matches(schema, i, tag) {
      assert LapPos(first, if i >= first then i - first else i + |schema| - first, |schema|) == i;
    }
    if FindTag(schema, tag) < |schema| {
      FindTagMatches(schema, tag);
      assert false;
    }
  }

  /** An iterator on the first field of a message. */
  method Fields(schema: seq<Field>) returns (iter: FieldIter, more: bool)
    requires SchemaOk(schema)
    ensures fresh(iter) && iter.Valid() && iter.start == schema
    ensures more == (schema != []) && iter.pos == 0 && iter.pSize != LocalCounter
  {
    TagsPositive(schema);
    iter := new FieldIter(schema, 0, LayoutOf(schema));
    more := iter.Begin();
  }

  lemma TagsPositive(schema: seq<Field>)
    requires SchemaOk(schema)
    ensures forall i | 0 <= i < |schema| :: schema[i].tag >= 1
  {
    forall i | 0 <= i < |schema| ensures schema[i].tag >= 1 {
      assert FieldOk(schema[i]);
    }
  }
}
