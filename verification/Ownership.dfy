/** Structures with pointer fields, as far as ownership of memory goes. */
module Ownership {
  import opened Config
  import opened Schema
  import opened Allocator

  /** The pointers of a structure, as a tree.  A structure is a node with one child for each descriptor; a field
      has its pointer (null in static fields), its count, and the structures or string pointers it holds.  The
      items of a static array that its count does not reach are apart, in `raw`: they hold whatever was in the
      memory.  What pb_release would walk behind a null pointer is not shown. */
  datatype Node = Node(ptr: nat, count: nat, kids: seq<Node>, raw: seq<Node>)

  const EMPTY := Node(0, 0, [], [])

  /** The blocks that a node owns, itself and through what it holds: those that pb_release walks. */
  function Blocks(n: Node): multiset<nat>
    decreases n, 0
  {
    Own(n.ptr) + KidsBlocks(n.kids)
  }

  function KidsBlocks(ns: seq<Node>): multiset<nat>
    decreases ns, 1
  {
    if ns == [] then multiset{} else Blocks(ns[0]) + KidsBlocks(ns[1..])
  }

  /** The blocks of all nodes but one. */
  function Others(ns: seq<Node>, k: nat): multiset<nat>
    requires k < |ns|
  {
    KidsBlocks(ns[..k]) + KidsBlocks(ns[k + 1..])
  }

  lemma {:induction false} KidsConcat(a: seq<Node>, b: seq<Node>)
    ensures KidsBlocks(a + b) == KidsBlocks(a) + KidsBlocks(b)
  {
    if a == [] {
      assert a + b == b;
    } else {
      assert KidsBlocks(a + b) == Blocks(a[0]) + KidsBlocks(a[1..] + b) by {
        assert a + b == [a[0]] + (a[1..] + b);
        KidsCons(a[0], a[1..] + b);
      }
      KidsConcat(a[1..], b);
      Assoc(Blocks(a[0]), KidsBlocks(a[1..]), KidsBlocks(b));
    }
  }

  lemma KidsCons(n: Node, ns: seq<Node>)
    ensures KidsBlocks([n] + ns) == Blocks(n) + KidsBlocks(ns)
  {
    assert ([n] + ns)[1..] == ns;
  }

  lemma Assoc(x: multiset<nat>, y: multiset<nat>, z: multiset<nat>)
    ensures x + (y + z) == x + y + z
  {}

  lemma {:induction false} KidsOne(n: Node)
    ensures KidsBlocks([n]) == Blocks(n)
  {
    assert [n][1..] == [];
  }

  /** Replacing one node changes nothing of what the others own. */
  lemma {:induction false} KidsFocus(ns: seq<Node>, k: nat, x: Node)
    requires k < |ns|
    ensures KidsBlocks(ns) == Others(ns, k) + Blocks(ns[k])
    ensures KidsBlocks(ns[k := x]) == Others(ns, k) + Blocks(x)
  {
    Split(ns, k);
    Split(ns[k := x], k);
    assert ns[k := x][..k] == ns[..k] && ns[k := x][k + 1..] == ns[k + 1..];
  }

  lemma {:induction false} Split(ns: seq<Node>, k: nat)
    requires k < |ns|
    ensures KidsBlocks(ns) == Others(ns, k) + Blocks(ns[k])
  {
    assert ns == ns[..k] + ([ns[k]] + ns[k + 1..]);
    KidsConcat(ns[..k], [ns[k]] + ns[k + 1..]);
    KidsConcat([ns[k]], ns[k + 1..]);
    KidsOne(ns[k]);
  }

  lemma Unit(x: multiset<nat>)
    ensures x + multiset{} == x && multiset{} + x == x
  {}

  /** A string pointer owns its block. */
  lemma Leaf(p: nat)
    ensures Blocks(Node(p, 0, [], [])) == Own(p) && AllNull(EMPTY)
  {}

  /** A node without a block of its own owns what its children own. */
  lemma NoPointer(n: Node)
    requires n.ptr == 0
    ensures Blocks(n) == KidsBlocks(n.kids)
  {}

  lemma Regroup(rest: multiset<nat>, ns: seq<Node>, k: nat, x: Node)
    requires k < |ns|
    ensures rest + KidsBlocks(ns) == rest + Others(ns, k) + Blocks(ns[k])
    ensures rest + KidsBlocks(ns[k := x]) == rest + Others(ns, k) + Blocks(x)
    ensures AllNull(x) ==> rest + KidsBlocks(ns[k := x]) == rest + Others(ns, k)
  {
    KidsFocus(ns, k, x);
    Assoc(rest, Others(ns, k), Blocks(ns[k]));
    Assoc(rest, Others(ns, k), Blocks(x));
    NullOwnsNothing(x);
    Unit(rest + Others(ns, k));
  }

  lemma {:induction false} KidsAppend(ns: seq<Node>, x: Node)
    ensures KidsBlocks(ns + [x]) == KidsBlocks(ns) + Blocks(x)
  {
    KidsConcat(ns, [x]);
    KidsOne(x);
  }

  lemma {:induction false} KidsNone(ns: seq<Node>)
    ensures KidsBlocks(ns) == multiset{} <==> forall k | 0 <= k < |ns| :: Blocks(ns[k]) == multiset{}
  {
    if ns != [] {
      KidsNone(ns[1..]);
      SumIsNone(Blocks(ns[0]), KidsBlocks(ns[1..]));
      forall k | 0 <= k < |ns[1..]| ensures ns[1..][k] == ns[k + 1] {}
      assert forall k | 0 < k < |ns| :: ns[k] == ns[1..][k - 1];
    }
  }

  lemma SumIsNone(x: multiset<nat>, y: multiset<nat>)
    ensures x + y == multiset{} <==> x == multiset{} && y == multiset{}
  {
    assert x <= x + y && y <= x + y;
  }

  /** Every pointer that can be reached is null. */
  predicate AllNull(n: Node) {
    n.ptr == 0 && forall k | 0 <= k < |n.kids| :: AllNull(n.kids[k])
  }

  /** That is the same as owning nothing. */
  lemma {:induction false} NullOwnsNothing(n: Node)
    ensures Blocks(n) == multiset{} <==> AllNull(n)
  {
    KidsNone(n.kids);
    forall k | 0 <= k < |n.kids|
      ensures Blocks(n.kids[k]) == multiset{} <==> AllNull(n.kids[k])
    {
      NullOwnsNothing(n.kids[k]);
    }
    assert n.ptr != 0 ==> n.ptr in Blocks(n);
    if Blocks(n) == multiset{} {
      assert KidsBlocks(n.kids) <= Blocks(n);
    }
  }

  lemma {:induction false} NullKids(ns: seq<Node>)
    requires Cleared(ns, |ns|)
    ensures KidsBlocks(ns) == multiset{}
  {
    forall k | 0 <= k < |ns| ensures Blocks(ns[k]) == multiset{} {
      NullOwnsNothing(ns[k]);
    }
    KidsNone(ns);
  }

  // ----- Schemas and structures -----

  /** Message types with static and pointer fields, without oneof, extension, callback and fixed-count fields. */
  predicate HeapSchema(schema: seq<Field>)
    decreases schema
  {
    DistinctTags(schema) && forall i | 0 <= i < |schema| :: HeapField(schema[i])
  }

  predicate HeapField(f: Field)
    decreases f
  {
    && 1 <= f.tag < 0x2000_0000
    && !f.atype.CALLBACK? && !f.ltype.EXTENSION? && !f.htype.ONEOF?
    && (f.htype.REPEATED? ==> f.sizeOffset != 0)
    && f.dataSize <= SIZE_MAX && f.arraySize < SIZE_MAX
    && (Packable(f.ltype) ==> f.dataSize > 0)
    && HeapSchema(f.sub)
  }

  predicate StringLike(f: Field) {
    f.ltype.STRING? || f.ltype.BYTES?
  }

  /** What is known of a structure: that it is in order, that pb_release can walk it, or only its type. */
  datatype Level = OWNED | WALKABLE | MEMORY

  predicate AtLeast(a: Level, b: Level) {
    a.OWNED? || b.MEMORY? || a == b
  }

  /** After a call, successful or not. */
  function After(ok: bool): Level {
    if ok then OWNED else WALKABLE
  }

  /** A structure of the type that the descriptors describe. */
  predicate Struct(level: Level, schema: seq<Field>, s: Node)
    decreases schema, 1
  {
    s == Node(0, 0, s.kids, []) && Members(level, schema, s.kids)
  }

  predicate Members(level: Level, schema: seq<Field>, ns: seq<Node>)
    decreases schema, 0
  {
    |ns| == |schema| && forall i | 0 <= i < |schema| :: Storage(level, schema[i], ns[i])
  }

  /** Its storage for one field: structures are as the type says, strings are single pointers. */
  predicate Storage(level: Level, f: Field, n: Node)
    decreases f, 2
  {
    && (if f.atype.PTR? then PointerStorage(level, f, n) else StaticStorage(f, n))
    && Items(level, f, n.kids) && Items(MEMORY, f, n.raw)
  }

  predicate PointerStorage(level: Level, f: Field, n: Node) {
    && n.raw == []
    && NullCount(level, f, n)
    && (if f.htype.REPEATED? then
          && n.count <= SIZE_MAX
          && |n.kids| == (if n.ptr != 0 && (f.ltype.SUBMESSAGE? || StringLike(f)) then n.count else 0)
        else
          && n.count == 0
          && |n.kids| == (if f.ltype.SUBMESSAGE? && n.ptr != 0 then 1 else 0))
  }

  /** An array without a block is empty.  pb_release depends on that for arrays of strings only: it walks the others
      only if their pointer is not null. */
  predicate NullCount(level: Level, f: Field, n: Node) {
    n.ptr == 0 && n.count > 0 ==> level.MEMORY? || (level.WALKABLE? && !StringLike(f))
  }

  predicate StaticStorage(f: Field, n: Node) {
    && n.ptr == 0
    && (if !f.ltype.SUBMESSAGE? then n.kids == [] && n.raw == []
        else if f.htype.REPEATED? then
          |n.kids| == (if n.count < f.arraySize then n.count else f.arraySize) && |n.kids| + |n.raw| == f.arraySize
        else |n.kids| == 1 && n.raw == [])
    && (f.htype.REPEATED? || n.count == 0)
  }

  /** The structures or string pointers that a field holds. */
  predicate Items(level: Level, f: Field, ns: seq<Node>)
    decreases f, 1
  {
    forall k | 0 <= k < |ns| :: ItemOk(level, f, ns[k])
  }

  predicate ItemOk(level: Level, f: Field, n: Node)
    decreases f, 0
  {
    if f.ltype.SUBMESSAGE? then Struct(level, f.sub, n) else n == Node(n.ptr, 0, [], [])
  }

  lemma {:induction false} StructRelax(a: Level, b: Level, schema: seq<Field>, s: Node)
    requires AtLeast(a, b) && Struct(a, schema, s)
    ensures Struct(b, schema, s)
    decreases schema, 1
  {
    MembersRelax(a, b, schema, s.kids);
  }

  lemma {:induction false} MembersRelax(a: Level, b: Level, schema: seq<Field>, ns: seq<Node>)
    requires AtLeast(a, b) && Members(a, schema, ns)
    ensures Members(b, schema, ns)
    decreases schema, 0
  {
    forall i | 0 <= i < |schema| ensures Storage(b, schema[i], ns[i]) {
      StorageRelax(a, b, schema[i], ns[i]);
    }
  }

  lemma {:induction false} StorageRelax(a: Level, b: Level, f: Field, n: Node)
    requires AtLeast(a, b) && Storage(a, f, n)
    ensures Storage(b, f, n)
    decreases f, 1
  {
    ItemsRelax(a, b, f, n.kids);
  }

  lemma {:induction false} ItemsRelax(a: Level, b: Level, f: Field, ns: seq<Node>)
    requires AtLeast(a, b) && Items(a, f, ns)
    ensures Items(b, f, ns)
    decreases f, 0
  {
    if f.ltype.SUBMESSAGE? {
      forall k | 0 <= k < |ns| ensures ItemOk(b, f, ns[k]) {
        assert ItemOk(a, f, ns[k]);
        StructRelax(a, b, f.sub, ns[k]);
      }
    }
  }

  /** pb_release finds nothing to release: every pointer that it walks is null, and no array of strings has a count
      beside its null pointer. */
  predicate Harmless(schema: seq<Field>, s: Node)
    decreases schema
  {
    forall i | 0 <= i < |schema| && i < |s.kids| :: FieldHarmless(schema[i], s.kids[i])
  }

  predicate FieldHarmless(f: Field, n: Node)
    decreases f
  {
    if f.atype.PTR? then n.ptr == 0 && (f.htype.REPEATED? && StringLike(f) ==> n.count == 0)
    else f.ltype.SUBMESSAGE? ==> forall k | 0 <= k < |n.kids| :: Harmless(f.sub, n.kids[k])
  }

  /** Of memory that means that it can be walked and holds no pointer. */
  lemma {:induction false} HarmlessWalk(schema: seq<Field>, s: Node)
    requires Struct(MEMORY, schema, s)
    ensures Harmless(schema, s) <==> Struct(WALKABLE, schema, s) && AllNull(s)
    decreases schema
  {
    forall i | 0 <= i < |schema|
      ensures FieldHarmless(schema[i], s.kids[i]) <==> Storage(WALKABLE, schema[i], s.kids[i]) && AllNull(s.kids[i])
    {
      assert Storage(MEMORY, schema[i], s.kids[i]);
      FieldHarmlessWalk(schema[i], s.kids[i]);
    }
  }

  lemma {:induction false} FieldHarmlessWalk(f: Field, n: Node)
    requires Storage(MEMORY, f, n)
    ensures FieldHarmless(f, n) <==> Storage(WALKABLE, f, n) && AllNull(n)
    decreases f
  {
    if !f.atype.PTR? && f.ltype.SUBMESSAGE? {
      forall k | 0 <= k < |n.kids|
        ensures Harmless(f.sub, n.kids[k]) <==> ItemOk(WALKABLE, f, n.kids[k]) && AllNull(n.kids[k])
      {
        assert ItemOk(MEMORY, f, n.kids[k]);
        HarmlessWalk(f.sub, n.kids[k]);
      }
    }
  }

  /** The first `n` nodes own nothing. */
  predicate Cleared(ns: seq<Node>, n: nat) {
    n <= |ns| && forall j | 0 <= j < n :: AllNull(ns[j])
  }

  /** The first `n` fields have been released. */
  predicate FieldsReleased(schema: seq<Field>, ns: seq<Node>, n: nat) {
    && n <= |schema| == |ns| && Cleared(ns, n)
    && forall i | 0 <= i < |schema| :: Storage(if i < n then OWNED else WALKABLE, schema[i], ns[i])
  }

  lemma FieldsReleasedNext(schema: seq<Field>, ns: seq<Node>, i: nat, n: Node)
    requires FieldsReleased(schema, ns, i) && i < |schema| && Storage(OWNED, schema[i], n) && AllNull(n)
    ensures FieldsReleased(schema, ns[i := n], i + 1)
  {}

  /** The first `n` items have been released. */
  predicate ItemsReleased(f: Field, ns: seq<Node>, n: nat) {
    && Cleared(ns, n)
    && forall k | 0 <= k < |ns| :: ItemOk(if k < n then OWNED else WALKABLE, f, ns[k])
  }

  lemma ItemsReleasedNext(f: Field, ns: seq<Node>, k: nat, n: Node)
    requires ItemsReleased(f, ns, k) && k < |ns| && ItemOk(OWNED, f, n) && AllNull(n)
    ensures ItemsReleased(f, ns[k := n], k + 1)
  {}

  // ----- Replacing one node -----

  lemma MembersAt(level: Level, schema: seq<Field>, ns: seq<Node>, i: nat)
    requires HeapSchema(schema) && Members(level, schema, ns) && i < |schema|
    ensures HeapField(schema[i]) && Storage(level, schema[i], ns[i])
  {}

  lemma MembersUpdate(level: Level, schema: seq<Field>, ns: seq<Node>, i: nat, n: Node)
    requires Members(OWNED, schema, ns) && i < |schema| && Storage(level, schema[i], n)
    ensures Members(level, schema, ns[i := n])
  {
    MembersRelax(OWNED, level, schema, ns);
  }

  lemma Opened(n: Node, rest: multiset<nat>)
    ensures rest + Blocks(n) == rest + Own(n.ptr) + KidsBlocks(n.kids)
  {
    Assoc(rest, Own(n.ptr), KidsBlocks(n.kids));
  }

  lemma NullPointer(f: Field)
    requires f.atype.PTR?
    ensures Storage(OWNED, f, EMPTY) && AllNull(EMPTY)
  {}

  // ----- Fresh structures -----

  /** Storage after memset to zero. */
  function Zero(schema: seq<Field>): Node
    decreases schema
  {
    Node(0, 0, seq(|schema|, i requires 0 <= i < |schema| => ZeroStorage(schema[i])), [])
  }

  function ZeroStorage(f: Field): Node
    decreases f
  {
    if f.atype.PTR? || !f.ltype.SUBMESSAGE? then EMPTY
    else if f.htype.REPEATED? then Node(0, 0, [], seq(f.arraySize, i => Zero(f.sub)))
    else Node(0, 0, [Zero(f.sub)], [])
  }

  lemma {:induction false} ZeroIsStruct(schema: seq<Field>)
    ensures Struct(OWNED, schema, Zero(schema))
    decreases schema
  {
    forall i | 0 <= i < |schema| ensures Storage(OWNED, schema[i], Zero(schema).kids[i]) {
      ZeroIsStruct(schema[i].sub);
      StructRelax(OWNED, MEMORY, schema[i].sub, Zero(schema[i].sub));
    }
  }

  /** What pb_message_set_to_defaults makes of the storage: pointers become null and counts zero, but the items of
      static arrays stay what they were. */
  function Reset(schema: seq<Field>, ns: seq<Node>): (r: seq<Node>)
    ensures |r| == |schema|
    decreases schema
  {
    seq(|schema|, i requires 0 <= i < |schema| => ResetField(schema[i], if i < |ns| then ns[i] else EMPTY))
  }

  function ResetField(f: Field, n: Node): Node
    decreases f
  {
    if f.atype.PTR? || !f.ltype.SUBMESSAGE? then EMPTY
    else if f.htype.REPEATED? then Node(0, 0, [], n.kids + n.raw)
    else Node(0, 0, [Node(0, 0, Reset(f.sub, if n.kids == [] then [] else n.kids[0].kids), [])], [])
  }

  lemma {:induction false} ResetIsStruct(schema: seq<Field>, s: Node)
    requires Struct(MEMORY, schema, s)
    ensures var r := Node(0, 0, Reset(schema, s.kids), []); Struct(OWNED, schema, r) && AllNull(r)
    decreases schema
  {
    forall i | 0 <= i < |schema|
      ensures Storage(OWNED, schema[i], Reset(schema, s.kids)[i]) && AllNull(Reset(schema, s.kids)[i])
    {
      assert Storage(MEMORY, schema[i], s.kids[i]);
      ResetFieldIsStorage(schema[i], s.kids[i]);
    }
  }

  lemma {:induction false} ResetFieldIsStorage(f: Field, n: Node)
    requires Storage(MEMORY, f, n)
    ensures Storage(OWNED, f, ResetField(f, n)) && AllNull(ResetField(f, n))
    decreases f
  {
    if !f.atype.PTR? && f.ltype.SUBMESSAGE? && !f.htype.REPEATED? {
      assert ItemOk(MEMORY, f, n.kids[0]);
      ResetIsStruct(f.sub, n.kids[0]);
    }
  }

  lemma {:induction false} ResetZero(schema: seq<Field>)
    ensures Reset(schema, Zero(schema).kids) == Zero(schema).kids
    decreases schema
  {
    forall i | 0 <= i < |schema| ensures Reset(schema, Zero(schema).kids)[i] == Zero(schema).kids[i] {
      ResetZero(schema[i].sub);
    }
  }

  // ----- What the fields own, branch by branch -----

  lemma NullOwns(n: Node, rest: multiset<nat>)
    requires AllNull(n)
    ensures rest + Blocks(n) == rest
  {
    NullOwnsNothing(n);
    Unit(rest);
  }

  lemma NoBlock(rest: multiset<nat>)
    ensures rest == rest + Own(0)
  {}

  lemma OneKid(p: nat, s: Node, rest: multiset<nat>)
    ensures rest + Blocks(Node(p, 0, [s], [])) == rest + Own(p) + Blocks(s)
  {
    KidsOne(s);
    Assoc(rest, Own(p), Blocks(s));
  }

  lemma StaticStruct(f: Field, n: Node, rest: multiset<nat>)
    requires HeapField(f) && !f.atype.PTR? && !f.htype.REPEATED? && f.ltype.SUBMESSAGE? && Storage(OWNED, f, n)
    ensures |n.kids| == 1 && Struct(OWNED, f.sub, n.kids[0]) && rest + Blocks(n) == rest + Blocks(n.kids[0])
  {
    assert ItemOk(OWNED, f, n.kids[0]);
    assert n == Node(0, 0, [n.kids[0]], []);
    OneKid(0, n.kids[0], rest);
    Unit(rest);
  }

  lemma StaticStructBack(level: Level, f: Field, s: Node, rest: multiset<nat>)
    requires !f.atype.PTR? && !f.htype.REPEATED? && f.ltype.SUBMESSAGE?
    ensures Struct(level, f.sub, s) ==> Storage(level, f, Node(0, 0, [s], []))
    ensures rest + Blocks(Node(0, 0, [s], [])) == rest + Blocks(s)
  {
    OneKid(0, s, rest);
    Unit(rest);
  }

  /** Counting one item more. */
  function CountOne(n: Node): Node {
    if n.raw == [] then n.(count := n.count + 1)
    else n.(count := n.count + 1, kids := n.kids + [n.raw[0]], raw := n.raw[1..])
  }

  lemma CountedItem(f: Field, n: Node)
    requires !f.atype.PTR? && f.htype.REPEATED? && f.ltype.SUBMESSAGE? && Storage(OWNED, f, n)
    ensures n.raw == [] <==> n.count >= f.arraySize
    ensures n.raw != [] ==>
              && ItemOk(MEMORY, f, n.raw[0])
              && CountOne(n) == Node(0, n.count + 1, n.kids + [n.raw[0]], n.raw[1..])
    ensures n.raw == [] ==> Storage(WALKABLE, f, CountOne(n)) && Blocks(CountOne(n)) == Blocks(n)
  {
    StorageRelax(OWNED, WALKABLE, f, n);
  }

  /** The item that was counted has been decoded, or left as it was. */
  lemma DecodedItem(level: Level, f: Field, n: Node, s: Node, rest: multiset<nat>)
    requires !f.atype.PTR? && f.htype.REPEATED? && f.ltype.SUBMESSAGE? && Storage(OWNED, f, n) && n.raw != []
    ensures var n' := Node(0, n.count + 1, n.kids + [s], n.raw[1..]);
            && (Struct(level, f.sub, s) ==> Storage(level, f, n'))
            && Blocks(n') == Blocks(n) + Blocks(s) && rest + Blocks(n') == rest + Blocks(n) + Blocks(s)
  {
    KidsAppend(n.kids, s);
    Assoc(Own(0), KidsBlocks(n.kids), Blocks(s));
    Assoc(rest, Blocks(n), Blocks(s));
    ItemsRelax(OWNED, level, f, n.kids);
  }

  lemma PointerOnly(f: Field, n: Node, rest: multiset<nat>)
    requires f.atype.PTR? && !f.htype.REPEATED? && Storage(OWNED, f, n) && (f.ltype.SUBMESSAGE? ==> n.ptr == 0)
    ensures n == Node(n.ptr, 0, [], []) && rest + Blocks(n) == rest + Own(n.ptr)
  {
    Leaf(n.ptr);
  }

  lemma PointerBack(level: Level, f: Field, p: nat, rest: multiset<nat>)
    requires f.atype.PTR? && !f.htype.REPEATED?
    ensures !f.ltype.SUBMESSAGE? || p == 0 ==> Storage(level, f, Node(p, 0, [], []))
    ensures rest + Blocks(Node(p, 0, [], [])) == rest + Own(p)
  {
    Leaf(p);
  }

  lemma StructBack(level: Level, f: Field, p: nat, s: Node, rest: multiset<nat>)
    requires f.atype.PTR? && !f.htype.REPEATED? && f.ltype.SUBMESSAGE? && p != 0
    ensures Struct(level, f.sub, s) ==> Storage(level, f, Node(p, 0, [s], []))
    ensures rest + Blocks(Node(p, 0, [s], [])) == rest + Own(p) + Blocks(s)
  {
    OneKid(p, s, rest);
  }

  lemma ArrayBlock(n: Node, rest: multiset<nat>)
    ensures rest + Blocks(n) == rest + KidsBlocks(n.kids) + Own(n.ptr)
  {
    assert Own(n.ptr) + KidsBlocks(n.kids) == KidsBlocks(n.kids) + Own(n.ptr);
    Assoc(rest, KidsBlocks(n.kids), Own(n.ptr));
  }

  lemma ArrayBlockBack(f: Field, n: Node, q: nat, rest: multiset<nat>)
    requires f.atype.PTR? && f.htype.REPEATED? && Storage(OWNED, f, n) && (q == 0 ==> n.ptr == 0)
    ensures Storage(OWNED, f, Node(q, n.count, n.kids, [])) && Storage(WALKABLE, f, Node(q, n.count, n.kids, []))
    ensures rest + Blocks(Node(q, n.count, n.kids, [])) == rest + KidsBlocks(n.kids) + Own(q)
  {
    ArrayBlock(Node(q, n.count, n.kids, []), rest);
    StorageRelax(OWNED, WALKABLE, f, Node(q, n.count, n.kids, []));
  }

  lemma EntryBack(level: Level, f: Field, n: Node, x: Node, rest: multiset<nat>)
    requires f.atype.PTR? && f.htype.REPEATED? && (f.ltype.SUBMESSAGE? || StringLike(f))
    requires Storage(OWNED, f, n) && n.ptr != 0 && n.count < SIZE_MAX
    ensures var n' := Node(n.ptr, n.count + 1, n.kids + [x], []);
            && (ItemOk(level, f, x) ==> Storage(level, f, n')) && rest + Blocks(n') == rest + Blocks(n) + Blocks(x)
  {
    KidsAppend(n.kids, x);
    Assoc(Own(n.ptr), KidsBlocks(n.kids), Blocks(x));
    Assoc(rest, Blocks(n), Blocks(x));
    ItemsRelax(OWNED, level, f, n.kids);
  }

  lemma PlainEntry(f: Field, n: Node)
    requires f.atype.PTR? && f.htype.REPEATED? && !f.ltype.SUBMESSAGE? && !StringLike(f)
    requires Storage(OWNED, f, n) && n.ptr != 0 && n.count < SIZE_MAX
    ensures var n' := Node(n.ptr, n.count + 1, n.kids, []); Storage(OWNED, f, n') && Blocks(n') == Blocks(n)
  {}

  lemma PackedOnly(f: Field, n: Node, rest: multiset<nat>)
    requires f.atype.PTR? && f.htype.REPEATED? && Packable(f.ltype) && Storage(OWNED, f, n)
    ensures n == Node(n.ptr, n.count, [], []) && rest + Blocks(n) == rest + Own(n.ptr)
    ensures n.count <= SIZE_MAX && (n.ptr == 0 ==> n.count == 0)
  {
    Leaf(n.ptr);
    assert Blocks(n) == Blocks(Node(n.ptr, 0, [], []));
  }

  lemma PackedBack(f: Field, p: nat, count: nat, rest: multiset<nat>)
    requires f.atype.PTR? && f.htype.REPEATED? && Packable(f.ltype) && count <= SIZE_MAX && (p == 0 ==> count == 0)
    ensures Storage(OWNED, f, Node(p, count, [], [])) && rest + Blocks(Node(p, count, [], [])) == rest + Own(p)
  {
    Leaf(p);
    assert Blocks(Node(p, count, [], [])) == Blocks(Node(p, 0, [], []));
  }

  lemma PointerAllocated(f: Field, p0: nat, p: nat, ok: bool, rest: multiset<nat>)
    requires f.atype.PTR? && !f.htype.REPEATED? && (!ok ==> p == p0) && (f.ltype.SUBMESSAGE? ==> p0 == 0)
    ensures !ok ==> Storage(WALKABLE, f, Node(p, 0, [], [])) && rest + Blocks(Node(p, 0, [], [])) == rest + Own(p)
    ensures Span(1, f.dataSize) == f.dataSize
  {
    PointerBack(WALKABLE, f, p, rest);
    assert Span(0, f.dataSize) == 0;
  }
}
