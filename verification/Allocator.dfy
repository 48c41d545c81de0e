/** pb_realloc and pb_free, and allocate_field of pb_decode.c. */
module Allocator {
  import opened Config

  /** What a pointer owns: one block, or nothing if it is null. */
  function Own(p: nat): multiset<nat> {
    if p == 0 then multiset{} else multiset{p}
  }

  // ----- Histories -----

  datatype Event = Acquired(p: nat) | Released(p: nat)

  function Times(log: seq<Event>, e: Event): nat {
    if log == [] then 0 else Times(log[..|log| - 1], e) + (if log[|log| - 1] == e then 1 else 0)
  }

  /** How much oftener a block was acquired than released. */
  function Balance(log: seq<Event>, p: nat): int {
    Times(log, Acquired(p)) - Times(log, Released(p))
  }

  /** The event hands out a block that is not in use, or releases one that is. */
  predicate InTurn(log: seq<Event>, i: nat)
    requires i < |log|
  {
    log[i].p != 0 && Balance(log[..i], log[i].p) == if log[i].Acquired? then 0 else 1
  }

  /** No block is handed out while it is in use, and none is released that is not. */
  predicate WellBehaved(log: seq<Event>) {
    forall i | 0 <= i < |log| :: InTurn(log, i)
  }

  /** The live blocks are those that the history leaves in use. */
  ghost predicate Accounts(log: seq<Event>, live: multiset<nat>) {
    WellBehaved(log) && forall p: nat {:trigger Times(log, Acquired(p))} :: live[p] == Balance(log, p)
  }

  /** In a well-behaved history every block is released as often as it was acquired, or once less: then it is live. */
  lemma {:induction false} ReleasedOnce(log: seq<Event>, live: multiset<nat>, p: nat)
    requires Accounts(log, live)
    ensures Times(log, Acquired(p)) == Times(log, Released(p)) + live[p] && live[p] <= 1
  {
    BalanceBound(log, p);
  }

  lemma {:induction false} BalanceBound(log: seq<Event>, p: nat)
    requires WellBehaved(log)
    ensures 0 <= Balance(log, p) <= 1
  {
    if log != [] {
      WellBehavedBefore(log);
      BalanceBound(log[..|log| - 1], p);
      assert InTurn(log, |log| - 1);
    }
  }

  lemma WellBehavedBefore(log: seq<Event>)
    requires WellBehaved(log) && log != []
    ensures WellBehaved(log[..|log| - 1])
  {
    var before := log[..|log| - 1];
    forall i | 0 <= i < |before| ensures InTurn(before, i) {
      assert InTurn(log, i) && before[..i] == log[..i];
    }
  }

  /** Histories that leave the same blocks live differ by as many releases as acquisitions of each block. */
  lemma SameBalance(before: seq<Event>, after: seq<Event>, live: multiset<nat>)
    requires Accounts(before, live) && Accounts(after, live)
    ensures forall p :: Times(after, Acquired(p)) - Times(before, Acquired(p))
                     == Times(after, Released(p)) - Times(before, Released(p))
  {
    forall p
      ensures Times(after, Acquired(p)) - Times(before, Acquired(p))
              == Times(after, Released(p)) - Times(before, Released(p))
    {
      ReleasedOnce(before, live, p);
      ReleasedOnce(after, live, p);
    }
  }

  lemma NoEvents()
    ensures Accounts([], multiset{})
  {
    forall p: nat ensures Balance([], p) == 0 {}
  }

  lemma LogStep(log: seq<Event>, e: Event, p: nat)
    ensures Balance(log + [e], p) == Balance(log, p) + if p != e.p then 0 else if e.Acquired? then 1 else -1
  {
    assert (log + [e])[..|log|] == log;
  }

  lemma StillWellBehaved(log: seq<Event>, e: Event)
    requires WellBehaved(log) && e.p != 0 && Balance(log, e.p) == if e.Acquired? then 0 else 1
    ensures WellBehaved(log + [e])
  {
    var after := log + [e];
    forall i | 0 <= i < |after| ensures InTurn(after, i) {
      assert after[..i] == log[..i];
      if i < |log| {
        assert InTurn(log, i);
      } else {
        assert log[..i] == log;
      }
    }
  }

  lemma Acquiring(log: seq<Event>, live: multiset<nat>, rest: multiset<nat>, q: nat)
    requires Accounts(log, live) && live == rest && q != 0 && q !in rest
    ensures Accounts(log + [Acquired(q)], live + Own(q)) && live + Own(q) == rest + Own(q)
  {
    assert Times(log, Acquired(q)) == Times(log, Released(q)) + live[q];
    StillWellBehaved(log, Acquired(q));
    forall p: nat ensures (live + Own(q))[p] == Balance(log + [Acquired(q)], p) {
      LogStep(log, Acquired(q), p);
    }
  }

  lemma Releasing(log: seq<Event>, live: multiset<nat>, rest: multiset<nat>, p: nat)
    requires Accounts(log, live) && live == rest + Own(p)
    ensures p == 0 ==> live == rest
    ensures p != 0 ==> Accounts(log + [Released(p)], live - Own(p)) && live - Own(p) == rest
  {
    if p != 0 {
      ReleasedOnce(log, live, p);
      assert live[p] == rest[p] + 1;
      StillWellBehaved(log, Released(p));
      forall r: nat ensures (live - Own(p))[r] == Balance(log + [Released(p)], r) {
        LogStep(log, Released(p), r);
      }
      assert rest + Own(p) - Own(p) == rest;
    }
  }

  // ----- The heap -----

  /** How many of the first `n` allocations the allocator refuses. */
  function Denied(refuses: nat -> bool, n: nat): nat {
    if n == 0 then 0 else Denied(refuses, n - 1) + (if refuses(n - 1) then 1 else 0)
  }

  /** The allocator grants every request from number `a` on and before number `b`. */
  ghost predicate Granted(refuses: nat -> bool, a: nat, b: nat) {
    forall k | a <= k < b :: !refuses(k)
  }

  lemma {:induction false} DeniedNone(refuses: nat -> bool, a: nat, b: nat)
    requires a <= b
    ensures Denied(refuses, a) <= Denied(refuses, b)
    ensures Denied(refuses, a) == Denied(refuses, b) <==> Granted(refuses, a, b)
  {
    if a < b {
      DeniedNone(refuses, a, b - 1);
    }
  }

  /** The live blocks, the size of each, and how it came to that.  Which requests are refused is up to the allocator:
      `refuses` says of each, in the order of the calls. */
  class Heap {
    const refuses: nat -> bool
    var live: multiset<nat>
    var sizes: map<nat, nat>
    var attempts: nat
    ghost var refusals: nat
    ghost var log: seq<Event>
    /** pb_release is about to walk memory that was never set, to a pointer that nobody allocated or through a null
        pointer.  What happens then is undefined: the model stops there, and promises nothing any more. */
    var stray: bool

    ghost predicate Valid()
      reads this
    {
      Accounts(log, live)
    }

    /** The refusals are those of the requests made so far. */
    ghost predicate Scripted()
      reads this
    {
      forall n: nat {:trigger Denied(refuses, n)} :: n == attempts ==> refusals == Denied(refuses, n)
    }

    /** Exactly the given blocks are live. */
    ghost predicate Owns(blocks: multiset<nat>)
      reads this
    {
      !stray && Holds(blocks)
    }

    /** The same, as long as nothing has gone astray. */
    ghost predicate Holds(blocks: multiset<nat>)
      reads this
    {
      Scripted() && (stray || (Valid() && live == blocks))
    }

    constructor (refuses: nat -> bool)
      ensures Owns(multiset{}) && attempts == 0 && this.refuses == refuses
    {
      this.refuses := refuses;
      live, sizes, attempts, refusals, log, stray := multiset{}, map[], 0, 0, [], false;
      NoEvents();
    }

    /** pb_realloc, with any allocator: it fails exactly if the request is refused, and a block that it returns is not
        in use.  `rest` is what is live besides the block that `p` owns. */
    method Realloc(p: nat, size: nat, ghost rest: multiset<nat>) returns (q: nat)
      requires Owns(rest + Own(p))
      modifies `live, `sizes, `log, `attempts, `refusals
      ensures attempts == old(attempts) + 1 && (q == 0 <==> refuses(old(attempts)))
      ensures refusals == old(refusals) + if q == 0 then 1 else 0
      ensures q == 0 ==> unchanged(`live) && unchanged(`sizes) && unchanged(`log) && Owns(rest + Own(p))
      ensures q != 0 ==> Owns(rest + Own(q)) && q in sizes && sizes[q] == size
      ensures q != 0 ==> log == old(log) + (if p == 0 then [] else [Released(p)]) + [Acquired(q)]
    {
      var refused := Ask();
      if refused {
        return 0;
      }
      UnusedExists(live);
      q :| q != 0 && (q == p || q !in live);
      Free(p, rest);
      FreshBlock(old(log), old(live), rest, p, q);
      Add(q, size, rest);
    }

    /** The allocator's decision on the next request. */
    method Ask() returns (refused: bool)
      requires Scripted()
      modifies `attempts, `refusals
      ensures Scripted() && attempts == old(attempts) + 1 && refused == refuses(old(attempts))
      ensures refusals == old(refusals) + if refused then 1 else 0
    {
      assert refusals == Denied(refuses, attempts);
      refused := refuses(attempts);
      attempts := attempts + 1;
      refusals := refusals + if refused then 1 else 0;
    }

    /** The block joins the live ones. */
    method Add(q: nat, size: nat, ghost rest: multiset<nat>)
      requires Owns(rest) && q != 0 && q !in rest
      modifies `live, `sizes, `log
      ensures Owns(rest + Own(q)) && q in sizes && sizes[q] == size && log == old(log) + [Acquired(q)]
    {
      Acquiring(log, live, rest, q);
      Record(Acquired(q), live + Own(q), rest + Own(q));
      sizes := sizes[q := size];
    }

    /** One event more in the history. */
    method Record(ghost e: Event, now: multiset<nat>, ghost blocks: multiset<nat>)
      requires !stray && Scripted() && Accounts(log + [e], now) && now == blocks
      modifies `live, `log
      ensures Owns(blocks) && log == old(log) + [e]
    {
      live := now;
      log := log + [e];
    }

    /** pb_free, which ignores null.  A block that is not live cannot be freed. */
    method Free(p: nat, ghost rest: multiset<nat>)
      requires Owns(rest + Own(p))
      modifies `live, `log
      ensures Owns(rest)
      ensures log == old(log) + if p == 0 then [] else [Released(p)]
    {
      Releasing(log, live, rest, p);
      if p != 0 {
        Record(Released(p), live - Own(p), rest);
      }
    }

    /** A write of `n` bytes at offset `at` of a block: it has to stay inside. */
    method Store(p: nat, at: nat, n: nat)
      requires p in live && p in sizes && at + n <= sizes[p]
    {}
  }

  /** There is always a block that is not in use. */
  lemma UnusedExists(live: multiset<nat>)
    ensures exists q: nat :: q != 0 && q !in live
  {
    var b := UnusedFrom(live);
    assert b !in live;
  }

  lemma {:induction false} UnusedFrom(live: multiset<nat>) returns (b: nat)
    ensures b > 0 && forall p | p in live :: p < b
    decreases |live|
  {
    b := 1;
    if live != multiset{} {
      var p :| p in live;
      var rest := live - multiset{p};
      b := UnusedFrom(rest);
      assert forall q | q in live :: q == p || q in rest;
      b := if p < b then b else p + 1;
    }
  }

  /** A block that was just released, or was not in use, is not in use elsewhere. */
  lemma FreshBlock(log: seq<Event>, live: multiset<nat>, rest: multiset<nat>, p: nat, q: nat)
    requires Accounts(log, live) && live == rest + Own(p) && q != 0 && (q == p || q !in live)
    ensures q !in rest
  {
    ReleasedOnce(log, live, q);
    assert live[q] == rest[q] + Own(p)[q];
  }

  // ----- allocate_field -----

  /** The bytes that `n` items of `size` bytes take: their product, as a sum. */
  function Span(n: nat, size: nat): nat {
    if n == 0 then 0 else Span(n - 1, size) + size
  }

  lemma {:induction false} SpanIsProduct(n: nat, size: nat)
    ensures Span(n, size) == n * size
  {
    if n > 0 {
      SpanIsProduct(n - 1, size);
    }
  }

  /** An item before the `n`th lies within the span. */
  lemma {:induction false} SpanInside(k: nat, n: nat, size: nat)
    requires k < n
    ensures Span(k, size) + size <= Span(n, size)
  {
    if k < n - 1 {
      SpanInside(k, n - 1, size);
    }
  }

  /** The check of allocate_field, which divides only if one of the factors is large. */
  predicate SizeAccepted(dataSize: nat, arraySize: nat)
    requires arraySize > 0
  {
    dataSize >= CHECK_LIMIT || arraySize >= CHECK_LIMIT ==> SIZE_T_MAX / arraySize >= dataSize
  }

  /** The check passes exactly when the product is a `size_t`. */
  lemma {:induction false} SizeAcceptedExactly(dataSize: nat, arraySize: nat)
    requires arraySize > 0
    ensures SizeAccepted(dataSize, arraySize) <==> arraySize * dataSize <= SIZE_T_MAX
    ensures arraySize * dataSize == Span(arraySize, dataSize) >= dataSize
  {
    SpanIsProduct(arraySize, dataSize);
    SpanInside(0, arraySize, dataSize);
    if dataSize < CHECK_LIMIT && arraySize < CHECK_LIMIT {
      SmallProduct(dataSize, arraySize, CHECK_LIMIT - 1);
    } else {
      DivisionTest(SIZE_T_MAX, arraySize, dataSize);
    }
  }

  lemma {:induction false} SmallProduct(a: nat, b: nat, max: nat)
    requires a <= max && b <= max
    ensures b * a <= max * max
  {
    assert b * a <= b * max && b * max <= max * max;
  }

  lemma {:induction false} DivisionTest(max: nat, a: nat, b: nat)
    requires a > 0
    ensures max / a >= b <==> a * b <= max
  {
    var q, r := max / a, max % a;
    assert max == a * q + r && 0 <= r < a;
    if b <= q {
      assert a * b <= a * q;
    } else {
      assert a * (q + 1) <= a * b;
    }
  }

  /** A live block with room for exactly `n` items of `size` bytes. */
  ghost predicate InBlock(heap: Heap, p: nat, n: nat, size: nat)
    reads heap
  {
    p in heap.live && p in heap.sizes && heap.sizes[p] == Span(n, size)
  }

  /** The sizes that allocate_field does not refuse by itself: not zero, and a `size_t`. */
  predicate Allocatable(dataSize: nat, arraySize: nat) {
    0 < Span(arraySize, dataSize) <= SIZE_T_MAX
  }

  /** allocate_field: if the size is invalid or too large, or the request is refused, the old block stays where it
      is. */
  method AllocateField(heap: Heap, p: nat, dataSize: nat, arraySize: nat, ghost rest: multiset<nat>)
    returns (ok: bool, q: nat)
    requires heap.Owns(rest + Own(p))
    modifies heap
    ensures heap.Owns(rest + Own(q)) && (ok ==> q != 0 && InBlock(heap, q, arraySize, dataSize))
    ensures Allocatable(dataSize, arraySize) ==> heap.attempts == old(heap.attempts) + 1
                                                 && ok == !heap.refuses(old(heap.attempts))
                                                 && heap.refusals == old(heap.refusals) + if ok then 0 else 1
    ensures !Allocatable(dataSize, arraySize) ==> !ok && unchanged(heap)
    ensures !ok ==> q == p && unchanged(heap`live) && unchanged(heap`sizes) && unchanged(heap`log)
  {
    ok, q := false, p;
    if dataSize == 0 || arraySize == 0 {
      SpanOfNothing(arraySize, dataSize);
      return;
    }
    SizeAcceptedExactly(dataSize, arraySize);
    if !SizeAccepted(dataSize, arraySize) {
      return;
    }
    var ptr := heap.Realloc(p, arraySize * dataSize, rest);
    if ptr != 0 {
      return true, ptr;
    }
  }

  lemma {:induction false} SpanOfNothing(n: nat, size: nat)
    requires n == 0 || size == 0
    ensures Span(n, size) == 0
  {
    if n > 0 {
      SpanOfNothing(n - 1, size);
    }
  }
}
