/**
 The index heap of a hash-map slot buffer, as values.

 The heap is an array of `capacity` slot addresses used as a stack-style free
 list, and `top` is the heap counter. The counter counts ALLOCATED slots: only
 the part `heap[top..]` is maintained, and it holds exactly the free addresses;
 what lies below `top` is meaningless. Allocate reads `heap[top]` and moves the
 counter up; Free moves the counter down and writes the freed address at the
 new counter position.

 This module states the allocator's invariant on plain sequences and proves
 that both steps keep it; the class in module Hashmap runs the steps in place.
 */
module IndexHeap {

  /** The heap the buffer starts from: heap[i] = i. */
  function Identity(n: nat): seq<int>
  {
    seq(n, i => i)
  }

  /** The addresses appearing in `s`. */
  ghost function Elems(s: seq<int>): set<int>
  {
    set i | 0 <= i < |s| :: s[i]
  }

  /** The address space of a buffer of capacity `n`: [0, n). */
  ghost function Slots(n: nat): (s: set<int>)
    ensures forall a :: a in s <==> 0 <= a < n
  {
    ElemsOfIdentity(n);
    Elems(Identity(n))
  }

  lemma ElemsOfIdentity(n: nat)
    ensures forall a :: a in Elems(Identity(n)) <==> 0 <= a < n
  {
    forall a | 0 <= a < n ensures a in Elems(Identity(n)) {
      assert Identity(n)[a] == a;
    }
  }

  /** The addresses held in the maintained part of the heap. */
  ghost function FreeSet(heap: seq<int>, top: int): set<int>
    requires 0 <= top <= |heap|
  {
    set i | top <= i < |heap| :: heap[i]
  }

  /** No address appears twice at or above the counter. */
  ghost predicate DistinctAbove(heap: seq<int>, top: int)
    requires 0 <= top
  {
    forall i, j :: top <= i < j < |heap| ==> heap[i] != heap[j]
  }

  /**
   The allocator invariant: the counter is in range, the maintained part of the
   heap holds distinct addresses, none of them in use, and allocated and free
   addresses together make up exactly [0, capacity).
   */
  ghost predicate Inv(heap: seq<int>, top: int, inUse: set<int>)
  {
    0 <= top <= |heap| &&
    DistinctAbove(heap, top) &&
    FreeSet(heap, top) !! inUse &&
    FreeSet(heap, top) + inUse == Slots(|heap|)
  }

  /** The addresses handed out by `k` successive Allocate steps from counter `top`. */
  function AllocRun(heap: seq<int>, top: nat, k: nat): (addrs: seq<int>)
    requires top + k <= |heap|
    ensures |addrs| == k
    ensures forall i :: 0 <= i < k ==> addrs[i] == heap[top + i]
    decreases k
  {
    if k == 0 then [] else [heap[top]] + AllocRun(heap, top + 1, k - 1)
  }

  // ---------------------------------------------------------------------------
  // Counting

  lemma {:induction false} SlotsSize(n: nat)
    ensures |Slots(n)| == n
  {
    if n > 0 {
      SlotsSize(n - 1);
      assert Slots(n) == Slots(n - 1) + {n - 1};
    } else {
      assert Slots(n) == {};
    }
  }

  /** Splitting off the address at the counter. */
  lemma FreeSetSplit(heap: seq<int>, top: int)
    requires 0 <= top < |heap|
    requires DistinctAbove(heap, top)
    ensures FreeSet(heap, top) == {heap[top]} + FreeSet(heap, top + 1)
    ensures heap[top] !in FreeSet(heap, top + 1)
  {
  }

  /** Distinct entries above the counter make `|heap| - top` free addresses. */
  lemma {:induction false} FreeSetSize(heap: seq<int>, top: int)
    requires 0 <= top <= |heap|
    requires DistinctAbove(heap, top)
    ensures |FreeSet(heap, top)| == |heap| - top
    decreases |heap| - top
  {
    if top < |heap| {
      FreeSetSplit(heap, top);
      FreeSetSize(heap, top + 1);
    } else {
      assert FreeSet(heap, top) == {};
    }
  }

  /** The counter is the number of allocated slots. */
  lemma AllocatedCount(heap: seq<int>, top: int, inUse: set<int>)
    ensures Inv(heap, top, inUse) ==> |inUse| == top
  {
    if Inv(heap, top, inUse) {
      var free := FreeSet(heap, top);
      SlotsSize(|heap|);
      FreeSetSize(heap, top);
      assert free * inUse == {};
    }
  }

  // ---------------------------------------------------------------------------
  // The steps keep the invariant

  /** The heap the buffer starts from, with counter 0, satisfies the invariant. */
  lemma InitialInv(n: nat)
    ensures Inv(Identity(n), 0, {})
  {
  }

  /**
   Allocate hands out a free address in [0, capacity) that is not inUse,
   and after the counter moves up the invariant holds with that address added.
   */
  lemma AllocPreservesInv(heap: seq<int>, top: int, inUse: set<int>)
    requires Inv(heap, top, inUse)
    requires top < |heap|
    ensures 0 <= heap[top] < |heap| && heap[top] !in inUse
    ensures Inv(heap, top + 1, inUse + {heap[top]})
  {
    var a := heap[top];
    FreeSetSplit(heap, top);
    assert a in FreeSet(heap, top);
    assert FreeSet(heap, top + 1) == FreeSet(heap, top) - {a};
  }

  /**
   Writing `v` just below the counter and moving the counter down onto it adds
   `v` to the free set, and keeps the entries distinct when `v` was not free.
   */
  lemma PushBelowTop(heap: seq<int>, top: int, v: int)
    requires 0 < top <= |heap|
    requires DistinctAbove(heap, top)
    requires v !in FreeSet(heap, top)
    ensures DistinctAbove(heap[top - 1 := v], top - 1)
    ensures FreeSet(heap[top - 1 := v], top - 1) == {v} + FreeSet(heap, top)
  {
    var heap' := heap[top - 1 := v];
    assert FreeSet(heap', top) == FreeSet(heap, top) by {
      forall a | a in FreeSet(heap, top) ensures a in FreeSet(heap', top) {
        var i :| top <= i < |heap| && heap[i] == a;
        assert heap'[i] == a;
      }
    }
    forall i, j | top - 1 <= i < j < |heap'| ensures heap'[i] != heap'[j] {
      if i == top - 1 {
        assert heap'[j] in FreeSet(heap, top);
      }
    }
    FreeSetSplit(heap', top - 1);
  }

  /**
   Free of an allocated address moves the counter down, and with the address
   written at the new counter position the invariant holds with it removed.
   */
  lemma FreePreservesInv(heap: seq<int>, top: int, inUse: set<int>, addr: int)
    requires Inv(heap, top, inUse)
    requires addr in inUse
    ensures 0 < top
    ensures Inv(heap[top - 1 := addr], top - 1, inUse - {addr})
  {
    AllocatedCount(heap, top, inUse);
    PushBelowTop(heap, top, addr);
  }

  /** The heap is exhausted exactly when every address is inUse. */
  lemma ExhaustedIffAllAllocated(heap: seq<int>, top: int, inUse: set<int>)
    requires Inv(heap, top, inUse)
    ensures top == |heap| <==> inUse == Slots(|heap|)
  {
    if top == |heap| {
      assert FreeSet(heap, top) == {};
    } else {
      assert heap[top] in FreeSet(heap, top);
    }
  }

  // ---------------------------------------------------------------------------
  // Stack discipline

  /**
   LIFO: after Free(addr) the next Allocate returns addr, and the state is the
   one Free started from except that the slot at the counter now holds addr.
   */
  lemma FreeThenAllocReturnsFreed(heap: seq<int>, top: int, inUse: set<int>, addr: int)
    requires Inv(heap, top, inUse)
    requires addr in inUse
    ensures 0 < top && heap[top - 1 := addr][top - 1] == addr
    ensures (inUse - {addr}) + {addr} == inUse
    ensures Inv(heap[top - 1 := addr], top, inUse)
  {
    FreePreservesInv(heap, top, inUse, addr);
    AllocPreservesInv(heap[top - 1 := addr], top - 1, inUse - {addr});
  }

  /**
   A run of `k` Allocate steps hands out `k` distinct addresses, none of them
   previously inUse, and leaves the invariant holding with all of them added.
   */
  lemma {:induction false} AllocRunDistinct(heap: seq<int>, top: nat, inUse: set<int>, k: nat)
    requires Inv(heap, top, inUse)
    requires top + k <= |heap|
    ensures forall i, j :: 0 <= i < j < k ==> AllocRun(heap, top, k)[i] != AllocRun(heap, top, k)[j]
    ensures forall i :: 0 <= i < k ==> AllocRun(heap, top, k)[i] in Slots(|heap|) - inUse
    ensures Inv(heap, top + k, inUse + Elems(AllocRun(heap, top, k)))
    decreases k
  {
    var run := AllocRun(heap, top, k);
    if k == 0 {
      assert Elems(run) == {};
    } else {
      var a := heap[top];
      AllocPreservesInv(heap, top, inUse);
      AllocRunDistinct(heap, top + 1, inUse + {a}, k - 1);
      var rest := AllocRun(heap, top + 1, k - 1);
      assert run == [a] + rest;
      assert Elems(run) == {a} + Elems(rest) by {
        forall x | x in Elems(run) ensures x in {a} + Elems(rest) {
          var i :| 0 <= i < k && run[i] == x;
          if i > 0 { assert rest[i - 1] == x; }
        }
        forall x | x in Elems(rest) ensures x in Elems(run) {
          var i :| 0 <= i < k - 1 && rest[i] == x;
          assert run[i + 1] == x;
        }
        assert run[0] == a;
      }
    }
  }

  /**
   From the starting heap, successive Allocate steps hand out 0, 1, 2, ... in
   order; `capacity` of them hand out every address exactly once.
   */
  lemma FreshRunInOrder(n: nat, k: nat)
    requires k <= n
    ensures AllocRun(Identity(n), 0, k) == Identity(k)
    ensures k == n ==> Elems(AllocRun(Identity(n), 0, k)) == Slots(n)
  {
  }

  // ---------------------------------------------------------------------------
  // Sequences of steps

  /** The allocator's state: the heap, the counter and the allocated addresses. */
  datatype HeapState = HeapState(heap: seq<int>, top: int, inUse: set<int>)

  /** One allocator call: Allocate, or Free of an address. */
  datatype Op = AllocOp | FreeOp(addr: int)

  /** The call may be made: Allocate below capacity, Free of an allocated address. */
  ghost predicate Enabled(s: HeapState, op: Op)
  {
    match op
    case AllocOp => 0 <= s.top < |s.heap|
    case FreeOp(a) => 0 < s.top <= |s.heap| && a in s.inUse
  }

  /** The state after one call, as the class's Allocate and Free leave it. */
  ghost function Step(s: HeapState, op: Op): HeapState
    requires Enabled(s, op)
  {
    match op
    case AllocOp => HeapState(s.heap, s.top + 1, s.inUse + {s.heap[s.top]})
    case FreeOp(a) => HeapState(s.heap[s.top - 1 := a], s.top - 1, s.inUse - {a})
  }

  /** Every call of `ops`, made in order from `s`, may be made. */
  ghost predicate Legal(s: HeapState, ops: seq<Op>)
    decreases |ops|
  {
    |ops| == 0 || (Enabled(s, ops[0]) && Legal(Step(s, ops[0]), ops[1..]))
  }

  /** The state after making the calls of `ops` in order from `s`. */
  ghost function Run(s: HeapState, ops: seq<Op>): HeapState
    requires Legal(s, ops)
    decreases |ops|
  {
    if |ops| == 0 then s else Run(Step(s, ops[0]), ops[1..])
  }

  function Allocs(ops: seq<Op>): nat
  {
    if |ops| == 0 then 0 else (if ops[0].AllocOp? then 1 else 0) + Allocs(ops[1..])
  }

  function Frees(ops: seq<Op>): nat
  {
    if |ops| == 0 then 0 else (if ops[0].FreeOp? then 1 else 0) + Frees(ops[1..])
  }

  /** One call keeps the invariant and moves the counter by one. */
  lemma StepKeepsInv(s: HeapState, op: Op)
    requires Inv(s.heap, s.top, s.inUse)
    requires Enabled(s, op)
    ensures Inv(Step(s, op).heap, Step(s, op).top, Step(s, op).inUse)
    ensures Step(s, op).top == s.top + (if op.AllocOp? then 1 else -1)
  {
    match op
    case AllocOp => AllocPreservesInv(s.heap, s.top, s.inUse);
    case FreeOp(a) => FreePreservesInv(s.heap, s.top, s.inUse, a);
  }

  /**
   Any legal sequence of calls keeps the invariant and moves the counter up by
   its Allocates and down by its Frees; so does the number of allocated slots.
   */
  lemma {:induction false} RunKeepsInv(s: HeapState, ops: seq<Op>)
    requires Inv(s.heap, s.top, s.inUse)
    requires Legal(s, ops)
    ensures Inv(Run(s, ops).heap, Run(s, ops).top, Run(s, ops).inUse)
    ensures Run(s, ops).top == s.top + Allocs(ops) - Frees(ops)
    ensures |Run(s, ops).inUse| == |s.inUse| + Allocs(ops) - Frees(ops)
    decreases |ops|
  {
    if |ops| > 0 {
      StepKeepsInv(s, ops[0]);
      RunKeepsInv(Step(s, ops[0]), ops[1..]);
    }
    var r := Run(s, ops);
    AllocatedCount(s.heap, s.top, s.inUse);
    AllocatedCount(r.heap, r.top, r.inUse);
  }

  /**
   Balanced calls conserve the count: after a legal sequence with as many
   Frees as Allocates, the counter and the number of allocated slots are what
   they were at the start.
   */
  lemma BalancedRunConserves(s: HeapState, ops: seq<Op>)
    requires Inv(s.heap, s.top, s.inUse)
    requires Legal(s, ops)
    requires Allocs(ops) == Frees(ops)
    ensures Run(s, ops).top == s.top
    ensures |Run(s, ops).inUse| == |s.inUse|
  {
    RunKeepsInv(s, ops);
  }
}
