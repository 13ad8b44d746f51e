// The bump allocator behind the WASM execute ABI (core/wasm_runner.py, _make_execute_linker).
//
// Each store has a heap pointer; an allocation rounds it up with a bit mask and advances it past
// the block; nothing is ever freed.
module BumpAllocator {
  import opened Arithmetic

  const HEAP_START := 0x10000

  // x & y on unbounded two's-complement integers, x not negative.
  function BitAnd(x: nat, y: int): nat
    decreases x
  {
    if x == 0 then 0 else 2 * BitAnd(x / 2, y / 2) + (x % 2) * (y % 2)
  }

  // ~x
  function BitNot(x: int): int { -x - 1 }

  function AtLeastOne(align: int): nat { if align >= 1 then align else 1 }

  // (ptr + align - 1) & ~(align - 1)
  function RoundUp(ptr: nat, align: nat): nat
    requires align >= 1
  {
    BitAnd(ptr + align - 1, BitNot(align - 1))
  }

  datatype Block = Block(ptr: nat, size: nat)

  datatype Request =
    | Alloc(size: int, align: int)
    | AllocZeroed(size: int, align: int)
    | Realloc(ptr: int, oldSize: int, align: int, newSize: int)
    | Dealloc(ptr: int, size: int, align: int)

  // The size and alignment a request really allocates, if it allocates.
  predicate Allocates(q: Request) {
    match q
    case Alloc(size, _) => size > 0
    case AllocZeroed(size, _) => size > 0
    case Realloc(_, oldSize, _, newSize) => newSize > oldSize && newSize > 0
    case Dealloc(_, _, _) => false
  }

  function SizeOf(q: Request): nat
    requires Allocates(q)
  {
    match q case Alloc(n, _) => n case AllocZeroed(n, _) => n case Realloc(_, _, _, n) => n
  }

  function AlignOf(q: Request): nat
    requires Allocates(q)
    ensures AlignOf(q) >= 1
  {
    AtLeastOne(match q case Alloc(_, a) => a case AllocZeroed(_, a) => a case Realloc(_, _, a, _) => a)
  }

  // What a request returns when it does not allocate; dealloc returns nothing.
  function Unmoved(q: Request): int {
    if q.Realloc? && q.newSize <= q.oldSize then q.ptr else 0
  }

  // One request at heap top `top`: the new top and the returned pointer.
  function Serve(top: nat, q: Request): (nat, int) {
    if Allocates(q) then
      var ptr := RoundUp(top, AlignOf(q));
      (ptr + SizeOf(q), ptr)
    else (top, Unmoved(q))
  }

  // Heap pointers by store.
  function TopOf(heap: map<int, nat>, store: int): nat {
    if store in heap then heap[store] else HEAP_START
  }

  // One request on one store; the other stores are not touched.
  function ServeStore(heap: map<int, nat>, store: int, q: Request): (r: (map<int, nat>, int))
    ensures Allocates(q) ==> r.1 >= 0
  {
    var (top, r) := Serve(TopOf(heap, store), q);
    (if Allocates(q) then heap[store := top] else heap, r)
  }

  class Linker {
    var heap: map<int, nat>

    constructor ()
      ensures heap == map[]
    {
      heap := map[];
    }

    method RustAlloc(store: int, size: int, align: int) returns (ptr: int)
      modifies this
      ensures (heap, ptr) == ServeStore(old(heap), store, Alloc(size, align))
    {
      if size <= 0 { return 0; }
      var start := if store in heap then heap[store] else HEAP_START;
      var a := if align > 1 then align else 1;
      ptr := RoundUp(start, a);
      heap := heap[store := ptr + size];
    }

    method RustDealloc(store: int, ptr: int, size: int, align: int)
      ensures heap == ServeStore(old(heap), store, Dealloc(ptr, size, align)).0
    {
    }

    method RustRealloc(store: int, ptr: int, oldSize: int, align: int, newSize: int) returns (r: int)
      modifies this
      ensures (heap, r) == ServeStore(old(heap), store, Realloc(ptr, oldSize, align, newSize))
    {
      if newSize <= oldSize { return ptr; }
      r := RustAlloc(store, newSize, align);
    }

    method RustAllocZeroed(store: int, size: int, align: int) returns (ptr: int)
      modifies this
      ensures (heap, ptr) == ServeStore(old(heap), store, AllocZeroed(size, align))
    {
      ptr := RustAlloc(store, size, align);
    }
  }

  // ---------------------------------------------------------------------------------------------
  // The mask
  // ---------------------------------------------------------------------------------------------

  // The k-th bit in two's complement.
  function Bit(x: int, k: nat): int
    decreases k
  {
    if k == 0 then x % 2 else Bit(x / 2, k - 1)
  }

  // The two operators work bit by bit.
  lemma {:induction false} BitByBit(x: nat, y: int, k: nat)
    ensures Bit(BitAnd(x, y), k) == Bit(x, k) * Bit(y, k)
    ensures Bit(BitNot(y), k) == 1 - Bit(y, k)
    decreases k
  {
    if x == 0 { ZeroBits(k); }
    if k > 0 {
      BitByBit(x / 2, y / 2, k - 1);
      assert BitNot(y) / 2 == BitNot(y / 2);
      if x > 0 { LowBit(BitAnd(x / 2, y / 2), x % 2, y % 2); }
    } else if x > 0 {
      LowBit(BitAnd(x / 2, y / 2), x % 2, y % 2);
    }
  }

  lemma {:induction false} ZeroBits(k: nat)
    ensures Bit(0, k) == 0
  {
    if k > 0 { ZeroBits(k - 1); }
  }

  lemma LowBit(high: nat, a: int, b: int)
    requires 0 <= a <= 1 && 0 <= b <= 1
    ensures (2 * high + a * b) / 2 == high && (2 * high + a * b) % 2 == a * b
  {
    assert 0 <= a * b <= 1;
  }

  predicate IsPow2(a: nat) { a == 1 || (a > 1 && a % 2 == 0 && IsPow2(a / 2)) }

  // Clearing the bits of m takes away at most m, for every m.
  lemma {:induction false} MaskBounds(x: nat, m: nat)
    ensures x - m <= BitAnd(x, BitNot(m)) <= x
    decreases x
  {
    if x > 0 {
      MaskBounds(x / 2, m / 2);
      assert BitNot(m) / 2 == BitNot(m / 2);
      assert BitNot(m) % 2 == 1 - m % 2;
    }
  }

  lemma {:induction false} MaskHalves(x: nat, a: nat)
    requires a >= 2 && a % 2 == 0
    ensures BitAnd(x, BitNot(a - 1)) == 2 * BitAnd(x / 2, BitNot(a / 2 - 1))
  {
    assert BitNot(a - 1) / 2 == BitNot(a / 2 - 1);
    assert BitNot(a - 1) % 2 == 0;
  }

  lemma {:induction false} MaskAligns(x: nat, a: nat)
    requires IsPow2(a)
    ensures BitAnd(x, BitNot(a - 1)) % a == 0
    decreases a
  {
    if a > 1 {
      MaskHalves(x, a);
      MaskAligns(x / 2, a / 2);
      DoubleMod(BitAnd(x / 2, BitNot(a / 2 - 1)), a / 2);
    }
  }

  // For a power of two the mask gives the least multiple not below the pointer.
  lemma {:induction false} RoundUpIsLeastMultiple(ptr: nat, align: nat)
    requires IsPow2(align)
    ensures RoundUp(ptr, align) % align == 0
    ensures ptr <= RoundUp(ptr, align)
    ensures forall m: nat :: m % align == 0 && m >= ptr ==> RoundUp(ptr, align) <= m
  {
    MaskAligns(ptr + align - 1, align);
    MaskBounds(ptr + align - 1, align - 1);
    var r := RoundUp(ptr, align);
    forall m: nat | m % align == 0 && m >= ptr
      ensures r <= m
    {
      MultiplesApart(r, m, align);
    }
  }

  // An odd alignment above one keeps the lowest bit, so of two neighbours one is not aligned.
  lemma OddMisses(a: nat, y: nat) returns (x: nat)
    requires a > 1 && a % 2 == 1
    ensures x == 2 * y || x == 2 * y + 1
    ensures BitAnd(x, BitNot(a - 1)) % a != 0
  {
    var z := 2 * BitAnd(y, BitNot(a - 1) / 2);
    assert BitNot(a - 1) % 2 == 1;
    assert (2 * y) / 2 == y && (2 * y + 1) / 2 == y;
    assert BitAnd(2 * y, BitNot(a - 1)) == z;
    assert BitAnd(2 * y + 1, BitNot(a - 1)) == z + 1;
    x := 2 * y;
    if z % a == 0 {
      OneAfterMultiple(z, a);
      x := 2 * y + 1;
    }
  }

  // For any other alignment some heap pointer, however far up, is not aligned by the mask.
  lemma {:induction false} MaskMissesOthers(a: nat, bound: nat) returns (x: nat)
    requires a >= 1 && !IsPow2(a)
    ensures x >= bound && BitAnd(x, BitNot(a - 1)) % a != 0
    decreases a
  {
    if a % 2 == 0 {
      var y := MaskMissesOthers(a / 2, bound);
      x := 2 * y;
      MaskHalves(x, a);
      DoubleMod(BitAnd(y, BitNot(a / 2 - 1)), a / 2);
    } else {
      x := OddMisses(a, bound);
    }
  }

  // The mask aligns every pointer of the heap exactly when the alignment is a power of two.
  lemma AlignsExactlyPowersOfTwo(align: nat)
    requires align >= 1
    ensures (forall ptr: nat :: ptr >= HEAP_START ==> RoundUp(ptr, align) % align == 0) <==> IsPow2(align)
  {
    if IsPow2(align) {
      forall ptr: nat | ptr >= HEAP_START
        ensures RoundUp(ptr, align) % align == 0
      {
        RoundUpIsLeastMultiple(ptr, align);
      }
    } else {
      var x := MaskMissesOthers(align, HEAP_START + align);
      var ptr := x - (align - 1);
      assert RoundUp(ptr, align) == BitAnd(x, BitNot(align - 1));
    }
  }

  // ---------------------------------------------------------------------------------------------
  // Any sequence of requests on one store
  // ---------------------------------------------------------------------------------------------

  function TopAfter(top: nat, qs: seq<Request>): nat
    decreases |qs|
  {
    if qs == [] then top else TopAfter(Serve(top, qs[0]).0, qs[1..])
  }

  // The blocks handed out, in order, with the alignments asked for.
  function Blocks(top: nat, qs: seq<Request>): seq<(Block, nat)>
    decreases |qs|
  {
    if qs == [] then []
    else
      (if Allocates(qs[0]) then [(Block(RoundUp(top, AlignOf(qs[0])), SizeOf(qs[0])), AlignOf(qs[0]))] else [])
      + Blocks(Serve(top, qs[0]).0, qs[1..])
  }

  function Demand(qs: seq<Request>): nat {
    if qs == [] then 0
    else (if Allocates(qs[0]) then SizeOf(qs[0]) + AlignOf(qs[0]) - 1 else 0) + Demand(qs[1..])
  }

  predicate Disjoint(a: Block, b: Block) { a.ptr + a.size <= b.ptr || b.ptr + b.size <= a.ptr }

  lemma ServeAdvances(top: nat, q: Request)
    ensures top <= Serve(top, q).0
    ensures Allocates(q) ==>
              && top <= RoundUp(top, AlignOf(q)) <= top + AlignOf(q) - 1
              && Serve(top, q).0 == RoundUp(top, AlignOf(q)) + SizeOf(q)
  {
    if Allocates(q) { MaskBounds(top + AlignOf(q) - 1, AlignOf(q) - 1); }
  }

  // Blocks lie between lo and hi, in order and without overlap, each aligned if its alignment is a
  // power of two.
  ghost predicate Sound(bs: seq<(Block, nat)>, lo: nat, hi: nat) {
    && lo <= hi
    && (forall i :: 0 <= i < |bs| ==> lo <= bs[i].0.ptr && bs[i].0.size > 0 && bs[i].0.ptr + bs[i].0.size <= hi)
    && (forall i, j :: 0 <= i < j < |bs| ==> bs[i].0.ptr + bs[i].0.size <= bs[j].0.ptr)
    && (forall i :: 0 <= i < |bs| && bs[i].1 > 0 && IsPow2(bs[i].1) ==> bs[i].0.ptr % bs[i].1 == 0)
  }

  lemma SoundCons(b: Block, align: nat, bs: seq<(Block, nat)>, lo: nat, mid: nat, hi: nat)
    requires Sound(bs, mid, hi) && lo <= b.ptr && b.size > 0 && b.ptr + b.size == mid
    requires align > 0 && IsPow2(align) ==> b.ptr % align == 0
    ensures Sound([(b, align)] + bs, lo, hi)
  {
  }

  // Main result: whatever is requested, with any sizes and alignments, the blocks lie above the
  // start, in the order of the requests and without overlap, and the heap grows by no more than the
  // sizes plus the worst padding; with a power of two a block is aligned.
  lemma {:induction false} BlocksAreSound(top: nat, qs: seq<Request>)
    ensures Sound(Blocks(top, qs), top, TopAfter(top, qs))
    ensures TopAfter(top, qs) <= top + Demand(qs)
    decreases |qs|
  {
    if qs != [] {
      var q, next := qs[0], Serve(top, qs[0]).0;
      ServeAdvances(top, q);
      BlocksAreSound(next, qs[1..]);
      if Allocates(q) {
        var a := AlignOf(q);
        var b := Block(RoundUp(top, a), SizeOf(q));
        if IsPow2(a) { RoundUpIsLeastMultiple(top, a); }
        SoundCons(b, a, Blocks(next, qs[1..]), top, next, TopAfter(top, qs));
      } else {
        assert [] + Blocks(next, qs[1..]) == Blocks(next, qs[1..]);
      }
    }
  }

  // ---------------------------------------------------------------------------------------------
  // Requests of several stores
  // ---------------------------------------------------------------------------------------------

  datatype Call = Call(store: int, q: Request)

  function HeapAfter(heap: map<int, nat>, calls: seq<Call>): map<int, nat>
    decreases |calls|
  {
    if calls == [] then heap else HeapAfter(ServeStore(heap, calls[0].store, calls[0].q).0, calls[1..])
  }

  // The blocks one store is handed in a run of calls of any stores.
  function StoreBlocks(heap: map<int, nat>, calls: seq<Call>, store: int): seq<(Block, nat)>
    decreases |calls|
  {
    if calls == [] then []
    else
      var q := calls[0].q;
      var (heap', r) := ServeStore(heap, calls[0].store, q);
      (if calls[0].store == store && Allocates(q) then [(Block(r, SizeOf(q)), AlignOf(q))] else [])
      + StoreBlocks(heap', calls[1..], store)
  }

  function RequestsOf(calls: seq<Call>, store: int): seq<Request> {
    if calls == [] then []
    else (if calls[0].store == store then [calls[0].q] else []) + RequestsOf(calls[1..], store)
  }

  // Stores do not influence each other: each is served as if it were alone.
  lemma {:induction false} StoresApart(heap: map<int, nat>, calls: seq<Call>, store: int)
    ensures StoreBlocks(heap, calls, store) == Blocks(TopOf(heap, store), RequestsOf(calls, store))
    ensures TopOf(HeapAfter(heap, calls), store) == TopAfter(TopOf(heap, store), RequestsOf(calls, store))
    decreases |calls|
  {
    if calls != [] {
      var next, rest := ServeStore(heap, calls[0].store, calls[0].q).0, RequestsOf(calls[1..], store);
      StoresApart(next, calls[1..], store);
      if calls[0].store == store {
        assert RequestsOf(calls, store)[1..] == rest;
      } else {
        assert TopOf(next, store) == TopOf(heap, store);
        assert [] + rest == rest && [] + StoreBlocks(next, calls[1..], store) == StoreBlocks(next, calls[1..], store);
      }
    }
  }

  // In any interleaving, the blocks of a fresh store are pairwise disjoint, at or above the start, and
  // within the bound its own requests give.
  lemma {:induction false} FreshStoreBlocks(heap: map<int, nat>, calls: seq<Call>, store: int, i: nat, j: nat)
    requires store !in heap
    requires i < |StoreBlocks(heap, calls, store)| && j < |StoreBlocks(heap, calls, store)| && i != j
    ensures var bs := StoreBlocks(heap, calls, store);
            Disjoint(bs[i].0, bs[j].0) && bs[i].0.ptr >= 0x10000 && (IsPow2(bs[i].1) ==> bs[i].0.ptr % bs[i].1 == 0)
    ensures TopOf(HeapAfter(heap, calls), store) <= 0x10000 + Demand(RequestsOf(calls, store))
  {
    StoresApart(heap, calls, store);
    BlocksAreSound(HEAP_START, RequestsOf(calls, store));
  }

  // ---------------------------------------------------------------------------------------------
  // In terms of what was asked and what came back
  // ---------------------------------------------------------------------------------------------

  // The request asks for that many new bytes: an allocation, or a block that is to grow.
  ghost predicate Asks(q: Request, size: int, align: int) {
    size > 0 && (q == Alloc(size, align) || q == AllocZeroed(size, align)
                 || exists ptr, oldSize :: q == Realloc(ptr, oldSize, align, size) && size > oldSize)
  }

  // The pointer returned for the k-th call.
  function Reply(heap: map<int, nat>, calls: seq<Call>, k: nat): int
    requires k < |calls|
    decreases k
  {
    var (heap', r) := ServeStore(heap, calls[0].store, calls[0].q);
    if k == 0 then r else Reply(heap', calls[1..], k - 1)
  }

  lemma AskedReply(heap: map<int, nat>, store: int, q: Request, size: int, align: int)
    requires Asks(q, size, align)
    ensures var (heap', r) := ServeStore(heap, store, q);
            && r >= TopOf(heap, store) && TopOf(heap', store) == r + size
            && (align >= 1 && IsPow2(align) ==> r % align == 0)
  {
    ServeAdvances(TopOf(heap, store), q);
    if align >= 1 && IsPow2(align) { RoundUpIsLeastMultiple(TopOf(heap, store), align); }
  }

  lemma OtherReply(heap: map<int, nat>, store: int, q: Request, other: int)
    ensures TopOf(ServeStore(heap, store, q).0, other) >= TopOf(heap, other)
  {
    ServeAdvances(TopOf(heap, store), q);
  }

  lemma {:induction false} ReplyAbove(heap: map<int, nat>, calls: seq<Call>, store: int, j: nat, size: int, align: int)
    requires j < |calls| && calls[j].store == store && Asks(calls[j].q, size, align)
    ensures Reply(heap, calls, j) >= TopOf(heap, store)
    ensures align >= 1 && IsPow2(align) ==> Reply(heap, calls, j) % align == 0
    decreases j
  {
    var (next, r) := ServeStore(heap, calls[0].store, calls[0].q);
    if j == 0 {
      AskedReply(heap, store, calls[0].q, size, align);
    } else {
      OtherReply(heap, calls[0].store, calls[0].q, store);
      ReplyAbove(next, calls[1..], store, j - 1, size, align);
    }
  }

  // Main result, by pointers and requested sizes: in any interleaving of calls of any stores, of two requests
  // of a store for new bytes the later one is answered with a pointer behind the bytes of the earlier.
  lemma {:induction false} RepliesApart(heap: map<int, nat>, calls: seq<Call>, store: int, i: nat, j: nat,
                                        size: int, align: int, size': int, align': int)
    requires i < j < |calls| && calls[i].store == store && calls[j].store == store
    requires Asks(calls[i].q, size, align) && Asks(calls[j].q, size', align')
    ensures Reply(heap, calls, i) + size <= Reply(heap, calls, j)
    decreases i
  {
    var (next, r) := ServeStore(heap, calls[0].store, calls[0].q);
    if i == 0 {
      AskedReply(heap, store, calls[0].q, size, align);
      ReplyAbove(next, calls[1..], store, j - 1, size', align');
    } else {
      RepliesApart(next, calls[1..], store, i - 1, j - 1, size, align, size', align');
    }
  }

  // Each of them is aligned as asked, for powers of two, and for a fresh store not below 0x10000.
  lemma {:induction false} ReplyAligned(heap: map<int, nat>, calls: seq<Call>, j: nat, size: int, align: int)
    requires j < |calls| && calls[j].store !in heap && Asks(calls[j].q, size, align)
    ensures Reply(heap, calls, j) >= 0x10000
    ensures align >= 1 && IsPow2(align) ==> Reply(heap, calls, j) % align == 0
  {
    ReplyAbove(heap, calls, calls[j].store, j, size, align);
  }

  // Any other request leaves the heap alone; a block that is not to grow stays where it is, and a request
  // for nothing is answered with zero.
  lemma NothingAsked(heap: map<int, nat>, store: int, q: Request)
    requires forall size, align :: !Asks(q, size, align)
    ensures ServeStore(heap, store, q).0 == heap
    ensures q.Realloc? && q.newSize <= q.oldSize ==> ServeStore(heap, store, q).1 == q.ptr
    ensures (q.Alloc? || q.AllocZeroed? || (q.Realloc? && q.newSize > q.oldSize)) ==> ServeStore(heap, store, q).1 == 0
  {
    if q.Alloc? || q.AllocZeroed? {
      assert !Asks(q, q.size, q.align);
    } else if q.Realloc? {
      assert !Asks(q, q.newSize, q.align);
    }
  }
}
