/**
 * `CAllocator` (allocator.h): the size arithmetic of `GetMaxSize` and the `Allocate`
 * guard on a 64-bit `size_t`, and the lifetime of the storage it hands out, kept as an
 * abstract heap of blocks whose slots are raw or hold a live object.
 *
 * Which address `::operator new` returns is a parameter (`newAddr`).
 */
module Allocator {

  /** `static_cast<size_type>(-1)` for a 64-bit `size_t`. */
  const SIZE_MAX: nat := 0xFFFF_FFFF_FFFF_FFFF

  // ---------------------------------------------------------------------------
  // Size arithmetic
  // ---------------------------------------------------------------------------

  /** `GetMaxSize()` for an element of `elemSize` bytes: SIZE_MAX / sizeof(T), or 1 when
      that quotient is 0. It is the largest count whose byte size fits in `size_t`. */
  function GetMaxSize(elemSize: nat): (r: nat)
    requires elemSize >= 1
    ensures r >= 1
    ensures elemSize <= SIZE_MAX ==> r * elemSize <= SIZE_MAX < (r + 1) * elemSize
    ensures elemSize > SIZE_MAX ==> r == 1
  {
    var m := SIZE_MAX / elemSize;
    DivBounds(SIZE_MAX, elemSize);
    if 0 < m then m else 1
  }

  lemma DivBounds(a: nat, d: nat)
    requires d >= 1
    ensures (a / d) * d <= a < (a / d + 1) * d
  {
    assert a == (a / d) * d + a % d;
  }

  lemma MulMonotone(a: nat, b: nat, d: nat)
    requires a <= b
    ensures a * d <= b * d
  {
  }

  /** The guard of `Allocate` (allocator.h:111): a positive count of at most `GetMaxSize()`.
      For any element size `size_t` can hold, it admits exactly the positive counts whose
      byte size `count * sizeof(T)` does not overflow `size_t`. */
  function AllocateAdmits(count: nat, elemSize: nat): (b: bool)
    requires elemSize >= 1
    ensures b ==> 0 < count
    ensures elemSize <= SIZE_MAX ==> (b <==> 0 < count && count * elemSize <= SIZE_MAX)
  {
    var m := GetMaxSize(elemSize);
    if count <= m then
      MulMonotone(count, m, elemSize);
      0 < count
    else
      MulMonotone(m + 1, count, elemSize);
      false
  }

  // ---------------------------------------------------------------------------
  // Storage
  // ---------------------------------------------------------------------------

  /** An element slot of allocated storage: raw, or holding a constructed object. */
  datatype Slot<T> = Raw | Live(value: T)

  /** The blocks handed out by `::operator new`, by address. */
  datatype Heap<T> = Heap(blocks: map<nat, seq<Slot<T>>>)

  /** A `T*`: null, or element `index` of the block at `addr`. */
  datatype Pointer = Null | Ptr(addr: nat, index: nat)

  /** `p` designates a slot of allocated storage. */
  predicate InBlock<T>(heap: Heap<T>, p: Pointer)
  {
    p.Ptr? && p.addr in heap.blocks && p.index < |heap.blocks[p.addr]|
  }

  /** `Allocate(count)`: null when the guard fails; otherwise a new block of `count` raw
      slots at the address `::operator new` chooses. */
  function Allocate<T>(heap: Heap<T>, count: nat, elemSize: nat, newAddr: nat): (r: (Heap<T>, Pointer))
    requires elemSize >= 1 && newAddr !in heap.blocks
    ensures r.1.Null? <==> !(0 < count && count <= GetMaxSize(elemSize))
    ensures r.1.Null? ==> r.0 == heap
    ensures r.1.Ptr? ==>
              && r.1 == Ptr(newAddr, 0)
              && r.0.blocks.Keys == heap.blocks.Keys + {newAddr}
              && |r.0.blocks[newAddr]| == count
              && (forall i :: 0 <= i < count ==> r.0.blocks[newAddr][i] == Raw)
              && (forall a :: a in heap.blocks ==> r.0.blocks[a] == heap.blocks[a])
    ensures r.1.Ptr? && elemSize <= SIZE_MAX ==> count * elemSize <= SIZE_MAX
  {
    if AllocateAdmits(count, elemSize) then
      (Heap(heap.blocks[newAddr := seq(count, _ => Raw)]), Ptr(newAddr, 0))
    else
      (heap, Null)
  }

  /** `Allocate(0)` is null whatever the element size. */
  lemma AllocateZeroIsNull<T>(heap: Heap<T>, elemSize: nat, newAddr: nat)
    requires elemSize >= 1 && newAddr !in heap.blocks
    ensures Allocate(heap, 0, elemSize, newAddr) == (heap, Null)
  {
  }

  /** `Deallocate(p, count)`: `::operator delete(p)`, which frees the whole block and does
      nothing for null; `p` must be null or what `Allocate` returned. The count is unused. */
  function Deallocate<T>(heap: Heap<T>, p: Pointer, count: nat): (r: Heap<T>)
    requires p.Null? || (p.addr in heap.blocks && p.index == 0)
    ensures p.Null? ==> r == heap
    ensures p.Ptr? ==> r.blocks == heap.blocks - {p.addr}
  {
    if p.Null? then heap else Heap(heap.blocks - {p.addr})
  }

  /** The count passed to `Deallocate` makes no difference. */
  lemma DeallocateIgnoresCount<T>(heap: Heap<T>, p: Pointer, c1: nat, c2: nat)
    requires p.Null? || (p.addr in heap.blocks && p.index == 0)
    ensures Deallocate(heap, p, c1) == Deallocate(heap, p, c2)
  {
  }

  /** Deallocating what `Allocate` returned gives back the heap before the allocation. */
  lemma AllocateThenDeallocate<T>(heap: Heap<T>, count: nat, elemSize: nat, newAddr: nat)
    requires elemSize >= 1 && newAddr !in heap.blocks
    ensures var (h, p) := Allocate(heap, count, elemSize, newAddr);
            Deallocate(h, p, count) == heap
  {
    var (h, p) := Allocate(heap, count, elemSize, newAddr);
    if p.Ptr? {
      assert h.blocks - {newAddr} == heap.blocks;
    }
  }

  /** `Construct(p, value)`: placement new of a copy of `value` in the slot `p` designates. */
  function Construct<T>(heap: Heap<T>, p: Pointer, value: T): (r: Heap<T>)
    requires InBlock(heap, p)
    ensures r.blocks.Keys == heap.blocks.Keys
    ensures |r.blocks[p.addr]| == |heap.blocks[p.addr]|
    ensures r.blocks[p.addr][p.index] == Live(value)
    ensures forall i :: 0 <= i < |heap.blocks[p.addr]| && i != p.index ==>
              r.blocks[p.addr][i] == heap.blocks[p.addr][i]
    ensures forall a :: a in heap.blocks && a != p.addr ==> r.blocks[a] == heap.blocks[a]
  {
    var b := heap.blocks[p.addr];
    Heap(heap.blocks[p.addr := b[p.index := Live(value)]])
  }

  /** `Destroy(p)`: runs the destructor of the live object `p` designates, leaving the slot
      raw. */
  function Destroy<T>(heap: Heap<T>, p: Pointer): (r: Heap<T>)
    requires InBlock(heap, p) && heap.blocks[p.addr][p.index].Live?
    ensures r.blocks.Keys == heap.blocks.Keys
    ensures |r.blocks[p.addr]| == |heap.blocks[p.addr]|
    ensures r.blocks[p.addr][p.index] == Raw
    ensures forall i :: 0 <= i < |heap.blocks[p.addr]| && i != p.index ==>
              r.blocks[p.addr][i] == heap.blocks[p.addr][i]
    ensures forall a :: a in heap.blocks && a != p.addr ==> r.blocks[a] == heap.blocks[a]
  {
    var b := heap.blocks[p.addr];
    Heap(heap.blocks[p.addr := b[p.index := Raw]])
  }

  /** Destroying what was constructed in a raw slot gives back the heap. */
  lemma ConstructThenDestroy<T>(heap: Heap<T>, p: Pointer, value: T)
    requires InBlock(heap, p) && heap.blocks[p.addr][p.index] == Raw
    ensures var h := Construct(heap, p, value);
            InBlock(h, p) && h.blocks[p.addr][p.index].Live? && Destroy(h, p) == heap
  {
    var h := Construct(heap, p, value);
    assert Destroy(h, p).blocks[p.addr] == heap.blocks[p.addr];
    assert Destroy(h, p).blocks == heap.blocks;
  }

  // ---------------------------------------------------------------------------
  // Allocator comparison
  // ---------------------------------------------------------------------------

  /** The global `operator==` of allocator.h: every two operands, of any types, are equal. */
  function AllocatorsEqual<A, B>(a: A, b: B): (r: bool)
    ensures r
  {
    true
  }

  /** The global `operator!=` of allocator.h: no two operands differ. */
  function AllocatorsDiffer<A, B>(a: A, b: B): (r: bool)
    ensures !r
  {
    false
  }
}
