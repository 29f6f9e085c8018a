/**
 * `CDoubleLinkedList` (container/sequential/dlist.h): a circular doubly linked list
 * closed by a sentinel link, the anchor.
 *
 * The list is the sequence of element values met when following next links from the
 * anchor back to the anchor. A link is named by its position: 0 .. |elems| - 1 are the
 * nodes in order and |elems| is the anchor, which `End()` and `REnd()` designate.
 * A next step from the last node reaches the anchor, and from the anchor the first
 * node; a prev step goes the other way round.
 */
module DList {

  datatype List<T> = List(elems: seq<T>)

  /** A link of `l`: a node position or the anchor. */
  predicate IsLink<T>(l: List<T>, p: nat)
  {
    p <= |l.elems|
  }

  /** A position holding an element, i.e. any link but the anchor. */
  predicate IsNode<T>(l: List<T>, p: nat)
  {
    p < |l.elems|
  }

  /** The anchor link. */
  function End<T>(l: List<T>): nat
  {
    |l.elems|
  }

  // ---------------------------------------------------------------------------
  // Link steps (the iterators' Increment and Decrement)
  // ---------------------------------------------------------------------------

  /** The `m_pNext` link: what `CConstIterator::Increment` follows. */
  function Next<T>(l: List<T>, p: nat): (r: nat)
    requires IsLink(l, p)
    ensures IsLink(l, r)
  {
    if p == End(l) then 0 else p + 1
  }

  /** The `m_pPrev` link: what `CConstIterator::Decrement` follows. */
  function Prev<T>(l: List<T>, p: nat): (r: nat)
    requires IsLink(l, p)
    ensures IsLink(l, r)
  {
    if p == 0 then End(l) else p - 1
  }

  /** The links are doubly linked: each link is the prev of its next and the next of its prev. */
  lemma NextPrevInverse<T>(l: List<T>, p: nat)
    requires IsLink(l, p)
    ensures Prev(l, Next(l, p)) == p
    ensures Next(l, Prev(l, p)) == p
  {
  }

  /** `n` next steps from `p`. */
  function Steps<T>(l: List<T>, p: nat, n: nat): (r: nat)
    requires IsLink(l, p)
    ensures IsLink(l, r)
    decreases n
  {
    if n == 0 then p else Steps(l, Next(l, p), n - 1)
  }

  /** Steps short of the anchor advance the position one by one. */
  lemma {:induction false} StepsForward<T>(l: List<T>, p: nat, n: nat)
    requires p + n <= |l.elems|
    ensures Steps(l, p, n) == p + n
    decreases n
  {
    if n > 0 {
      StepsForward(l, p + 1, n - 1);
    }
  }

  lemma {:induction false} StepsCompose<T>(l: List<T>, p: nat, a: nat, b: nat)
    requires IsLink(l, p)
    ensures Steps(l, p, a + b) == Steps(l, Steps(l, p, a), b)
    decreases a
  {
    if a > 0 {
      StepsCompose(l, Next(l, p), a - 1, b);
    }
  }

  /** The links form one ring through the anchor: from any link, |elems| + 1 next steps
      come back to it. */
  lemma StepsAround<T>(l: List<T>, p: nat)
    requires IsLink(l, p)
    ensures Steps(l, p, |l.elems| + 1) == p
  {
    var n := |l.elems|;
    StepsForward(l, p, n - p);
    StepsCompose(l, p, n - p, 1 + p);
    StepsCompose(l, n, 1, p);
    StepsForward(l, 0, p);
  }

  // ---------------------------------------------------------------------------
  // Construction and iterator creation
  // ---------------------------------------------------------------------------

  /** The constructor: the anchor's links point to the anchor itself. */
  function New<T>(): (l: List<T>)
    ensures IsEmpty(l) && Begin(l) == End(l)
    ensures Next(l, End(l)) == End(l) && Prev(l, End(l)) == End(l)
  {
    List([])
  }

  /** `Begin()`: the anchor's next link. */
  function Begin<T>(l: List<T>): (p: nat)
    ensures IsLink(l, p)
    ensures p == End(l) <==> l.elems == []
    ensures l.elems != [] ==> p == 0
    ensures IsNode(l, p) ==> l.elems[p] == l.elems[0]
  {
    Next(l, End(l))
  }

  /** `RBegin()`: the anchor's prev link, the last element when there is one. */
  function RBegin<T>(l: List<T>): (p: nat)
    ensures IsLink(l, p)
    ensures p == End(l) <==> l.elems == []
    ensures l.elems != [] ==> p == |l.elems| - 1
    ensures IsNode(l, p) ==> l.elems[p] == l.elems[|l.elems| - 1]
  {
    Prev(l, End(l))
  }

  /** `IsEmpty()`: the anchor's next link is the anchor. */
  function IsEmpty<T>(l: List<T>): (b: bool)
    ensures b <==> |l.elems| == 0
  {
    Next(l, End(l)) == End(l)
  }

  // ---------------------------------------------------------------------------
  // Insert and Remove at an iterator
  // ---------------------------------------------------------------------------

  /** `Insert(pos, e)`: a new node holding `e` is linked in just before `pos`; the
      result designates it, and its next link is the link `pos` designated. */
  function Insert<T>(l: List<T>, pos: nat, e: T): (r: (List<T>, nat))
    requires IsLink(l, pos)
    ensures var (m, it) := r;
            && |m.elems| == |l.elems| + 1
            && it == pos && m.elems[it] == e
            && m.elems[..pos] == l.elems[..pos]
            && m.elems[pos + 1..] == l.elems[pos..]
            && Next(m, it) == pos + 1
  {
    (List(l.elems[..pos] + [e] + l.elems[pos..]), pos)
  }

  /** `Remove(pos)`: `pos` must not be the anchor (the assert of dlist.h:792). The node is
      unlinked, and the result designates the link that followed it: the next element,
      or the anchor when the last element was removed. */
  function Remove<T>(l: List<T>, pos: nat): (r: (List<T>, nat))
    requires IsNode(l, pos)
    ensures var (m, it) := r;
            && |m.elems| == |l.elems| - 1
            && m.elems[..pos] == l.elems[..pos]
            && m.elems[pos..] == l.elems[pos + 1..]
            && it == pos && IsLink(m, it)
            && (it == End(m) <==> pos == |l.elems| - 1)
            && (IsNode(m, it) ==> m.elems[it] == l.elems[pos + 1])
  {
    (List(l.elems[..pos] + l.elems[pos + 1..]), pos)
  }

  /** Removing what was just inserted restores the list and designates the link the
      insertion was made before. */
  lemma InsertThenRemove<T>(l: List<T>, pos: nat, e: T)
    requires IsLink(l, pos)
    ensures var (m, it) := Insert(l, pos, e);
            Remove(m, it) == (l, pos)
  {
    var (m, it) := Insert(l, pos, e);
    assert m.elems[..pos] + m.elems[pos + 1..] == l.elems;
  }

  /** Re-inserting a removed element before the returned iterator restores the list. */
  lemma RemoveThenInsert<T>(l: List<T>, pos: nat)
    requires IsNode(l, pos)
    ensures var (m, it) := Remove(l, pos);
            Insert(m, it, l.elems[pos]).0 == l
  {
    var (m, it) := Remove(l, pos);
    assert m.elems[..pos] + [l.elems[pos]] + m.elems[pos..] == l.elems;
  }

  // ---------------------------------------------------------------------------
  // Both ends
  // ---------------------------------------------------------------------------

  /** `PushBack(e)`: `Insert(End(), e)` appends. */
  function PushBack<T>(l: List<T>, e: T): (r: List<T>)
    ensures r.elems == l.elems + [e]
  {
    Insert(l, End(l), e).0
  }

  /** `PushFront(e)`: `Insert(Begin(), e)` prepends. */
  function PushFront<T>(l: List<T>, e: T): (r: List<T>)
    ensures r.elems == [e] + l.elems
  {
    Insert(l, Begin(l), e).0
  }

  /** `PopBack()`: `Remove(--End())`; on an empty list `--End()` is the anchor, which the
      assert in `Remove` rejects. */
  function PopBack<T>(l: List<T>): (r: List<T>)
    requires !IsEmpty(l)
    ensures r.elems == l.elems[..|l.elems| - 1]
  {
    Remove(l, Prev(l, End(l))).0
  }

  /** `PopFront()`: `Remove(Begin())`. */
  function PopFront<T>(l: List<T>): (r: List<T>)
    requires !IsEmpty(l)
    ensures r.elems == l.elems[1..]
  {
    Remove(l, Begin(l)).0
  }

  /** Popping what was pushed gives back the list, at either end. */
  lemma PushThenPop<T>(l: List<T>, e: T)
    ensures PopBack(PushBack(l, e)) == l
    ensures PopFront(PushFront(l, e)) == l
  {
    assert PushBack(l, e).elems[..|l.elems|] == l.elems;
    assert PushFront(l, e).elems[1..] == l.elems;
  }

  // ---------------------------------------------------------------------------
  // Traversals
  // ---------------------------------------------------------------------------

  /** `Clear()`: walks the next links from the first node to the anchor destroying every
      node, then points the anchor at itself. `destroyed` counts the nodes freed. */
  method Clear<T>(l: List<T>) returns (r: List<T>, destroyed: nat)
    ensures IsEmpty(r) && Begin(r) == End(r)
    ensures destroyed == |l.elems|
  {
    var current := Begin(l);
    destroyed := 0;
    while current != End(l)
      invariant IsLink(l, current)
      invariant current == destroyed
      decreases End(l) - current
    {
      current := Next(l, current);
      destroyed := destroyed + 1;
    }
    r := List([]);
  }

  /** `GetElementCount()`: counts the next steps from `Begin()` to `End()`. */
  method GetElementCount<T>(l: List<T>) returns (size: nat)
    ensures size == |l.elems|
  {
    var it := Begin(l);
    size := 0;
    while it != End(l)
      invariant IsLink(l, it) && it == size
      decreases End(l) - it
    {
      it := Next(l, it);
      size := size + 1;
    }
  }

  /** Forward traversal with `++` from `Begin()` to `End()` reads the elements in order. */
  method Traverse<T>(l: List<T>) returns (out: seq<T>)
    ensures out == l.elems
  {
    var it := Begin(l);
    out := [];
    while it != End(l)
      invariant IsLink(l, it) && it == |out|
      invariant out == l.elems[..it]
      decreases End(l) - it
    {
      out := out + [l.elems[it]];
      it := Next(l, it);
    }
  }

  /** `CConstReverseIterator::Increment`: a reverse step follows the prev link. */
  function RIncrement<T>(l: List<T>, p: nat): (r: nat)
    requires IsLink(l, p)
    ensures IsLink(l, r)
  {
    Prev(l, p)
  }

  /** `CConstReverseIterator::Decrement`: a reverse step back follows the next link. */
  function RDecrement<T>(l: List<T>, p: nat): (r: nat)
    requires IsLink(l, p)
    ensures IsLink(l, r)
  {
    Next(l, p)
  }

  /** The reverse iterator's steps undo each other. */
  lemma ReverseStepsInverse<T>(l: List<T>, p: nat)
    requires IsLink(l, p)
    ensures RDecrement(l, RIncrement(l, p)) == p
    ensures RIncrement(l, RDecrement(l, p)) == p
  {
    NextPrevInverse(l, p);
  }

  /** The sequence in reverse order, as a reference for reverse traversal. */
  function Reversed<T>(s: seq<T>): (r: seq<T>)
    ensures |r| == |s|
    ensures forall i :: 0 <= i < |s| ==> r[i] == s[|s| - 1 - i]
  {
    if s == [] then [] else Reversed(s[1..]) + [s[0]]
  }

  /** Reverse traversal with `++` on a reverse iterator, from `RBegin()` to `REnd()`
      (the anchor), reads the elements last to first. */
  method ReverseTraverse<T>(l: List<T>) returns (out: seq<T>)
    ensures out == Reversed(l.elems)
  {
    var n := |l.elems|;
    var it := RBegin(l);
    out := [];
    while it != End(l)
      invariant IsLink(l, it) && |out| <= n
      invariant it == if |out| == n then n else n - 1 - |out|
      invariant forall i :: 0 <= i < |out| ==> out[i] == l.elems[n - 1 - i]
      decreases n - |out|
    {
      out := out + [l.elems[it]];
      it := RIncrement(l, it);
    }
  }

  // ---------------------------------------------------------------------------
  // Index access
  // ---------------------------------------------------------------------------

  /** The walk of `GetIteratorByIndex`: while the count is positive, assert the iterator
      is not `End()` (dlist.h:880) and step forward. */
  function Walk<T>(l: List<T>, it: nat, n: int): (r: nat)
    requires IsLink(l, it) && (n <= 0 || it + n <= |l.elems|)
    ensures IsLink(l, r)
    ensures r == if n <= 0 then it else it + n
    decreases n
  {
    if n <= 0 then it
    else
      assert it != End(l);
      Walk(l, Next(l, it), n - 1)
  }

  /** The highest index `GetIteratorByIndex` accepts: the walk of `i` steps stays off the
      anchor before each step exactly when `i` is at most the length. */
  predicate IndexInRange<T>(l: List<T>, i: int)
  {
    i <= |l.elems|
  }

  /** `GetIteratorByIndex(i)`: position `i`, which is `End()` for `i` equal to the length;
      a negative index walks no step and gives `Begin()`. */
  function GetIteratorByIndex<T>(l: List<T>, i: int): (r: nat)
    requires IndexInRange(l, i)
    ensures IsLink(l, r)
    ensures i >= 0 ==> r == i
    ensures i < 0 ==> r == Begin(l)
  {
    Walk(l, Begin(l), i)
  }

  /** `Insert(index, e)`. */
  function InsertAt<T>(l: List<T>, i: int, e: T): (r: (List<T>, nat))
    requires IndexInRange(l, i)
    ensures var j := if i < 0 then 0 else i;
            r.0.elems == l.elems[..j] + [e] + l.elems[j..] && r.1 == j
  {
    var (m, it) := Insert(l, GetIteratorByIndex(l, i), e);
    assert m.elems == m.elems[..it] + [m.elems[it]] + m.elems[it + 1..];
    (m, it)
  }

  /** `Remove(index)`: the iterator `GetIteratorByIndex` gives must be a node. */
  function RemoveAt<T>(l: List<T>, i: int): (r: (List<T>, nat))
    requires i < |l.elems| && !IsEmpty(l)
    ensures var j := if i < 0 then 0 else i;
            r.0.elems == l.elems[..j] + l.elems[j + 1..] && r.1 == j
  {
    var (m, it) := Remove(l, GetIteratorByIndex(l, i));
    assert m.elems == m.elems[..it] + m.elems[it..];
    (m, it)
  }

  /** `GetElementAt(index)`: dereferences the iterator `GetIteratorByIndex` gives, which
      must be a node. */
  function GetElementAt<T>(l: List<T>, i: int): (r: T)
    requires i < |l.elems| && !IsEmpty(l)
    ensures r == l.elems[if i < 0 then 0 else i]
  {
    l.elems[GetIteratorByIndex(l, i)]
  }

  // ---------------------------------------------------------------------------
  // Range insert and the copy constructor
  // ---------------------------------------------------------------------------

  /** `Insert(pos, first, last)`: each element of `src` from `first` up to (not including)
      `last` is inserted before the fixed link `pos`. That link moves one position on with
      every insertion, so the range lands in its original order. `last` must be reachable
      from `first` by next steps without crossing the anchor. */
  method InsertRange<T>(l: List<T>, pos: nat, src: List<T>, first: nat, last: nat)
    returns (r: List<T>)
    requires IsLink(l, pos) && first <= last && IsLink(src, last)
    ensures r.elems == l.elems[..pos] + src.elems[first..last] + l.elems[pos..]
  {
    r := l;
    var at := pos;
    var f := first;
    while f != last
      invariant first <= f <= last
      invariant at == pos + (f - first) && IsLink(r, at)
      invariant r.elems == l.elems[..pos] + src.elems[first..f] + l.elems[pos..]
      decreases last - f
    {
      var (m, it) := Insert(r, at, src.elems[f]);
      assert src.elems[first..f + 1] == src.elems[first..f] + [src.elems[f]];
      assert m.elems == r.elems[..at] + [src.elems[f]] + r.elems[at..];
      assert r.elems[..at] == l.elems[..pos] + src.elems[first..f];
      assert r.elems[at..] == l.elems[pos..];
      r := m;
      at := Next(r, it);
      f := Next(src, f);
    }
  }

  /** The copy constructor: a new list, then the range insert of the whole source before
      its `Begin()`. The copy holds the same elements in the same order. */
  method Copy<T>(src: List<T>) returns (r: List<T>)
    ensures r == src
  {
    var empty := New<T>();
    r := InsertRange(empty, Begin(empty), src, Begin(src), End(src));
    assert src.elems[0..|src.elems|] == src.elems;
  }
}
