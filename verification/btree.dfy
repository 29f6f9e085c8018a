/**
 * Operations of `CBinaryTree` (container/associative/btree.h): construction,
 * insertion, lookup, leftmost search, the in-order iterator step and removal,
 * each stated against the abstract sorted map of module BTreeModel.
 *
 * Two spots of the draft do not compile; the model implements what their
 * comments and the symmetric branch state:
 *  - btree.h:501 tests a field `m_pRightNode` that does not exist and never
 *    steps into the right child. `Increment` steps to the right child and then
 *    left as far as possible, as the comment at btree.h:497-498 says.
 *  - btree.h:412 assigns the left child to the local `ppParentLink` instead of
 *    through it. `Spliced` writes the left child into the parent's link, as the
 *    right-only branch at btree.h:406-407 does.
 */
module BTree {
  import opened BTreeModel

  // ---------------------------------------------------------------------------
  // Construction and properties
  // ---------------------------------------------------------------------------

  /** `CBinaryTree()`: a null root and a count of 0. */
  function New<V>(): (tree: BinaryTree<V>)
    ensures Valid(tree) && IsEmpty(tree)
    ensures tree.root.Nil? && ToMap(tree.root) == map[]
  {
    BinaryTree(Nil, 0)
  }

  /** `IsEmpty()` tests the count; on a valid tree that is the same as a null root. */
  function IsEmpty<V>(tree: BinaryTree<V>): (b: bool)
    ensures Valid(tree) ==> (b <==> tree.root.Nil?)
  {
    assert tree.root.Node? ==> tree.root.key in Keys(tree.root);
    tree.size == 0
  }

  /** `GetElementCount()` returns the count, which on a valid tree is the number of
      entries of the abstract map (btree.h:119: the number of elements). */
  function GetElementCount<V>(tree: BinaryTree<V>): (n: nat)
    ensures Valid(tree) ==> n == |ToMap(tree.root)|
  {
    ToMapKeys(tree.root);
    tree.size
  }

  /** On a valid tree the count answers for the nodes: empty exactly when the root is null,
      and the count is the number of entries of the abstract map. */
  lemma CountMatchesNodes<V>(tree: BinaryTree<V>)
    requires Valid(tree)
    ensures IsEmpty(tree) <==> tree.root.Nil?
    ensures GetElementCount(tree) == |InOrder(tree.root)| == |ToMap(tree.root)|
  {
    OrderedIffSorted(tree.root);
    KeysInOrder(tree.root);
    SortedKeyCount(InOrder(tree.root));
    ToMapKeys(tree.root);
    if tree.root.Node? {
      assert tree.root.key in Keys(tree.root);
    }
  }

  // ---------------------------------------------------------------------------
  // Insert
  // ---------------------------------------------------------------------------

  /** What `InsertOnChild` produces: the new subtree, the path of the returned
      node, and whether a node was created (the `++m_Size` of btree.h:353). */
  datatype Inserted<V> = Inserted(tree: Tree<V>, path: seq<Dir>, created: bool)

  /** `InsertOnChild`: descend left on a smaller key, right on a greater one; an equal
      key returns the existing node; a null slot receives a new node. */
  function InsertOnChild<V>(t: Tree<V>, k: int, v: V): (r: Inserted<V>)
    ensures PathIn(t, r.path)
    ensures SubtreeAt(r.tree, r.path).Node? && SubtreeAt(r.tree, r.path).key == k
    ensures r.created ==>
              SubtreeAt(t, r.path).Nil? && r.tree == ReplaceAt(t, r.path, Node(Nil, k, v, Nil))
    ensures !r.created ==> r.tree == t
    ensures Ordered(t) ==> (r.created <==> k !in Keys(t))
    ensures Ordered(t) ==> Ordered(r.tree) && Keys(r.tree) == Keys(t) + {k}
  {
    match t
    case Nil => Inserted(Node(Nil, k, v, Nil), [], true)
    case Node(l, x, w, rt) =>
      if k < x then
        var sub := InsertOnChild(l, k, v);
        assert ([Left] + sub.path)[1..] == sub.path;
        Inserted(Node(sub.tree, x, w, rt), [Left] + sub.path, sub.created)
      else if k > x then
        var sub := InsertOnChild(rt, k, v);
        assert ([Right] + sub.path)[1..] == sub.path;
        Inserted(Node(l, x, w, sub.tree), [Right] + sub.path, sub.created)
      else
        Inserted(t, [], false)
  }

  /** A created node adds exactly its entry to the abstract map. */
  lemma InsertAddsEntry<V>(t: Tree<V>, k: int, v: V)
    ensures Ordered(t) && k !in Keys(t) ==> ToMap(InsertOnChild(t, k, v).tree) == ToMap(t)[k := v]
  {
    if !(Ordered(t) && k !in Keys(t)) { return; }
    var r := InsertOnChild(t, k, v);
    FillSlotMap(t, r.path, k, v);
  }

  /** Filling a null slot with a new node adds its entry to the abstract map. */
  lemma FillSlotMap<V>(t: Tree<V>, p: seq<Dir>, k: int, v: V)
    requires PathIn(t, p) && SubtreeAt(t, p).Nil? && k !in Keys(t)
    ensures ToMap(ReplaceAt(t, p, Node(Nil, k, v, Nil))) == ToMap(t)[k := v]
  {
    var b, a := Before(t, p), After(t, p);
    var e := Entry(k, v);
    assert InOrder(ReplaceAt(t, p, Node(Nil, k, v, Nil))) == b + [e] + a by {
      ReplaceAtInOrder(t, p, Node(Nil, k, v, Nil));
      assert InOrder(Node(Nil, k, v, Nil)) == [e];
    }
    assert InOrder(t) == b + a by {
      InOrderAround(t, p);
      assert InOrder(SubtreeAt(t, p)) == [];
    }
    assert k !in MapOf(b) by {
      KeysInOrder(t);
      KeySetConcat(b, a);
      MapOfKeys(b);
    }
    assert MapOf(b + [e] + a) == MapOf(a) + (map[k := v] + MapOf(b)) by {
      MapOfConcat(b + [e], a);
      MapOfConcat(b, [e]);
      assert MapOf([e]) == map[k := v];
    }
    MapOfConcat(b, a);
    MapUnionUpdate(MapOf(a), MapOf(b), k, v);
  }

  lemma MapUnionUpdate<V>(ma: map<int, V>, mb: map<int, V>, k: int, v: V)
    requires k !in mb
    ensures ma + (map[k := v] + mb) == (ma + mb)[k := v]
  {
  }

  /** `Insert`: the returned iterator designates the node with key `k`; a new key adds
      one entry and one to the count, an existing key changes nothing. */
  function Insert<V>(tree: BinaryTree<V>, k: int, v: V): (r: (BinaryTree<V>, Iter))
    ensures r.1.At? && SubtreeAt(r.0.root, r.1.path).Node? && SubtreeAt(r.0.root, r.1.path).key == k
    ensures Valid(tree) ==> Valid(r.0)
    ensures Ordered(tree.root) ==> Ordered(r.0.root) && Keys(r.0.root) == Keys(tree.root) + {k}
    ensures Ordered(tree.root) && k in Keys(tree.root) ==> r.0 == tree
    ensures Ordered(tree.root) && k !in Keys(tree.root) ==>
              r.0.size == tree.size + 1 && ToMap(r.0.root) == ToMap(tree.root)[k := v]
  {
    var ins := InsertOnChild(tree.root, k, v);
    InsertAddsEntry(tree.root, k, v);
    (BinaryTree(ins.tree, if ins.created then tree.size + 1 else tree.size), At(ins.path))
  }

  // ---------------------------------------------------------------------------
  // Find and leftmost search
  // ---------------------------------------------------------------------------

  /** `FindOnChild`: the insertion descent without mutation; null when it reaches a null slot. */
  function FindOnChild<V>(t: Tree<V>, k: int): (r: Iter)
    ensures r.At? ==> SubtreeAt(t, r.path).Node? && SubtreeAt(t, r.path).key == k
    ensures Ordered(t) ==> (r.End? <==> k !in Keys(t))
  {
    match t
    case Nil => End
    case Node(l, x, _, rt) =>
      if k < x then
        var sub := FindOnChild(l, k);
        if sub.End? then End else assert ([Left] + sub.path)[1..] == sub.path; At([Left] + sub.path)
      else if k > x then
        var sub := FindOnChild(rt, k);
        if sub.End? then End else assert ([Right] + sub.path)[1..] == sub.path; At([Right] + sub.path)
      else
        At([])
  }

  /** `Find`: end exactly when the key is absent; otherwise the node holding the key's value. */
  function Find<V>(tree: BinaryTree<V>, k: int): (r: Iter)
    ensures r.At? ==> SubtreeAt(tree.root, r.path).Node? && SubtreeAt(tree.root, r.path).key == k
    ensures Ordered(tree.root) ==> (r.End? <==> k !in ToMap(tree.root))
    ensures Ordered(tree.root) && r.At? ==> SubtreeAt(tree.root, r.path).value == ToMap(tree.root)[k]
  {
    var r := FindOnChild(tree.root, k);
    ToMapKeys(tree.root);
    FoundValue(tree.root, r);
    r
  }

  /** In a search tree the value of the node with key `k` is what the abstract map holds for `k`. */
  lemma FoundValue<V>(t: Tree<V>, it: Iter)
    ensures Ordered(t) && it.At? && SubtreeAt(t, it.path).Node? ==>
              && SubtreeAt(t, it.path).key in ToMap(t)
              && ToMap(t)[SubtreeAt(t, it.path).key] == SubtreeAt(t, it.path).value
  {
    if !(Ordered(t) && it.At? && SubtreeAt(t, it.path).Node?) { return; }
    var p := it.path;
    var n := SubtreeAt(t, p);
    var e := Entry(n.key, n.value);
    var a := Before(t, p) + InOrder(n.left);
    var b := InOrder(n.right) + After(t, p);
    InOrderAroundNode(t, p);
    OrderedIffSorted(t);
    SortedConcat(a, e, b);
    MapOfAt(a, e, b);
  }

  /** `FindLowestOnChild`: the given parent for a null child, otherwise the leftmost
      node of the child's subtree, which has no left child and holds its least key. */
  function FindLowestOnChild<V>(child: Tree<V>, childPath: seq<Dir>, parent: Iter): (r: Iter)
    ensures child.Nil? ==> r == parent
    ensures child.Node? ==> r == At(childPath + Spine(child))
    ensures child.Node? ==>
              var n := SubtreeAt(child, Spine(child));
              && n.Node? && n.left.Nil? && n.key in Keys(child)
              && (Ordered(child) ==> forall x :: x in Keys(child) ==> n.key <= x)
    decreases child
  {
    if child.Nil? then parent
    else
      SpineLeftmost(child);
      var r := FindLowestOnChild(child.left, childPath + [Left], At(childPath));
      assert child.left.Node? ==> childPath + [Left] + Spine(child.left) == childPath + Spine(child);
      r
  }

  // ---------------------------------------------------------------------------
  // Iterator increment
  // ---------------------------------------------------------------------------

  /** The climb of btree.h:510-522: ascend while the node is its parent's right child;
      the parent then reached is next, or null past the root. */
  function Climb(p: seq<Dir>): (r: Iter)
    ensures r.At? ==> |r.path| < |p| && r.path == p[..|r.path|]
    decreases |p|
  {
    if |p| > 0 && p[|p| - 1] == Right then
      var r := Climb(p[..|p| - 1]);
      assert r.At? ==> r.path == p[..|r.path|];
      r
    else if |p| == 0 then End
    else At(p[..|p| - 1])
  }

  /** `CConstIterator::Increment`: into the right subtree's leftmost node if there is a
      right child, else the climb. The result is a node of the tree or null. */
  function Increment<V>(root: Tree<V>, it: Iter): (r: Iter)
    requires it.At? && SubtreeAt(root, it.path).Node?
    ensures r.At? ==> SubtreeAt(root, r.path).Node?
  {
    var n := SubtreeAt(root, it.path);
    if n.right.Node? then
      var r := FindLowestOnChild(n.right, it.path + [Right], it);
      SubtreeAtAppend(root, it.path, [Right]);
      SubtreeAtAppend(root, it.path + [Right], Spine(n.right));
      r
    else
      var r := Climb(it.path);
      NodePathIn(root, it.path);
      if r.At? then ReplaceAtAncestor(root, it.path, Nil, r.path); r else r
  }

  lemma IncrementShape<V>(root: Tree<V>, p: seq<Dir>)
    requires SubtreeAt(root, p).Node?
    ensures SubtreeAt(root, p).right.Node? ==>
              Increment(root, At(p)) == At(p + [Right] + Spine(SubtreeAt(root, p).right))
    ensures SubtreeAt(root, p).right.Nil? ==> Increment(root, At(p)) == Climb(p)
  {
  }

  lemma {:induction false} ClimbUnder(d: Dir, p: seq<Dir>)
    ensures Climb([d] + p) ==
            if Climb(p).At? then At([d] + Climb(p).path) else if d == Left then At([]) else End
    decreases |p|
  {
    var q := [d] + p;
    if |p| == 0 {
      assert q[..0] == [];
    } else {
      assert q[|q| - 1] == p[|p| - 1];
      assert q[..|q| - 1] == [d] + p[..|p| - 1];
      if p[|p| - 1] == Right {
        ClimbUnder(d, p[..|p| - 1]);
      }
    }
  }

  /** Incrementing inside a child subtree, seen from the parent node. */
  lemma IncrementUnder<V>(t: Tree<V>, d: Dir, p: seq<Dir>)
    requires t.Node? && SubtreeAt(if d == Left then t.left else t.right, p).Node?
    ensures var c := if d == Left then t.left else t.right;
            var ri := Increment(c, At(p));
            Increment(t, At([d] + p)) ==
              if ri.At? then At([d] + ri.path) else if d == Left then At([]) else End
  {
    var c := if d == Left then t.left else t.right;
    assert ([d] + p)[1..] == p;
    var n := SubtreeAt(c, p);
    assert SubtreeAt(t, [d] + p) == n;
    if n.right.Node? {
      assert [d] + p + [Right] + Spine(n.right) == [d] + (p + [Right] + Spine(n.right));
    } else {
      ClimbUnder(d, p);
    }
  }

  /** The step from the node at `p` yields the node with the least greater key, or end
      when there is none. */
  ghost predicate SuccessorAt<V>(t: Tree<V>, p: seq<Dir>)
    requires SubtreeAt(t, p).Node?
  {
    var k := SubtreeAt(t, p).key;
    var r := Increment(t, At(p));
    && (r.End? <==> forall x :: x in Keys(t) ==> x <= k)
    && (r.At? ==> SubtreeAt(t, r.path).Node? && IsLeastAbove(Keys(t), k, SubtreeAt(t, r.path).key))
  }

  /** Increment yields the node with the least greater key, or end when there is none. */
  lemma {:induction false} IncrementIsSuccessor<V>(t: Tree<V>, p: seq<Dir>)
    requires Ordered(t) && SubtreeAt(t, p).Node?
    ensures SuccessorAt(t, p)
    decreases |p|
  {
    if |p| == 0 {
      assert p == [];
      SuccessorAtRoot(t);
    } else {
      var d, q := p[0], p[1..];
      assert p == [d] + q;
      if d == Left {
        IncrementIsSuccessor(t.left, q);
        SuccessorUnderLeft(t, q);
      } else {
        IncrementIsSuccessor(t.right, q);
        SuccessorUnderRight(t, q);
      }
      assert SuccessorAt(t, p);
    }
  }

  /** At the root the successor is the least key of the right subtree, if there is one. */
  lemma SuccessorAtRoot<V>(t: Tree<V>)
    requires Ordered(t) && t.Node?
    ensures SuccessorAt(t, [])
  {
    var Node(l, k, _, rt) := t;
    assert Keys(t) == Keys(l) + {k} + Keys(rt);
    var r := Increment(t, At([]));
    if rt.Node? {
      SpineLeftmost(rt);
      assert ([Right] + Spine(rt))[1..] == Spine(rt);
      assert r == At([Right] + Spine(rt));
      assert SubtreeAt(t, r.path) == SubtreeAt(rt, Spine(rt));
      var m := SubtreeAt(rt, Spine(rt)).key;
      assert m in Keys(rt) && m in Keys(t) && k < m;
      assert !(forall x :: x in Keys(t) ==> x <= k) by {
        assert m in Keys(t) && !(m <= k);
      }
    }
  }

  /** Inside the left subtree the successor is the one found there, or the node itself. */
  lemma SuccessorUnderLeft<V>(t: Tree<V>, q: seq<Dir>)
    requires Ordered(t) && t.Node? && SubtreeAt(t.left, q).Node?
    requires SuccessorAt(t.left, q)
    ensures SubtreeAt(t, [Left] + q) == SubtreeAt(t.left, q)
    ensures SuccessorAt(t, [Left] + q)
  {
    var Node(l, k0, _, rt) := t;
    assert ([Left] + q)[1..] == q;
    assert Keys(t) == Keys(l) + {k0} + Keys(rt);
    IncrementUnder(t, Left, q);
    SubtreeOrdered(l, q);
    var k := SubtreeAt(l, q).key;
    assert k in Keys(l) && k < k0;
    var ri := Increment(l, At(q));
    if ri.At? {
      assert ([Left] + ri.path)[1..] == ri.path;
      assert SubtreeAt(t, [Left] + ri.path) == SubtreeAt(l, ri.path);
    } else {
      assert k0 in Keys(t);
    }
  }

  /** Inside the right subtree the successor is the one found there, or there is none. */
  lemma SuccessorUnderRight<V>(t: Tree<V>, q: seq<Dir>)
    requires Ordered(t) && t.Node? && SubtreeAt(t.right, q).Node?
    requires SuccessorAt(t.right, q)
    ensures SubtreeAt(t, [Right] + q) == SubtreeAt(t.right, q)
    ensures SuccessorAt(t, [Right] + q)
  {
    var Node(l, k0, _, rt) := t;
    assert ([Right] + q)[1..] == q;
    assert Keys(t) == Keys(l) + {k0} + Keys(rt);
    IncrementUnder(t, Right, q);
    SubtreeOrdered(rt, q);
    var k := SubtreeAt(rt, q).key;
    assert k in Keys(rt) && k0 < k;
    var ri := Increment(rt, At(q));
    if ri.At? {
      assert ([Right] + ri.path)[1..] == ri.path;
      assert SubtreeAt(t, [Right] + ri.path) == SubtreeAt(rt, ri.path);
    }
  }

  // ---------------------------------------------------------------------------
  // Remove
  // ---------------------------------------------------------------------------

  /** The subtree that takes a removed node's place (btree.h:400-434), by case on its
      children: none, right only, left only (the intent of btree.h:412), or two, where the
      successor (the leftmost node of the right subtree) is unlinked, its right child
      taking its slot, and takes over the removed node's children. */
  function Spliced<V>(n: Tree<V>): (s: Tree<V>)
    requires n.Node?
    ensures InOrder(s) == InOrder(n.left) + InOrder(n.right)
  {
    if n.left.Nil? && n.right.Nil? then Nil
    else if n.left.Nil? then n.right
    else if n.right.Nil? then n.left
    else
      SpineLeftmost(n.right);
      var sp := Spine(n.right);
      var succ := SubtreeAt(n.right, sp);
      var s := Node(n.left, succ.key, succ.value, ReplaceAt(n.right, sp, succ.right));
      ReplaceAtInOrder(n.right, sp, succ.right);
      InOrderAround(n.right, sp);
      assert InOrder(n.right) == [Entry(succ.key, succ.value)] + InOrder(succ.right) + After(n.right, sp);
      s
  }

  /** The iterator `Remove(iterator)` returns, read in the tree after the splice: the
      successor computed before the removal (btree.h:385), whose path changes only when
      it was inside the spliced subtree. */
  function RemovedNext<V>(root: Tree<V>, p: seq<Dir>): Iter
    requires SubtreeAt(root, p).Node?
  {
    var n := SubtreeAt(root, p);
    var next := Increment(root, At(p));
    IncrementShape(root, p);
    if n.left.Nil? && n.right.Nil? then next
    else if n.left.Nil? then At(p + next.path[|p| + 1..])
    else if n.right.Nil? then next
    else At(p)
  }

  /** The node removal of `Remove(iterator)`: the node's slot receives `Spliced`, and the
      returned iterator designates the node that held the successor before the removal.
      In a search tree exactly the node's key leaves the tree, the in-order sequence and
      the map, the result is a search tree, and the iterator holds the least greater key
      or is end when the key was the greatest. None of this depends on the count. */
  function RemoveNode<V>(root: Tree<V>, p: seq<Dir>): (r: (Tree<V>, Iter))
    requires SubtreeAt(root, p).Node?
    ensures var next := Increment(root, At(p));
            && (r.1.End? <==> next.End?)
            && (r.1.At? ==>
                  && SubtreeAt(r.0, r.1.path).Node?
                  && SubtreeAt(r.0, r.1.path).key == SubtreeAt(root, next.path).key
                  && SubtreeAt(r.0, r.1.path).value == SubtreeAt(root, next.path).value)
    ensures Ordered(root) ==>
              var k := SubtreeAt(root, p).key;
              && k in Keys(root)
              && Ordered(r.0)
              && Keys(r.0) == Keys(root) - {k}
              && InOrder(r.0) == Without(InOrder(root), k)
              && ToMap(r.0) == ToMap(root) - {k}
              && (r.1.End? <==> forall x :: x in Keys(root) ==> x <= k)
              && (r.1.At? ==> SubtreeAt(r.0, r.1.path).Node? && IsLeastAbove(Keys(root), k, SubtreeAt(r.0, r.1.path).key))
  {
    var newRoot := ReplaceAt(root, p, Spliced(SubtreeAt(root, p)));
    RemovedNextIsSuccessor(root, p);
    SplicedSearchTree(root, p);
    (newRoot, RemovedNext(root, p))
  }

  /** The search-tree half of `RemoveNode`, stated on the spliced tree and `RemovedNext`. */
  lemma SplicedSearchTree<V>(root: Tree<V>, p: seq<Dir>)
    requires SubtreeAt(root, p).Node?
    ensures Ordered(root) ==>
              var k := SubtreeAt(root, p).key;
              var newRoot := ReplaceAt(root, p, Spliced(SubtreeAt(root, p)));
              var r := RemovedNext(root, p);
              && k in Keys(root)
              && Ordered(newRoot)
              && Keys(newRoot) == Keys(root) - {k}
              && InOrder(newRoot) == Without(InOrder(root), k)
              && ToMap(newRoot) == ToMap(root) - {k}
              && (r.End? <==> forall x :: x in Keys(root) ==> x <= k)
              && (r.At? ==> SubtreeAt(newRoot, r.path).Node? && IsLeastAbove(Keys(root), k, SubtreeAt(newRoot, r.path).key))
  {
    if Ordered(root) {
      var k := SubtreeAt(root, p).key;
      var newRoot := ReplaceAt(root, p, Spliced(SubtreeAt(root, p)));
      SubtreeOrdered(root, p);
      RemoveNodeInOrder(root, p);
      RemovedNextIsSuccessor(root, p);
      IncrementIsSuccessor(root, p);
      OrderedIffSorted(root);
      SortedWithout(InOrder(root), k);
      OrderedIffSorted(newRoot);
      KeysInOrder(root);
      KeysInOrder(newRoot);
      KeySetWithout(InOrder(root), k);
      MapOfWithout(InOrder(root), k);
    }
  }

  lemma SplicedInOrder<V>(root: Tree<V>, p: seq<Dir>)
    requires SubtreeAt(root, p).Node?
    ensures var n := SubtreeAt(root, p);
            InOrder(ReplaceAt(root, p, Spliced(n))) ==
              (Before(root, p) + InOrder(n.left)) + (InOrder(n.right) + After(root, p))
  {
    var n := SubtreeAt(root, p);
    NodePathIn(root, p);
    ReplaceAtInOrder(root, p, Spliced(n));
  }

  /** Splicing the node out deletes exactly its entry from the in-order sequence. */
  lemma RemoveNodeInOrder<V>(root: Tree<V>, p: seq<Dir>)
    requires Ordered(root) && SubtreeAt(root, p).Node?
    ensures var n := SubtreeAt(root, p);
            InOrder(ReplaceAt(root, p, Spliced(n))) == Without(InOrder(root), n.key)
  {
    var n := SubtreeAt(root, p);
    var e := Entry(n.key, n.value);
    var before, after := Before(root, p), After(root, p);
    var a := before + InOrder(n.left);
    var b := InOrder(n.right) + after;
    InOrderAroundNode(root, p);
    SplicedInOrder(root, p);
    assert StrictlySorted(a + [e] + b) by {
      OrderedIffSorted(root);
    }
    WithoutMiddle(a, e, b);
  }

  /** After the splice, the returned iterator designates the node that was the successor
      before the removal. */
  lemma RemovedNextIsSuccessor<V>(root: Tree<V>, p: seq<Dir>)
    requires SubtreeAt(root, p).Node?
    ensures var next := Increment(root, At(p));
            var newRoot := ReplaceAt(root, p, Spliced(SubtreeAt(root, p)));
            var r := RemovedNext(root, p);
            && (r.End? <==> next.End?)
            && (r.At? ==>
                  && SubtreeAt(newRoot, r.path).Node?
                  && SubtreeAt(newRoot, r.path).key == SubtreeAt(root, next.path).key
                  && SubtreeAt(newRoot, r.path).value == SubtreeAt(root, next.path).value)
  {
    var n := SubtreeAt(root, p);
    var next := Increment(root, At(p));
    NodePathIn(root, p);
    IncrementShape(root, p);
    if n.right.Nil? {
      if next.At? {
        ReplaceAtAncestor(root, p, Spliced(n), next.path);
      }
    } else if n.left.Nil? {
      var sp := Spine(n.right);
      SpineLeftmost(n.right);
      assert next.path[|p| + 1..] == sp;
      ReplaceAtThenSubtree(root, p, n.right, sp);
      SubtreeAtAppend(root, p, [Right]);
      SubtreeAtAppend(root, p + [Right], sp);
    } else {
      var sp := Spine(n.right);
      SpineLeftmost(n.right);
      ReplaceAtThenSubtree(root, p, Spliced(n), []);
      assert p + [] == p;
      SubtreeAtAppend(root, p, [Right]);
      SubtreeAtAppend(root, p + [Right], sp);
    }
  }

  /** `Remove(iterator)`. The iterator must designate a node (the assert of btree.h:380).
      The entry leaves the map and the in-order sequence, the count drops by one, and the
      returned iterator designates the least greater key, or is end when there is none. */
  function Remove<V>(tree: BinaryTree<V>, it: Iter): (r: (BinaryTree<V>, Iter))
    requires Valid(tree) && it.At? && SubtreeAt(tree.root, it.path).Node?
    ensures var k := SubtreeAt(tree.root, it.path).key;
            && Valid(r.0)
            && r.0.size == tree.size - 1
            && InOrder(r.0.root) == Without(InOrder(tree.root), k)
            && ToMap(r.0.root) == ToMap(tree.root) - {k}
            && (r.1.End? <==> forall x :: x in Keys(tree.root) ==> x <= k)
            && (r.1.At? ==>
                  && SubtreeAt(r.0.root, r.1.path).Node?
                  && IsLeastAbove(Keys(tree.root), k, SubtreeAt(r.0.root, r.1.path).key))
  {
    var removed := RemoveNode(tree.root, it.path);
    var k := SubtreeAt(tree.root, it.path).key;
    assert k in Keys(tree.root) && Keys(removed.0) == Keys(tree.root) - {k};
    assert |Keys(removed.0)| == tree.size - 1;
    (BinaryTree(removed.0, tree.size - 1), removed.1)
  }

  /** `Remove(key)` is `Remove(Find(key))`: the key must be present, or `Find` yields end and
      the assert of btree.h:380 fails. Afterwards `Find` yields end for that key. */
  function RemoveKey<V>(tree: BinaryTree<V>, k: int): (r: (BinaryTree<V>, Iter))
    requires Valid(tree) && k in Keys(tree.root)
    ensures Valid(r.0) && r.0.size == tree.size - 1
    ensures ToMap(r.0.root) == ToMap(tree.root) - {k}
    ensures Find(r.0, k).End?
  {
    ToMapKeys(tree.root);
    var r := Remove(tree, Find(tree, k));
    ToMapKeys(r.0.root);
    r
  }

  // ---------------------------------------------------------------------------
  // The element count as written
  // ---------------------------------------------------------------------------

  /** `Remove(iterator)` as btree.h:378-439 writes it: the node structure changes as in
      `Remove`, but `m_Size` is never decremented. */
  function RemoveAsWritten<V>(tree: BinaryTree<V>, it: Iter): (r: (BinaryTree<V>, Iter))
    requires Ordered(tree.root) && it.At? && SubtreeAt(tree.root, it.path).Node?
    ensures r.0.size == tree.size
    ensures var k := SubtreeAt(tree.root, it.path).key;
            && Ordered(r.0.root)
            && Keys(r.0.root) == Keys(tree.root) - {k}
            && ToMap(r.0.root) == ToMap(tree.root) - {k}
            && (r.1.End? <==> forall x :: x in Keys(tree.root) ==> x <= k)
            && (r.1.At? ==>
                  && SubtreeAt(r.0.root, r.1.path).Node?
                  && IsLeastAbove(Keys(tree.root), k, SubtreeAt(r.0.root, r.1.path).key))
  {
    var removed := RemoveNode(tree.root, it.path);
    (BinaryTree(removed.0, tree.size), removed.1)
  }

  /** As written, removing the only node of a tree leaves a null root that still reports
      one element, so the tree is not empty and the class invariant is broken. */
  lemma SizeNotDecremented(v: int)
    ensures var tree := Insert(New<int>(), 7, v).0;
            var after := RemoveAsWritten(tree, At([])).0;
            && after.root.Nil? && !IsEmpty(after) && GetElementCount(after) == 1 && !Valid(after)
  {
    var tree := Insert(New<int>(), 7, v).0;
    assert tree.root == Node(Nil, 7, v, Nil);
  }

  /** With the count decremented, removing the only node leaves an empty tree, and inserting
      into it gives what inserting into a new tree gives. */
  lemma RemoveLastLeavesEmpty<V>(tree: BinaryTree<V>, k: int, v: V)
    requires Valid(tree) && Keys(tree.root) == {k}
    ensures var after := RemoveKey(tree, k).0;
            && IsEmpty(after) && after.root.Nil?
            && Insert(after, k, v) == Insert(New(), k, v)
  {
    var after := RemoveKey(tree, k).0;
    CountMatchesNodes(after);
  }
}
