/**
 * Data model of the unbalanced binary search tree `CBinaryTree`
 * (container/associative/btree.h) and its abstraction to a sorted map.
 *
 * The tree is an algebraic datatype. A node's parent link is not stored: the
 * parent of the node reached by the path `p` from the root is the node reached
 * by `p` without its last step, so parent and child links agree by
 * construction. An iterator is `End` (the null node) or `At(p)`.
 *
 * The ordering key of a node is the key itself (the default `SDummyHash`), an `int`.
 */
module BTreeModel {

  /** The child slot one step of a descent takes. */
  datatype Dir = Left | Right

  /** A (sub)tree: the null pointer, or a node with its ordering key and payload. */
  datatype Tree<V> = Nil | Node(left: Tree<V>, key: int, value: V, right: Tree<V>)

  /** A key/value pair of the abstract sorted map. */
  datatype Entry<V> = Entry(key: int, value: V)

  /** An iterator: the null node, or the path from the root to the designated node. */
  datatype Iter = End | At(path: seq<Dir>)

  /** The container: the root pointer and the element count `m_Size`. */
  datatype BinaryTree<V> = BinaryTree(root: Tree<V>, size: nat)

  // ---------------------------------------------------------------------------
  // Abstraction: key set, search-tree order, in-order sequence, abstract map
  // ---------------------------------------------------------------------------

  function Keys<V>(t: Tree<V>): set<int>
  {
    match t
    case Nil => {}
    case Node(l, k, _, r) => Keys(l) + {k} + Keys(r)
  }

  /** The search-tree invariant: left keys below the node's key, right keys above. */
  ghost predicate Ordered<V>(t: Tree<V>)
  {
    match t
    case Nil => true
    case Node(l, k, _, r) =>
      && Ordered(l) && Ordered(r)
      && (forall x :: x in Keys(l) ==> x < k)
      && (forall x :: x in Keys(r) ==> k < x)
  }

  /** The class invariant: search-tree order and a count equal to the number of nodes. */
  ghost predicate Valid<V>(tree: BinaryTree<V>)
  {
    Ordered(tree.root) && tree.size == |Keys(tree.root)|
  }

  /** The entries in in-order (left subtree, node, right subtree). */
  function InOrder<V>(t: Tree<V>): seq<Entry<V>>
  {
    match t
    case Nil => []
    case Node(l, k, v, r) => InOrder(l) + [Entry(k, v)] + InOrder(r)
  }

  function KeySet<V>(es: seq<Entry<V>>): set<int>
  {
    set i | 0 <= i < |es| :: es[i].key
  }

  ghost predicate StrictlySorted<V>(es: seq<Entry<V>>)
  {
    forall i, j :: 0 <= i < j < |es| ==> es[i].key < es[j].key
  }

  /** The map a sequence of entries denotes; an earlier entry wins over a later one. */
  function MapOf<V>(es: seq<Entry<V>>): map<int, V>
  {
    if |es| == 0 then map[] else MapOf(es[1..])[es[0].key := es[0].value]
  }

  /** The abstract sorted key -> value map a tree represents. */
  function ToMap<V>(t: Tree<V>): map<int, V>
  {
    MapOf(InOrder(t))
  }

  /** `s` is the least key of `ks` above `k`: the key of the in-order successor. */
  ghost predicate IsLeastAbove(ks: set<int>, k: int, s: int)
  {
    s in ks && k < s && forall x :: x in ks && k < x ==> s <= x
  }

  /** The entries of `es` whose key is not `k`, in order. */
  function Without<V>(es: seq<Entry<V>>, k: int): seq<Entry<V>>
  {
    if |es| == 0 then []
    else if es[0].key == k then Without(es[1..], k)
    else [es[0]] + Without(es[1..], k)
  }

  // ---------------------------------------------------------------------------
  // Paths
  // ---------------------------------------------------------------------------

  /** The subtree a path leads to; `Nil` once the path has left the tree. */
  function SubtreeAt<V>(t: Tree<V>, p: seq<Dir>): Tree<V>
    decreases |p|
  {
    if |p| == 0 then t
    else match t
      case Nil => Nil
      case Node(l, _, _, r) => if p[0] == Left then SubtreeAt(l, p[1..]) else SubtreeAt(r, p[1..])
  }

  /** Every step of `p` leaves from a node: `p` reaches a node or a null child slot. */
  ghost predicate PathIn<V>(t: Tree<V>, p: seq<Dir>)
    decreases |p|
  {
    |p| == 0 || (t.Node? && PathIn(if p[0] == Left then t.left else t.right, p[1..]))
  }

  /** `t` with the subtree at `p` replaced by `s` (writing through the parent's child link). */
  function ReplaceAt<V>(t: Tree<V>, p: seq<Dir>, s: Tree<V>): Tree<V>
    decreases |p|
  {
    if |p| == 0 then s
    else match t
      case Nil => Nil
      case Node(l, k, v, r) =>
        if p[0] == Left then Node(ReplaceAt(l, p[1..], s), k, v, r)
        else Node(l, k, v, ReplaceAt(r, p[1..], s))
  }

  /** The in-order entries that precede the subtree at `p`. */
  function Before<V>(t: Tree<V>, p: seq<Dir>): seq<Entry<V>>
    decreases |p|
  {
    if |p| == 0 then []
    else match t
      case Nil => []
      case Node(l, k, v, r) =>
        if p[0] == Left then Before(l, p[1..]) else InOrder(l) + [Entry(k, v)] + Before(r, p[1..])
  }

  /** The in-order entries that follow the subtree at `p`. */
  function After<V>(t: Tree<V>, p: seq<Dir>): seq<Entry<V>>
    decreases |p|
  {
    if |p| == 0 then []
    else match t
      case Nil => []
      case Node(l, k, v, r) =>
        if p[0] == Left then After(l, p[1..]) + [Entry(k, v)] + InOrder(r) else After(r, p[1..])
  }

  /** The path of left steps from a node to the leftmost node of its subtree. */
  function Spine<V>(t: Tree<V>): seq<Dir>
  {
    if t.Nil? || t.left.Nil? then [] else [Left] + Spine(t.left)
  }

  // ---------------------------------------------------------------------------
  // Facts about entry sequences
  // ---------------------------------------------------------------------------

  lemma KeySetConcat<V>(a: seq<Entry<V>>, b: seq<Entry<V>>)
    ensures KeySet(a + b) == KeySet(a) + KeySet(b)
  {
    var ab := a + b;
    forall x | x in KeySet(ab) ensures x in KeySet(a) + KeySet(b) {
      var i :| 0 <= i < |ab| && ab[i].key == x;
      if i < |a| { assert a[i] == ab[i]; } else { assert b[i - |a|] == ab[i]; }
    }
    forall x | x in KeySet(a) + KeySet(b) ensures x in KeySet(ab) {
      if x in KeySet(a) {
        var i :| 0 <= i < |a| && a[i].key == x;
        assert ab[i] == a[i];
      } else {
        var i :| 0 <= i < |b| && b[i].key == x;
        assert ab[|a| + i] == b[i];
      }
    }
  }

  lemma KeySetSingleton<V>(e: Entry<V>)
    ensures KeySet([e]) == {e.key}
  {
    assert [e][0] == e;
  }

  lemma {:induction false} KeysInOrder<V>(t: Tree<V>)
    ensures Keys(t) == KeySet(InOrder(t))
  {
    match t
    case Nil =>
    case Node(l, k, v, r) =>
      KeysInOrder(l);
      KeysInOrder(r);
      KeySetConcat(InOrder(l) + [Entry(k, v)], InOrder(r));
      KeySetConcat(InOrder(l), [Entry(k, v)]);
      KeySetSingleton(Entry(k, v));
  }

  lemma SortedCons<V>(e: Entry<V>, rest: seq<Entry<V>>)
    ensures StrictlySorted([e] + rest) <==>
            StrictlySorted(rest) && forall x :: x in KeySet(rest) ==> e.key < x
  {
    var s := [e] + rest;
    assert s[0] == e;
    if StrictlySorted(s) {
      forall i, j | 0 <= i < j < |rest| ensures rest[i].key < rest[j].key {
        assert s[i + 1] == rest[i] && s[j + 1] == rest[j];
      }
      forall x | x in KeySet(rest) ensures e.key < x {
        var i :| 0 <= i < |rest| && rest[i].key == x;
        assert s[i + 1] == rest[i];
      }
    }
    if StrictlySorted(rest) && forall x :: x in KeySet(rest) ==> e.key < x {
      forall i, j | 0 <= i < j < |s| ensures s[i].key < s[j].key {
        assert s[j] == rest[j - 1];
        if i == 0 {
          assert rest[j - 1].key in KeySet(rest);
        } else {
          assert s[i] == rest[i - 1];
        }
      }
    }
  }

  lemma SortedConcat<V>(a: seq<Entry<V>>, e: Entry<V>, b: seq<Entry<V>>)
    ensures StrictlySorted(a + [e] + b) <==>
            && StrictlySorted(a) && StrictlySorted(b)
            && (forall x :: x in KeySet(a) ==> x < e.key)
            && (forall x :: x in KeySet(b) ==> e.key < x)
  {
    var s := a + [e] + b;
    assert s[|a|] == e;
    if StrictlySorted(s) {
      forall i, j | 0 <= i < j < |a| ensures a[i].key < a[j].key {
        assert s[i] == a[i] && s[j] == a[j];
      }
      forall i, j | 0 <= i < j < |b| ensures b[i].key < b[j].key {
        assert s[|a| + 1 + i] == b[i] && s[|a| + 1 + j] == b[j];
      }
      forall x | x in KeySet(a) ensures x < e.key {
        var i :| 0 <= i < |a| && a[i].key == x;
        assert s[i] == a[i];
      }
      forall x | x in KeySet(b) ensures e.key < x {
        var i :| 0 <= i < |b| && b[i].key == x;
        assert s[|a| + 1 + i] == b[i];
      }
    }
    if && StrictlySorted(a) && StrictlySorted(b)
       && (forall x :: x in KeySet(a) ==> x < e.key)
       && (forall x :: x in KeySet(b) ==> e.key < x)
    {
      forall i, j | 0 <= i < j < |s| ensures s[i].key < s[j].key {
        if j < |a| {
          assert s[i] == a[i] && s[j] == a[j];
        } else if i < |a| {
          assert s[i] == a[i] && a[i].key in KeySet(a);
          if j > |a| { assert s[j] == b[j - |a| - 1] && b[j - |a| - 1].key in KeySet(b); }
        } else if i == |a| {
          assert s[j] == b[j - |a| - 1] && b[j - |a| - 1].key in KeySet(b);
        } else {
          assert s[i] == b[i - |a| - 1] && s[j] == b[j - |a| - 1];
        }
      }
    }
  }

  /** The search-tree invariant says exactly that the in-order keys strictly increase. */
  lemma {:induction false} OrderedIffSorted<V>(t: Tree<V>)
    ensures Ordered(t) <==> StrictlySorted(InOrder(t))
  {
    match t
    case Nil =>
    case Node(l, k, v, r) =>
      OrderedIffSorted(l);
      OrderedIffSorted(r);
      KeysInOrder(l);
      KeysInOrder(r);
      SortedConcat(InOrder(l), Entry(k, v), InOrder(r));
  }

  lemma {:induction false} KeySetWithout<V>(es: seq<Entry<V>>, k: int)
    ensures KeySet(Without(es, k)) == KeySet(es) - {k}
  {
    if |es| > 0 {
      KeySetWithout(es[1..], k);
      assert es == [es[0]] + es[1..];
      KeySetConcat([es[0]], es[1..]);
      KeySetSingleton(es[0]);
      if es[0].key != k {
        KeySetConcat([es[0]], Without(es[1..], k));
      }
    }
  }

  lemma {:induction false} SortedWithout<V>(es: seq<Entry<V>>, k: int)
    requires StrictlySorted(es)
    ensures StrictlySorted(Without(es, k))
  {
    if |es| > 0 {
      assert es == [es[0]] + es[1..];
      SortedCons(es[0], es[1..]);
      SortedWithout(es[1..], k);
      if es[0].key != k {
        KeySetWithout(es[1..], k);
        SortedCons(es[0], Without(es[1..], k));
      }
    }
  }

  lemma {:induction false} WithoutConcat<V>(a: seq<Entry<V>>, b: seq<Entry<V>>, k: int)
    ensures Without(a + b, k) == Without(a, k) + Without(b, k)
  {
    if |a| > 0 {
      assert (a + b)[1..] == a[1..] + b;
      WithoutConcat(a[1..], b, k);
    } else {
      assert a + b == b;
    }
  }

  lemma {:induction false} WithoutAbsent<V>(es: seq<Entry<V>>, k: int)
    requires k !in KeySet(es)
    ensures Without(es, k) == es
  {
    if |es| > 0 {
      assert es == [es[0]] + es[1..];
      KeySetConcat([es[0]], es[1..]);
      KeySetSingleton(es[0]);
      WithoutAbsent(es[1..], k);
    }
  }

  /** In strictly sorted entries, removing a key removes exactly its one entry. */
  lemma WithoutMiddle<V>(a: seq<Entry<V>>, e: Entry<V>, b: seq<Entry<V>>)
    requires StrictlySorted(a + [e] + b)
    ensures Without(a + [e] + b, e.key) == a + b
  {
    SortedConcat(a, e, b);
    WithoutConcat(a + [e], b, e.key);
    WithoutConcat(a, [e], e.key);
    WithoutAbsent(a, e.key);
    WithoutAbsent(b, e.key);
    assert Without([e], e.key) == [];
  }

  lemma {:induction false} MapOfConcat<V>(a: seq<Entry<V>>, b: seq<Entry<V>>)
    ensures MapOf(a + b) == MapOf(b) + MapOf(a)
  {
    if |a| > 0 {
      assert (a + b)[1..] == a[1..] + b;
      MapOfConcat(a[1..], b);
    } else {
      assert a + b == b;
    }
  }

  lemma {:induction false} MapOfKeys<V>(es: seq<Entry<V>>)
    ensures MapOf(es).Keys == KeySet(es)
  {
    if |es| > 0 {
      MapOfKeys(es[1..]);
      assert es == [es[0]] + es[1..];
      KeySetConcat([es[0]], es[1..]);
      KeySetSingleton(es[0]);
    }
  }

  lemma {:induction false} MapOfWithout<V>(es: seq<Entry<V>>, k: int)
    ensures MapOf(Without(es, k)) == MapOf(es) - {k}
  {
    if |es| > 0 {
      MapOfWithout(es[1..], k);
    }
  }

  /** With a key absent from the entries before it, an entry is what the map returns. */
  lemma MapOfAt<V>(a: seq<Entry<V>>, e: Entry<V>, b: seq<Entry<V>>)
    requires e.key !in KeySet(a)
    ensures e.key in MapOf(a + [e] + b) && MapOf(a + [e] + b)[e.key] == e.value
  {
    assert a + [e] + b == a + ([e] + b);
    MapOfConcat(a, [e] + b);
    MapOfKeys(a);
  }

  lemma {:induction false} SortedKeyCount<V>(es: seq<Entry<V>>)
    requires StrictlySorted(es)
    ensures |KeySet(es)| == |es|
  {
    if |es| > 0 {
      assert es == [es[0]] + es[1..];
      SortedCons(es[0], es[1..]);
      SortedKeyCount(es[1..]);
      KeySetConcat([es[0]], es[1..]);
      KeySetSingleton(es[0]);
    }
  }

  lemma ToMapKeys<V>(t: Tree<V>)
    ensures ToMap(t).Keys == Keys(t)
  {
    MapOfKeys(InOrder(t));
    KeysInOrder(t);
  }

  // ---------------------------------------------------------------------------
  // Facts about paths
  // ---------------------------------------------------------------------------

  lemma {:induction false} SubtreeAtAppend<V>(t: Tree<V>, p: seq<Dir>, q: seq<Dir>)
    ensures SubtreeAt(t, p + q) == SubtreeAt(SubtreeAt(t, p), q)
    decreases |p|
  {
    if |p| == 0 {
      assert p + q == q;
    } else if t.Node? {
      assert (p + q)[1..] == p[1..] + q;
      SubtreeAtAppend(if p[0] == Left then t.left else t.right, p[1..], q);
    } else if |q| > 0 {
      assert SubtreeAt(t, p + q) == Nil;
    }
  }

  /** A path that reaches a node stays inside the tree. */
  lemma {:induction false} NodePathIn<V>(t: Tree<V>, p: seq<Dir>)
    requires SubtreeAt(t, p).Node?
    ensures PathIn(t, p)
    decreases |p|
  {
    if |p| > 0 {
      NodePathIn(if p[0] == Left then t.left else t.right, p[1..]);
    }
  }

  /** One more step from a node stays inside the tree (it may reach a null slot). */
  lemma {:induction false} PathInExtend<V>(t: Tree<V>, p: seq<Dir>, d: Dir)
    requires SubtreeAt(t, p).Node?
    ensures PathIn(t, p + [d])
    decreases |p|
  {
    if |p| == 0 {
      assert p + [d] == [d];
    } else {
      assert (p + [d])[1..] == p[1..] + [d];
      PathInExtend(if p[0] == Left then t.left else t.right, p[1..], d);
    }
  }

  lemma {:induction false} SubtreeOrdered<V>(t: Tree<V>, p: seq<Dir>)
    requires Ordered(t)
    ensures Ordered(SubtreeAt(t, p))
    ensures Keys(SubtreeAt(t, p)) <= Keys(t)
    decreases |p|
  {
    if |p| > 0 && t.Node? {
      SubtreeOrdered(if p[0] == Left then t.left else t.right, p[1..]);
    }
  }

  lemma {:induction false} ReplaceAtThenSubtree<V>(t: Tree<V>, p: seq<Dir>, s: Tree<V>, q: seq<Dir>)
    requires PathIn(t, p)
    ensures SubtreeAt(ReplaceAt(t, p, s), p + q) == SubtreeAt(s, q)
    decreases |p|
  {
    if |p| == 0 {
      assert p + q == q;
    } else {
      assert (p + q)[1..] == p[1..] + q;
      ReplaceAtThenSubtree(if p[0] == Left then t.left else t.right, p[1..], s, q);
    }
  }

  /** Replacing the subtree at `p` keeps every node strictly above it, key and value. */
  lemma {:induction false} ReplaceAtAncestor<V>(t: Tree<V>, p: seq<Dir>, s: Tree<V>, q: seq<Dir>)
    requires PathIn(t, p) && |q| < |p| && q == p[..|q|]
    ensures SubtreeAt(t, q).Node? && SubtreeAt(ReplaceAt(t, p, s), q).Node?
    ensures SubtreeAt(ReplaceAt(t, p, s), q).key == SubtreeAt(t, q).key
    ensures SubtreeAt(ReplaceAt(t, p, s), q).value == SubtreeAt(t, q).value
    decreases |p|
  {
    if |q| > 0 {
      assert q[1..] == p[1..][..|q| - 1];
      ReplaceAtAncestor(if p[0] == Left then t.left else t.right, p[1..], s, q[1..]);
    }
  }

  lemma {:induction false} ReplaceAtInOrder<V>(t: Tree<V>, p: seq<Dir>, s: Tree<V>)
    requires PathIn(t, p)
    ensures InOrder(ReplaceAt(t, p, s)) == Before(t, p) + InOrder(s) + After(t, p)
    decreases |p|
  {
    if |p| > 0 {
      if p[0] == Left {
        ReplaceAtInOrder(t.left, p[1..], s);
        ReplaceAtInOrderLeft(t, p, s);
      } else {
        ReplaceAtInOrder(t.right, p[1..], s);
        ReplaceAtInOrderRight(t, p, s);
      }
    }
  }

  /** One step of `ReplaceAtInOrder` into a left child. */
  lemma ReplaceAtInOrderLeft<V>(t: Tree<V>, p: seq<Dir>, s: Tree<V>)
    requires t.Node? && |p| > 0 && p[0] == Left
    requires InOrder(ReplaceAt(t.left, p[1..], s)) ==
             Before(t.left, p[1..]) + InOrder(s) + After(t.left, p[1..])
    ensures InOrder(ReplaceAt(t, p, s)) == Before(t, p) + InOrder(s) + After(t, p)
  {
    var Node(l, k, v, r) := t;
    var e := Entry(k, v);
    var b, a := Before(l, p[1..]), After(l, p[1..]);
    assert ReplaceAt(t, p, s) == Node(ReplaceAt(l, p[1..], s), k, v, r);
    assert Before(t, p) == b;
    assert After(t, p) == a + [e] + InOrder(r);
    assert (b + InOrder(s) + a) + [e] + InOrder(r) == b + InOrder(s) + (a + [e] + InOrder(r));
  }

  /** One step of `ReplaceAtInOrder` into a right child. */
  lemma ReplaceAtInOrderRight<V>(t: Tree<V>, p: seq<Dir>, s: Tree<V>)
    requires t.Node? && |p| > 0 && p[0] == Right
    requires InOrder(ReplaceAt(t.right, p[1..], s)) ==
             Before(t.right, p[1..]) + InOrder(s) + After(t.right, p[1..])
    ensures InOrder(ReplaceAt(t, p, s)) == Before(t, p) + InOrder(s) + After(t, p)
  {
    var Node(l, k, v, r) := t;
    var e := Entry(k, v);
    var b, a := Before(r, p[1..]), After(r, p[1..]);
    assert ReplaceAt(t, p, s) == Node(l, k, v, ReplaceAt(r, p[1..], s));
    assert Before(t, p) == InOrder(l) + [e] + b;
    assert After(t, p) == a;
    assert InOrder(l) + [e] + (b + InOrder(s) + a) == (InOrder(l) + [e] + b) + InOrder(s) + a;
  }

  lemma {:induction false} ReplaceAtSame<V>(t: Tree<V>, p: seq<Dir>)
    ensures ReplaceAt(t, p, SubtreeAt(t, p)) == t
    decreases |p|
  {
    if |p| > 0 && t.Node? {
      ReplaceAtSame(if p[0] == Left then t.left else t.right, p[1..]);
    }
  }

  lemma InOrderAround<V>(t: Tree<V>, p: seq<Dir>)
    requires PathIn(t, p)
    ensures InOrder(t) == Before(t, p) + InOrder(SubtreeAt(t, p)) + After(t, p)
  {
    ReplaceAtSame(t, p);
    ReplaceAtInOrder(t, p, SubtreeAt(t, p));
  }

  /** The in-order sequence around the node at `p`: what precedes it, its entry, what follows. */
  lemma InOrderAroundNode<V>(t: Tree<V>, p: seq<Dir>)
    requires SubtreeAt(t, p).Node?
    ensures var n := SubtreeAt(t, p);
            InOrder(t) == (Before(t, p) + InOrder(n.left)) + [Entry(n.key, n.value)] + (InOrder(n.right) + After(t, p))
  {
    var n := SubtreeAt(t, p);
    NodePathIn(t, p);
    InOrderAround(t, p);
    var Node(l, k, v, r) := n;
    assert InOrder(n) == InOrder(l) + [Entry(k, v)] + InOrder(r);
  }

  /** The spine of a non-empty subtree ends at its leftmost node, which holds the least key. */
  lemma {:induction false} SpineLeftmost<V>(t: Tree<V>)
    requires t.Node?
    ensures PathIn(t, Spine(t))
    ensures SubtreeAt(t, Spine(t)).Node? && SubtreeAt(t, Spine(t)).left.Nil?
    ensures Before(t, Spine(t)) == []
    ensures SubtreeAt(t, Spine(t)).key in Keys(t)
    ensures Ordered(t) ==> forall x :: x in Keys(t) ==> SubtreeAt(t, Spine(t)).key <= x
  {
    if t.left.Node? {
      SpineLeftmost(t.left);
    }
  }
}
