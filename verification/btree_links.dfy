/**
 * The link surgery of `CBinaryTree::Remove(iterator)` for a node with two children
 * (container/associative/btree.h:414-436), on the tree as the source stores it: a table
 * of nodes, each with a parent, a left and a right link.
 *
 * The algebraic model of module BTree keeps parent links implicit, so it cannot show
 * what the source does to them. Here they are explicit. `RemoveTwoAsWritten` performs
 * the source's assignments in order and leaves the removed node's left child (and its
 * old right child, when that is not the successor) pointing at the freed node. When the
 * successor is the right child, btree.h:420 also gives the successor's right child the
 * freed node as its parent. `RemoveTwo` re-points those parent links to the successor
 * and keeps every parent and child link in agreement.
 */
module BTreeLinks {

  datatype Link = Null | To(id: nat)

  datatype LNode = LNode(parent: Link, left: Link, right: Link, key: int)

  /** The root link and the node table. */
  datatype Links = Links(root: Link, nodes: map<nat, LNode>)

  // ---------------------------------------------------------------------------
  // Well-linked trees
  // ---------------------------------------------------------------------------

  /** A child link of `n` leads to a node whose parent link is `n`. */
  predicate ChildBack(t: Links, n: nat, c: Link)
  {
    c.To? ==> c.id in t.nodes && t.nodes[c.id].parent == To(n)
  }

  /** The parent link of `n` leads to a node that has `n` as a child, or is null and the
      root link designates `n`. */
  predicate ParentBack(t: Links, n: nat)
    requires n in t.nodes
  {
    var par := t.nodes[n].parent;
    && (par.Null? ==> t.root == To(n))
    && (par.To? ==> par.id in t.nodes && (t.nodes[par.id].left == To(n) || t.nodes[par.id].right == To(n)))
  }

  /** The links of node `n` agree with the links of its neighbours. */
  predicate LinksAgreeAt(t: Links, n: nat)
    requires n in t.nodes
  {
    var node := t.nodes[n];
    && ChildBack(t, n, node.left)
    && ChildBack(t, n, node.right)
    && ParentBack(t, n)
    && !(node.left.To? && node.left == node.right)
  }

  /** Every parent link and every child link is matched by the link back. */
  predicate Consistent(t: Links)
  {
    && (t.root.To? ==> t.root.id in t.nodes && t.nodes[t.root.id].parent == Null)
    && forall n {:trigger LinksAgreeAt(t, n)} :: n in t.nodes ==> LinksAgreeAt(t, n)
  }

  /** A rank that every child link decreases: the links contain no cycle. */
  predicate Ranked(t: Links, rank: map<nat, nat>)
  {
    forall n :: n in t.nodes ==>
      && n in rank
      && (t.nodes[n].left.To? ==> t.nodes[n].left.id in rank && rank[t.nodes[n].left.id] < rank[n])
      && (t.nodes[n].right.To? ==> t.nodes[n].right.id in rank && rank[t.nodes[n].right.id] < rank[n])
  }

  // ---------------------------------------------------------------------------
  // The successor of a node with a right child
  // ---------------------------------------------------------------------------

  /** The left links followed from `n` down to the leftmost node below it: the walk of
      `FindLowestOnChild`. Each step's parent link leads back up the spine. */
  function LeftSpine(t: Links, rank: map<nat, nat>, n: nat): (sp: seq<nat>)
    requires Consistent(t) && Ranked(t, rank) && n in t.nodes
    ensures |sp| >= 1 && sp[0] == n
    ensures forall i :: 0 <= i < |sp| ==> sp[i] in t.nodes && sp[i] in rank && rank[sp[i]] <= rank[n]
    ensures forall i :: 0 < i < |sp| ==>
              t.nodes[sp[i - 1]].left == To(sp[i]) && t.nodes[sp[i]].parent == To(sp[i - 1])
    ensures t.nodes[sp[|sp| - 1]].left.Null?
    decreases rank[n]
  {
    var l := t.nodes[n].left;
    if l.Null? then [n]
    else
      assert LinksAgreeAt(t, n);
      [n] + LeftSpine(t, rank, l.id)
  }

  // ---------------------------------------------------------------------------
  // Link assignments
  // ---------------------------------------------------------------------------

  /** Every node of `r` was a node of `t` and holds the same key: links change, nodes
      do not move their keys. */
  predicate KeysKept(t: Links, r: Links)
  {
    forall m :: m in r.nodes ==> m in t.nodes && r.nodes[m].key == t.nodes[m].key
  }

  function SetParent(t: Links, n: nat, par: Link): (r: Links)
    requires n in t.nodes
    ensures r.nodes.Keys == t.nodes.Keys && r.root == t.root
  {
    t.(nodes := t.nodes[n := t.nodes[n].(parent := par)])
  }

  function SetLeft(t: Links, n: nat, c: Link): (r: Links)
    requires n in t.nodes
    ensures r.nodes.Keys == t.nodes.Keys && r.root == t.root
  {
    t.(nodes := t.nodes[n := t.nodes[n].(left := c)])
  }

  function SetRight(t: Links, n: nat, c: Link): (r: Links)
    requires n in t.nodes
    ensures r.nodes.Keys == t.nodes.Keys && r.root == t.root
  {
    t.(nodes := t.nodes[n := t.nodes[n].(right := c)])
  }

  /** `*ppParentLink = target`, where `ppParentLink` is the root link when `par` is null,
      else whichever child link of `par` designates `child` (btree.h:387-398). */
  function Relink(t: Links, par: Link, child: nat, target: Link): (r: Links)
    requires par.Null? || par.id in t.nodes
    ensures r.nodes.Keys == t.nodes.Keys
    ensures par.Null? ==> r.root == target && r.nodes == t.nodes
    ensures par.To? ==> r.root == t.root
    ensures forall m :: m in t.nodes && par != To(m) ==> r.nodes[m] == t.nodes[m]
    ensures par.To? ==>
              r.nodes[par.id] ==
                if t.nodes[par.id].left == To(child) then t.nodes[par.id].(left := target)
                else t.nodes[par.id].(right := target)
  {
    if par.Null? then t.(root := target)
    else if t.nodes[par.id].left == To(child) then SetLeft(t, par.id, target)
    else SetRight(t, par.id, target)
  }

  // ---------------------------------------------------------------------------
  // Removal of a node with two children
  // ---------------------------------------------------------------------------

  /** The removal applies to a node with two children of a well-linked tree. */
  predicate TwoChildren(t: Links, rank: map<nat, nat>, p: nat)
  {
    && Consistent(t) && Ranked(t, rank)
    && p in t.nodes && t.nodes[p].left.To? && t.nodes[p].right.To?
  }

  /** The successor of `p`: the leftmost node of its right subtree. */
  function Successor(t: Links, rank: map<nat, nat>, p: nat): (s: nat)
    requires TwoChildren(t, rank, p)
    ensures s in t.nodes && t.nodes[s].left.Null?
    ensures exists sp: seq<nat> ::
              && |sp| >= 1 && sp[0] == t.nodes[p].right.id && sp[|sp| - 1] == s
              && (forall i :: 0 <= i < |sp| ==> sp[i] in t.nodes)
              && (forall i :: 0 < i < |sp| ==> t.nodes[sp[i - 1]].left == To(sp[i]))
  {
    assert LinksAgreeAt(t, p);
    var sp := LeftSpine(t, rank, t.nodes[p].right.id);
    sp[|sp| - 1]
  }

  /** Where the nodes the removal touches sit, and which of them are distinct, when `s`
      is the successor of `p`: the left child L and right child R of `p`, the parent sp
      and right child c of `s`, and the parent pp of `p`. */
  predicate Placed(t: Links, p: nat, s: nat)
  {
    && p in t.nodes && s in t.nodes
    && t.nodes[p].left.To? && t.nodes[p].right.To? && t.nodes[s].parent.To?
    && var P, S := t.nodes[p], t.nodes[s];
       var L, R, c, sp, pp := P.left.id, P.right.id, S.right, S.parent.id, P.parent;
       && S.left.Null?
       && L in t.nodes && R in t.nodes && sp in t.nodes
       && t.nodes[L].parent == To(p) && t.nodes[R].parent == To(p)
       && L != R && s != p && s != L && sp != s
       && (s == R <==> sp == p)
       && (s != R ==> t.nodes[sp].left == To(s) && sp != L)
       && (c.To? ==> c.id in t.nodes && t.nodes[c.id].parent == To(s) && c.id !in {p, s, L, R, sp})
       && (pp.Null? ==> t.root == To(p))
       && (pp.To? ==>
             && pp.id in t.nodes && pp.id !in {p, s, L, R, sp} && c != pp
             && (t.nodes[pp.id].left == To(p) || t.nodes[pp.id].right == To(p)))
  }

  /** The assignments of btree.h:416-433, in order, before the node is freed. Each reads
      the links as the previous ones left them. */
  function SurgeryAt(t: Links, p: nat, s: nat): (r: Links)
    requires Placed(t, p, s)
    ensures r.nodes.Keys == t.nodes.Keys
  {
    // *ppParentLink = pNextNode
    var t1 := Relink(t, t.nodes[p].parent, p, To(s));
    assert t1.nodes[s] == t.nodes[s];
    // pNextNode->m_pRightChild->m_pParent = pNextNode->m_pParent
    var t2 := ReparentRight(t1, s);
    // the next node's slot on its parent receives its right child
    var t3 := UnlinkFromParent(t2, s);
    // the next node takes over the removed node's parent and children
    TakeOver(t3, p, s)
  }

  /** `if (pNextNode->m_pRightChild != 0) pNextNode->m_pRightChild->m_pParent =
      pNextNode->m_pParent`. */
  function ReparentRight(t: Links, s: nat): (r: Links)
    requires s in t.nodes
    requires t.nodes[s].right.To? ==> t.nodes[s].right.id in t.nodes && t.nodes[s].right.id != s
    ensures r.nodes.Keys == t.nodes.Keys && r.root == t.root && r.nodes[s] == t.nodes[s]
    ensures forall m :: m in t.nodes && t.nodes[s].right != To(m) ==> r.nodes[m] == t.nodes[m]
    ensures t.nodes[s].right.To? ==>
              r.nodes[t.nodes[s].right.id] == t.nodes[t.nodes[s].right.id].(parent := t.nodes[s].parent)
  {
    var c := t.nodes[s].right;
    if c.To? then SetParent(t, c.id, t.nodes[s].parent) else t
  }

  /** The child link of the next node's parent that designates it receives the next
      node's right child (btree.h:424-431). */
  function UnlinkFromParent(t: Links, s: nat): (r: Links)
    requires s in t.nodes && t.nodes[s].parent.To? && t.nodes[s].parent.id in t.nodes
    ensures r.nodes.Keys == t.nodes.Keys && r.root == t.root
    ensures forall m :: m in t.nodes && m != t.nodes[s].parent.id ==> r.nodes[m] == t.nodes[m]
    ensures var sp := t.nodes[s].parent.id;
            r.nodes[sp] == if t.nodes[sp].left == To(s) then t.nodes[sp].(left := t.nodes[s].right)
                           else t.nodes[sp].(right := t.nodes[s].right)
  {
    var sp := t.nodes[s].parent.id;
    if t.nodes[sp].left == To(s) then SetLeft(t, sp, t.nodes[s].right)
    else SetRight(t, sp, t.nodes[s].right)
  }

  /** The next node takes the removed node's parent, left and right links (btree.h:432-434). */
  function TakeOver(t: Links, p: nat, s: nat): (r: Links)
    requires p in t.nodes && s in t.nodes
    ensures r.nodes.Keys == t.nodes.Keys && r.root == t.root
    ensures forall m :: m in t.nodes && m != s ==> r.nodes[m] == t.nodes[m]
    ensures r.nodes[s] == t.nodes[s].(parent := t.nodes[p].parent, left := t.nodes[p].left, right := t.nodes[p].right)
  {
    var n := t.nodes[p];
    t.(nodes := t.nodes[s := t.nodes[s].(parent := n.parent, left := n.left, right := n.right)])
  }

  /** `delete pNode`. */
  function Free(t: Links, p: nat): (r: Links)
    ensures r.root == t.root && r.nodes.Keys == t.nodes.Keys - {p}
    ensures forall m :: m in r.nodes ==> r.nodes[m] == t.nodes[m]
  {
    t.(nodes := t.nodes - {p})
  }

  /** `l` and `rc`, the successor's new children, get `s` as their parent. */
  function Repoint(t: Links, s: nat, l: nat, rc: Link): (r: Links)
    requires l in t.nodes && (rc.To? ==> rc.id in t.nodes)
    ensures r.nodes.Keys == t.nodes.Keys && r.root == t.root
    ensures forall m :: m in t.nodes && m != l && rc != To(m) ==> r.nodes[m] == t.nodes[m]
    ensures rc != To(l) ==> r.nodes[l] == t.nodes[l].(parent := To(s))
    ensures rc.To? ==> r.nodes[rc.id] == t.nodes[rc.id].(parent := To(s))
  {
    var t1 := SetParent(t, l, To(s));
    if rc.To? then SetParent(t1, rc.id, To(s)) else t1
  }

  /** The surgery, then the parent links of the successor's new children set to it, then
      the node freed. */
  function RepairedAt(t: Links, p: nat, s: nat): (r: Links)
    requires Placed(t, p, s)
    ensures r.nodes.Keys == t.nodes.Keys - {p}
  {
    var P, S := t.nodes[p], t.nodes[s];
    var u := SurgeryAt(t, p, s);
    Free(Repoint(u, s, P.left.id, if s == P.right.id then S.right else P.right), p)
  }

  /** The two-children branch as btree.h:414-436 writes it. */
  function RemoveTwoAsWritten(t: Links, rank: map<nat, nat>, p: nat): (r: Links)
    requires TwoChildren(t, rank, p)
    ensures p !in r.nodes && r.nodes.Keys == t.nodes.Keys - {p} && KeysKept(t, r)
  {
    var s := Successor(t, rank, p);
    SurgeryFacts(t, rank, p);
    SurgeryKeysKept(t, p, s);
    Free(SurgeryAt(t, p, s), p)
  }

  /** The two-children branch with the missing assignments: the successor's new children
      get the successor as their parent. Every link then agrees with its link back. */
  function RemoveTwo(t: Links, rank: map<nat, nat>, p: nat): (r: Links)
    requires TwoChildren(t, rank, p)
    ensures p !in r.nodes && r.nodes.Keys == t.nodes.Keys - {p} && KeysKept(t, r)
    ensures Consistent(r)
  {
    var s := Successor(t, rank, p);
    SurgeryFacts(t, rank, p);
    RepairedKeysKept(t, p, s);
    RemoveTwoConsistent(t, p, s);
    RepairedAt(t, p, s)
  }

  // ---------------------------------------------------------------------------
  // Proofs
  // ---------------------------------------------------------------------------

  lemma SurgeryFacts(t: Links, rank: map<nat, nat>, p: nat)
    requires TwoChildren(t, rank, p)
    ensures Placed(t, p, Successor(t, rank, p))
  {
    var P := t.nodes[p];
    assert LinksAgreeAt(t, p);
    var L, R := P.left.id, P.right.id;
    var sp := LeftSpine(t, rank, R);
    var s := sp[|sp| - 1];
    var S := t.nodes[s];
    assert rank[R] < rank[p];
    assert rank[s] < rank[p];
    if |sp| == 1 {
      assert s == R;
    } else {
      var q := sp[|sp| - 2];
      assert S.parent == To(q);
      assert rank[q] < rank[p];
      assert q != L by {
        if |sp| == 2 {
          assert q == R;
        } else {
          assert t.nodes[q].parent == To(sp[|sp| - 3]);
          assert rank[sp[|sp| - 3]] < rank[p];
        }
      }
      assert s != R by {
        assert t.nodes[s].parent == To(q) && rank[q] < rank[p];
      }
    }
    assert LinksAgreeAt(t, s);
    if S.right.To? {
      assert rank[S.right.id] < rank[s];
      assert LinksAgreeAt(t, S.right.id);
    }
    if P.parent.To? {
      var pp := P.parent.id;
      assert LinksAgreeAt(t, pp);
      assert rank[p] < rank[pp];
    }
  }

  /** The links the surgery leaves, node by node, before the parent links are fixed. */
  lemma SurgeryShape(t: Links, p: nat, s: nat)
    requires Placed(t, p, s)
    ensures var P, S := t.nodes[p], t.nodes[s];
            var u := SurgeryAt(t, p, s);
            var L, R, c, sp, pp := P.left.id, P.right.id, S.right, S.parent.id, P.parent;
            && u.nodes[s] == S.(parent := pp, left := P.left, right := if s == R then c else P.right)
            && u.nodes[L] == t.nodes[L]
            && (s != R ==> u.nodes[R] == if sp == R then t.nodes[R].(left := c) else t.nodes[R])
            && (s != R && sp != R ==> u.nodes[sp] == t.nodes[sp].(left := c))
            && (c.To? ==> u.nodes[c.id] == t.nodes[c.id].(parent := S.parent))
            && u.root == (if pp.Null? then To(s) else t.root)
            && (pp.To? ==>
                  u.nodes[pp.id] ==
                    if t.nodes[pp.id].left == To(p) then t.nodes[pp.id].(left := To(s))
                    else t.nodes[pp.id].(right := To(s)))
            && (forall m ::
                  m in t.nodes && m != p && m != s && m != L && m != R && m != sp && c != To(m) && pp != To(m)
                  ==> u.nodes[m] == t.nodes[m])
  {
    var P, S := t.nodes[p], t.nodes[s];
    var c := S.right;
    var t1 := Relink(t, P.parent, p, To(s));
    var t2 := ReparentRight(t1, s);
    var t3 := UnlinkFromParent(t2, s);
    assert t1.nodes[s] == S && t2.nodes[s] == S;
    assert t2.nodes[S.parent.id] == t.nodes[S.parent.id];
    assert s == P.right.id ==> t3.nodes[p] == P.(right := c);
    assert s != P.right.id ==> t3.nodes[p] == P;
    assert SurgeryAt(t, p, s) == TakeOver(t3, p, s);
  }

  lemma SurgeryKeysKept(t: Links, p: nat, s: nat)
    requires Placed(t, p, s)
    ensures KeysKept(t, SurgeryAt(t, p, s))
  {
    var u := SurgeryAt(t, p, s);
    SurgeryShape(t, p, s);
    forall m | m in u.nodes
      ensures u.nodes[m].key == t.nodes[m].key
    {
      assert m in t.nodes;
    }
  }

  lemma RepairedKeysKept(t: Links, p: nat, s: nat)
    requires Placed(t, p, s)
    ensures KeysKept(t, RepairedAt(t, p, s))
  {
    RepairedShape(t, p, s);
    FinalKeysKept(t, RepairedAt(t, p, s), p, s);
  }

  /** Links laid out as `Final` says hold every key where it was. */
  lemma FinalKeysKept(t: Links, f: Links, p: nat, s: nat)
    requires Placed(t, p, s) && Final(t, f, p, s)
    ensures KeysKept(t, f)
  {
    var P, S := t.nodes[p], t.nodes[s];
    var L, R, c, sp, pp := P.left.id, P.right.id, S.right, S.parent.id, P.parent;
    forall m | m in f.nodes
      ensures m in t.nodes && f.nodes[m].key == t.nodes[m].key
    {
      if m == s || m == L || (s != R && m == R) || (s != R && sp != R && m == sp) {
      } else if c == To(m) || pp == To(m) {
      } else {
        assert m != p && (s == R ==> m != sp);
      }
    }
  }

  /** The links of `f`, node by node, as the repaired removal leaves them. */
  predicate Final(t: Links, f: Links, p: nat, s: nat)
    requires Placed(t, p, s)
  {
    var P, S := t.nodes[p], t.nodes[s];
    var L, R, c, sp, pp := P.left.id, P.right.id, S.right, S.parent.id, P.parent;
    && f.nodes.Keys == t.nodes.Keys - {p}
    && f.nodes[s] == S.(parent := pp, left := P.left, right := if s == R then c else P.right)
    && f.nodes[L] == t.nodes[L].(parent := To(s))
    && (s != R ==> f.nodes[R] == (if sp == R then t.nodes[R].(left := c) else t.nodes[R]).(parent := To(s)))
    && (s != R && sp != R ==> f.nodes[sp] == t.nodes[sp].(left := c))
    && (c.To? ==> f.nodes[c.id] == t.nodes[c.id].(parent := if s == R then To(s) else To(sp)))
    && f.root == (if pp.Null? then To(s) else t.root)
    && (pp.To? ==>
          f.nodes[pp.id] ==
            if t.nodes[pp.id].left == To(p) then t.nodes[pp.id].(left := To(s))
            else t.nodes[pp.id].(right := To(s)))
    && (forall m ::
          m in t.nodes && m != p && m != s && m != L && m != R && m != sp && c != To(m) && pp != To(m)
          ==> f.nodes[m] == t.nodes[m])
  }

  lemma RepairedShape(t: Links, p: nat, s: nat)
    requires Placed(t, p, s)
    ensures Final(t, RepairedAt(t, p, s), p, s)
  {
    SurgeryShape(t, p, s);
    var P, S := t.nodes[p], t.nodes[s];
    var u := SurgeryAt(t, p, s);
    var rc := if s == P.right.id then S.right else P.right;
    assert rc != To(P.left.id) && rc != To(s) && rc != To(p);
    RepointThenFree(u, s, P.left.id, rc, p);
  }

  /** Setting the two parent links and then freeing `p` changes exactly those two nodes. */
  lemma RepointThenFree(u: Links, s: nat, l: nat, rc: Link, p: nat)
    requires l in u.nodes && (rc.To? ==> rc.id in u.nodes)
    requires rc != To(l) && rc != To(p) && l != p
    ensures var f := Free(Repoint(u, s, l, rc), p);
            && f.nodes.Keys == u.nodes.Keys - {p} && f.root == u.root
            && f.nodes[l] == u.nodes[l].(parent := To(s))
            && (rc.To? ==> f.nodes[rc.id] == u.nodes[rc.id].(parent := To(s)))
            && (forall m :: m in u.nodes && m != p && m != l && rc != To(m) ==> f.nodes[m] == u.nodes[m])
  {
  }

  /** A node the removal does not touch keeps its links, and so do its neighbours' links
      back to it. */
  lemma AgreeElsewhere(t: Links, f: Links, p: nat, s: nat, m: nat)
    requires Consistent(t) && Placed(t, p, s) && Final(t, f, p, s)
    requires m in f.nodes
    requires var P, S := t.nodes[p], t.nodes[s];
             To(m) != P.left && To(m) != P.right && m != s && To(m) != S.parent
             && To(m) != S.right && To(m) != P.parent
    ensures LinksAgreeAt(f, m)
  {
    assert LinksAgreeAt(t, m);
    var n := t.nodes[m];
    if n.parent.To? {
      assert LinksAgreeAt(t, n.parent.id);
    }
  }

  lemma AgreeAtSuccessor(t: Links, f: Links, p: nat, s: nat)
    requires Consistent(t) && Placed(t, p, s) && Final(t, f, p, s)
    ensures s in f.nodes && LinksAgreeAt(f, s)
  {
    var P, S := t.nodes[p], t.nodes[s];
    var L, R, c, pp := P.left.id, P.right.id, S.right, P.parent;
    var n := f.nodes[s];
    assert n.parent == pp && n.left == To(L);
    assert ChildBack(f, s, n.left) by {
      assert f.nodes[L].parent == To(s);
    }
    assert ChildBack(f, s, n.right) by {
      if s == R {
        assert n.right == c;
      } else {
        assert n.right == To(R) && f.nodes[R].parent == To(s);
      }
    }
    assert ParentBack(f, s) by {
      if pp.To? {
        assert pp.id in f.nodes;
      }
    }
  }

  lemma AgreeAtLeft(t: Links, f: Links, p: nat, s: nat)
    requires Consistent(t) && Placed(t, p, s) && Final(t, f, p, s)
    ensures t.nodes[p].left.id in f.nodes && LinksAgreeAt(f, t.nodes[p].left.id)
  {
    assert LinksAgreeAt(t, t.nodes[p].left.id);
  }

  lemma AgreeAtRight(t: Links, f: Links, p: nat, s: nat)
    requires Consistent(t) && Placed(t, p, s) && Final(t, f, p, s)
    requires t.nodes[p].right.id != s
    ensures t.nodes[p].right.id in f.nodes && LinksAgreeAt(f, t.nodes[p].right.id)
  {
    assert LinksAgreeAt(t, t.nodes[p].right.id);
  }

  lemma AgreeAtSuccessorParent(t: Links, f: Links, p: nat, s: nat)
    requires Consistent(t) && Placed(t, p, s) && Final(t, f, p, s)
    requires t.nodes[s].parent.id != p && t.nodes[s].parent.id != t.nodes[p].right.id
    ensures t.nodes[s].parent.id in f.nodes && LinksAgreeAt(f, t.nodes[s].parent.id)
  {
    var P, S := t.nodes[p], t.nodes[s];
    var L, R, c, sp := P.left.id, P.right.id, S.right, S.parent.id;
    assert LinksAgreeAt(t, sp);
    var n := t.nodes[sp];
    assert s != R && f.nodes[sp] == n.(left := c);
    assert ChildBack(f, sp, c) by {
      if c.To? {
        assert f.nodes[c.id].parent == To(sp);
      }
    }
    assert ChildBack(f, sp, n.right) by {
      if n.right.To? {
        var x := n.right.id;
        assert t.nodes[x].parent == To(sp) && x != s && x != L && x != R && c != To(x);
        assert x != p;
        if x == sp {
          assert f.nodes[x].parent == n.parent;
        } else if P.parent == To(x) {
          assert f.nodes[x].parent == t.nodes[x].parent;
        } else {
          assert f.nodes[x] == t.nodes[x];
        }
      }
    }
    assert ParentBack(f, sp) by {
      var g := n.parent;
      if g.To? {
        assert LinksAgreeAt(t, g.id);
        assert g.id != p && g.id != s;
        assert g.id in f.nodes;
      }
    }
  }

  lemma AgreeAtSuccessorChild(t: Links, f: Links, p: nat, s: nat)
    requires Consistent(t) && Placed(t, p, s) && Final(t, f, p, s)
    requires t.nodes[s].right.To?
    ensures t.nodes[s].right.id in f.nodes && LinksAgreeAt(f, t.nodes[s].right.id)
  {
    assert LinksAgreeAt(t, t.nodes[s].right.id);
  }

  lemma AgreeAtGrandparent(t: Links, f: Links, p: nat, s: nat)
    requires Consistent(t) && Placed(t, p, s) && Final(t, f, p, s)
    requires t.nodes[p].parent.To?
    ensures t.nodes[p].parent.id in f.nodes && LinksAgreeAt(f, t.nodes[p].parent.id)
  {
    var P, S := t.nodes[p], t.nodes[s];
    var L, R, c, sp, pp := P.left.id, P.right.id, S.right, S.parent.id, P.parent.id;
    assert LinksAgreeAt(t, pp);
    var n := t.nodes[pp];
    var other := if n.left == To(p) then n.right else n.left;
    assert f.nodes[pp].parent == n.parent;
    assert other != To(p) && other != To(s);
    assert ChildBack(f, pp, To(s)) by {
      assert f.nodes[s].parent == To(pp);
    }
    assert ChildBack(f, pp, other) by {
      if other.To? {
        assert LinksAgreeAt(t, pp);
        OtherChildKeepsParent(t, f, p, s, other.id);
      }
    }
    assert ParentBack(f, pp) by {
      var q := n.parent;
      if q.To? {
        assert LinksAgreeAt(t, q.id);
        assert q.id != p && q.id != s;
        assert q.id in f.nodes;
      }
    }
  }

  /** A child of the removed node's parent other than the removed node keeps its parent
      link. */
  lemma OtherChildKeepsParent(t: Links, f: Links, p: nat, s: nat, x: nat)
    requires Placed(t, p, s) && Final(t, f, p, s)
    requires t.nodes[p].parent.To? && x != p && x in t.nodes
    requires t.nodes[x].parent == t.nodes[p].parent
    ensures x in f.nodes && f.nodes[x].parent == t.nodes[p].parent
  {
    var P, S := t.nodes[p], t.nodes[s];
    var L, R, c, sp, pp := P.left.id, P.right.id, S.right, S.parent.id, P.parent.id;
    assert x != s && x != L && x != R && c != To(x);
    if x == sp {
      assert f.nodes[x].parent == t.nodes[x].parent;
    } else if x == pp {
      assert f.nodes[x].parent == t.nodes[pp].parent;
    } else {
      assert f.nodes[x] == t.nodes[x];
    }
  }

  /** Every node left agrees with its neighbours. */
  lemma AgreeAt(t: Links, f: Links, p: nat, s: nat, m: nat)
    requires Consistent(t) && Placed(t, p, s) && Final(t, f, p, s)
    requires m in f.nodes
    ensures LinksAgreeAt(f, m)
  {
    var P, S := t.nodes[p], t.nodes[s];
    if m == s {
      AgreeAtSuccessor(t, f, p, s);
    } else if To(m) == P.left {
      AgreeAtLeft(t, f, p, s);
    } else if To(m) == P.right {
      AgreeAtRight(t, f, p, s);
    } else if To(m) == S.parent {
      AgreeAtSuccessorParent(t, f, p, s);
    } else if To(m) == S.right {
      AgreeAtSuccessorChild(t, f, p, s);
    } else if To(m) == P.parent {
      AgreeAtGrandparent(t, f, p, s);
    } else {
      AgreeElsewhere(t, f, p, s, m);
    }
  }

  lemma RemoveTwoConsistent(t: Links, p: nat, s: nat)
    requires Consistent(t) && Placed(t, p, s)
    ensures Consistent(RepairedAt(t, p, s))
  {
    RepairedShape(t, p, s);
    FinalConsistent(t, RepairedAt(t, p, s), p, s);
  }

  /** Links laid out as `Final` says agree everywhere. */
  lemma FinalConsistent(t: Links, f: Links, p: nat, s: nat)
    requires Consistent(t) && Placed(t, p, s) && Final(t, f, p, s)
    ensures Consistent(f)
  {
    FinalRoot(t, f, p, s);
    forall m | m in f.nodes
      ensures LinksAgreeAt(f, m)
    {
      AgreeAt(t, f, p, s, m);
    }
  }

  /** The root link of `Final` designates a node without a parent. */
  lemma FinalRoot(t: Links, f: Links, p: nat, s: nat)
    requires Consistent(t) && Placed(t, p, s) && Final(t, f, p, s)
    ensures f.root.To? ==> f.root.id in f.nodes && f.nodes[f.root.id].parent == Null
  {
    if f.root.To? && t.nodes[p].parent.To? {
      assert LinksAgreeAt(t, f.root.id);
    }
  }

  /** As written, the removal leaves the removed node's left child with a parent link to
      the freed node, so the tree it leaves is not well linked. */
  lemma AsWrittenLeftChildDangles(t: Links, rank: map<nat, nat>, p: nat)
    requires TwoChildren(t, rank, p)
    ensures var r := RemoveTwoAsWritten(t, rank, p);
            var L := t.nodes[p].left.id;
            L in r.nodes && r.nodes[L].parent == To(p) && p !in r.nodes && !Consistent(r)
  {
    var s := Successor(t, rank, p);
    SurgeryFacts(t, rank, p);
    SurgeryShape(t, p, s);
    var r := RemoveTwoAsWritten(t, rank, p);
    var L := t.nodes[p].left.id;
    assert r.nodes[L] == SurgeryAt(t, p, s).nodes[L];
    assert !LinksAgreeAt(r, L);
  }

  /** Key 5 at the root with children 3 and 8. */
  function ThreeNodes(): Links
  {
    Links(To(5), map[5 := LNode(Null, To(3), To(8), 5),
                     3 := LNode(To(5), Null, Null, 3),
                     8 := LNode(To(5), Null, Null, 8)])
  }

  /** Removing the root of `ThreeNodes` as written leaves node 3 with a parent link to the
      freed node 5; the repaired removal makes 8 the root with 3 as its left child. */
  lemma ThreeNodesRemoval()
    ensures TwoChildren(ThreeNodes(), map[5 := 2, 3 := 1, 8 := 1], 5)
    ensures RemoveTwoAsWritten(ThreeNodes(), map[5 := 2, 3 := 1, 8 := 1], 5).nodes[3].parent == To(5)
    ensures var r := RemoveTwo(ThreeNodes(), map[5 := 2, 3 := 1, 8 := 1], 5);
            r.root == To(8) && r.nodes[8] == LNode(Null, To(3), Null, 8) && r.nodes[3].parent == To(8)
  {
    var t, rank := ThreeNodes(), map[5 := 2, 3 := 1, 8 := 1];
    assert LinksAgreeAt(t, 5) && LinksAgreeAt(t, 3) && LinksAgreeAt(t, 8);
    assert t.nodes.Keys == {5, 3, 8};
    assert TwoChildren(t, rank, 5);
    assert LeftSpine(t, rank, 8) == [8];
    assert Successor(t, rank, 5) == 8;
    AsWrittenLeftChildDangles(t, rank, 5);
    SurgeryFacts(t, rank, 5);
    RepairedShape(t, 5, 8);
  }
}
