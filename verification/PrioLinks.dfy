/**
 The links of the priority queue: a complete binary tree and a doubly linked list over the same
 nodes, and the exchange of two nodes in both.
 */
module PrioLinks {
  class Node<T> {
    var data: T
    var x: nat
    var y: nat
    var left: Node?<T>
    var right: Node?<T>
    var parent: Node?<T>
    var next: Node?<T>
    var prev: Node?<T>

    constructor (data: T)
      ensures this.data == data
      ensures left == null && right == null && next == null
    {
      this.data := data;
      x, y := 0, 0;
      left, right, parent, next, prev := null, null, null, null, null;
    }
  }

  ghost function MembersOf<T>(nodes: seq<Node<T>>): set<Node<T>> {
    set m | m in nodes
  }

  predicate Distinct<T>(nodes: seq<Node<T>>) {
    forall i, j :: 0 <= i < j < |nodes| ==> nodes[i] != nodes[j]
  }

  function At<T>(nodes: seq<Node<T>>, i: int): Node?<T> {
    if 0 <= i < |nodes| then nodes[i] else null
  }

  /** Level order: the parent of position 0 is the non-position -1. */
  function Parent(i: int): int {
    (i - 1) / 2
  }

  ghost predicate ListLinks<T>(nodes: seq<Node<T>>)
    reads nodes`next, nodes`prev
  {
    && (forall i {:trigger nodes[i].next} :: 0 <= i < |nodes| ==> nodes[i].next == At(nodes, i + 1))
    && (forall i {:trigger nodes[i].prev} :: 0 <= i < |nodes| ==> nodes[i].prev == At(nodes, i - 1))
  }

  ghost predicate TreeLinks<T>(nodes: seq<Node<T>>)
    reads nodes`parent, nodes`left, nodes`right
  {
    && (forall i {:trigger nodes[i].parent} :: 0 <= i < |nodes| ==> nodes[i].parent == At(nodes, Parent(i)))
    && (forall i {:trigger nodes[i].left} :: 0 <= i < |nodes| ==> nodes[i].left == At(nodes, 2 * i + 1))
    && (forall i {:trigger nodes[i].right} :: 0 <= i < |nodes| ==> nodes[i].right == At(nodes, 2 * i + 2))
  }

  // ---------- Exchanging two names ----------

  /** `m` with the names of `a` and `b` exchanged. */
  function Other<T>(a: Node<T>, b: Node<T>, m: Node<T>): Node<T> {
    if m == a then b else if m == b then a else m
  }

  function OtherOrNull<T>(a: Node<T>, b: Node<T>, m: Node?<T>): Node?<T> {
    if m == null then null else Other(a, b, m)
  }

  function Swapped<T>(nodes: seq<Node<T>>, a: Node<T>, b: Node<T>): seq<Node<T>> {
    seq(|nodes|, i requires 0 <= i < |nodes| => Other(a, b, nodes[i]))
  }

  lemma SwappedAt<T>(nodes: seq<Node<T>>, a: Node<T>, b: Node<T>, i: int)
    ensures At(Swapped(nodes, a, b), i) == OtherOrNull(a, b, At(nodes, i))
  {
  }

  function Position<T>(nodes: seq<Node<T>>, m: Node<T>): (i: nat)
    requires m in nodes
    ensures i < |nodes| && nodes[i] == m
  {
    if nodes[0] == m then 0 else 1 + Position(nodes[1..], m)
  }

  /** Exchanging names is exchanging positions. */
  lemma SwappedIsExchange<T>(nodes: seq<Node<T>>, a: Node<T>, b: Node<T>)
    requires Distinct(nodes) && a in nodes && b in nodes
    ensures Swapped(nodes, a, b) == nodes[Position(nodes, a) := b][Position(nodes, b) := a]
    ensures Distinct(Swapped(nodes, a, b))
    ensures forall m :: m in Swapped(nodes, a, b) <==> m in nodes
    ensures MembersOf(Swapped(nodes, a, b)) == MembersOf(nodes)
  {
    var i, j, s := Position(nodes, a), Position(nodes, b), Swapped(nodes, a, b);
    assert s[i] == b && s[j] == a;
    forall m | m in nodes
      ensures m in s
    {
      assert m == s[if m == a then j else if m == b then i else Position(nodes, m)];
    }
  }

  /** The list links, with the names exchanged, are the links of the exchanged sequence. */
  twostate lemma ListRelinked<T>(nodes: seq<Node<T>>, new a: Node<T>, new b: Node<T>, new s: set<Node<T>>)
    requires a in nodes && b in nodes && s == MembersOf(nodes) && old(ListLinks(nodes))
    requires ListExchanged(a, b, s)
    requires forall m :: m in Swapped(nodes, a, b) ==> m in nodes
    ensures ListLinks(Swapped(nodes, a, b))
  {
    var t := Swapped(nodes, a, b);
    forall i | 0 <= i < |t|
      ensures t[i].next == At(t, i + 1) && t[i].prev == At(t, i - 1)
    {
      assert t[i] in s && t[i] in nodes && Other(a, b, t[i]) == nodes[i];
      assert old(nodes[i].next) == At(nodes, i + 1) && old(nodes[i].prev) == At(nodes, i - 1);
      SwappedAt(nodes, a, b, i + 1);
      SwappedAt(nodes, a, b, i - 1);
    }
  }

  twostate lemma TreeRelinked<T>(nodes: seq<Node<T>>, new a: Node<T>, new b: Node<T>, new s: set<Node<T>>)
    requires a in nodes && b in nodes && s == MembersOf(nodes) && old(TreeLinks(nodes))
    requires TreeExchanged(a, b, s)
    requires forall m :: m in Swapped(nodes, a, b) ==> m in nodes
    ensures TreeLinks(Swapped(nodes, a, b))
  {
    var t := Swapped(nodes, a, b);
    forall i | 0 <= i < |t|
      ensures t[i].parent == At(t, Parent(i)) && t[i].left == At(t, 2 * i + 1) && t[i].right == At(t, 2 * i + 2)
    {
      assert t[i] in s && t[i] in nodes && Other(a, b, t[i]) == nodes[i];
      assert old(nodes[i].parent) == At(nodes, Parent(i));
      assert old(nodes[i].left) == At(nodes, 2 * i + 1) && old(nodes[i].right) == At(nodes, 2 * i + 2);
      SwappedAt(nodes, a, b, Parent(i));
      SwappedAt(nodes, a, b, 2 * i + 1);
      SwappedAt(nodes, a, b, 2 * i + 2);
    }
  }

  // ---------- What the links say node by node ----------

  ghost predicate ListLocal<T>(s: set<Node<T>>)
    reads s`next, s`prev
  {
    && (forall m {:trigger m.next} :: m in s ==> m.next == null || (m.next in s && m.next.prev == m && m.next != m))
    && (forall m {:trigger m.prev} :: m in s ==> m.prev == null || (m.prev in s && m.prev.next == m && m.prev != m))
    && (forall m {:trigger m.next.next} :: m in s && m.next != null ==> m.next.next != m)
  }

  lemma ListIsLocal<T>(nodes: seq<Node<T>>, s: set<Node<T>>)
    requires Distinct(nodes) && ListLinks(nodes) && s == MembersOf(nodes)
    ensures ListLocal(s)
    ensures nodes != [] ==> IsLast(nodes[|nodes| - 1], s)
  {
    forall m | m in s
      ensures m.next == null || (m.next in s && m.next.prev == m && m.next != m && m.next.next != m)
      ensures m.prev == null || (m.prev in s && m.prev.next == m && m.prev != m)
      ensures m.next == null <==> m == nodes[|nodes| - 1]
    {
      var i :| 0 <= i < |nodes| && nodes[i] == m;
      assert m.next == At(nodes, i + 1) && m.prev == At(nodes, i - 1);
      if i + 1 < |nodes| {
        assert nodes[i + 1].prev == At(nodes, i) && nodes[i + 1].next == At(nodes, i + 2);
      }
      if i > 0 {
        assert nodes[i - 1].next == At(nodes, i);
      }
    }
  }

  /** Every link of the list is as it was, with the names of `a` and `b` exchanged. */
  twostate predicate ListExchanged<T>(a: Node<T>, b: Node<T>, s: set<Node<T>>)
    reads s`next, s`prev
  {
    && (forall m {:trigger m.next} :: m in s ==> m.next == OtherOrNull(a, b, old(Other(a, b, m).next)))
    && (forall m {:trigger m.prev} :: m in s ==> m.prev == OtherOrNull(a, b, old(Other(a, b, m).prev)))
  }

  ghost predicate IsLast<T>(last: Node<T>, s: set<Node<T>>)
    reads s`next
  {
    last in s && last.next == null && forall m {:trigger m.next} :: m in s && m.next == null ==> m == last
  }

  /** The list half of exchange_nodes when `a` is the predecessor of `b`. */
  method ExchangeNeighbours<T>(a: Node<T>, b: Node<T>, last: Node<T>, ghost s: set<Node<T>>) returns (newLast: Node<T>)
    requires a in s && b in s && a != b && ListLocal(s) && IsLast(last, s) && a.next == b
    modifies s`next, s`prev
    ensures ListExchanged(a, b, s)
    ensures newLast == Other(a, b, last)
  {
    newLast := last;
    var ap, bn := a.prev, b.next;
    a.prev := b;
    b.next := a;
    a.next := bn;
    if a.next != null {
      a.next.prev := a;
    } else {
      newLast := a;
    }
    b.prev := ap;
    if b.prev != null {
      b.prev.next := b;
    }
  }

  /** Putting a node between `p` and `n`, or at an end of the list. */
  method Place<T>(m: Node<T>, p: Node?<T>, n: Node?<T>, last: Node<T>, ghost s: set<Node<T>>) returns (newLast: Node<T>)
    requires m in s && p != m && n != m && (p != null ==> p in s && p != n) && (n != null ==> n in s)
    modifies s`next, s`prev
    ensures forall x {:trigger x.next} :: x in s ==> x.next == if x == m then n else if x == p then m else old(x.next)
    ensures forall x {:trigger x.prev} :: x in s ==> x.prev == if x == m then p else if x == n then m else old(x.prev)
    ensures newLast == if n == null then m else last
  {
    newLast := last;
    m.prev := p;
    if p != null {
      p.next := m;
    }
    m.next := n;
    if n != null {
      n.prev := m;
    } else {
      newLast := m;
    }
  }

  /** The list half of exchange_nodes when neither is a neighbour of the other. */
  method ExchangeApart<T>(a: Node<T>, b: Node<T>, last: Node<T>, ghost s: set<Node<T>>) returns (newLast: Node<T>)
    requires a in s && b in s && a != b && ListLocal(s) && IsLast(last, s) && a.next != b && b.next != a
    modifies s`next, s`prev
    ensures ListExchanged(a, b, s)
    ensures newLast == Other(a, b, last)
  {
    var ap, an, bp, bn := a.prev, a.next, b.prev, b.next;
    newLast := Place(a, bp, bn, last, s);
    newLast := Place(b, ap, an, newLast, s);
  }

  ghost predicate TreeLocal<T>(s: set<Node<T>>)
    reads s`parent, s`left, s`right
  {
    && (forall m {:trigger m.left} :: m in s ==> m.left == null || (m.left in s && m.left.parent == m && m.left != m))
    && (forall m {:trigger m.right} :: m in s ==> m.right == null || (m.right in s && m.right.parent == m && m.right != m))
    && (forall m {:trigger m.left} :: m in s && m.left != null ==> m.left != m.right)
    && (forall m {:trigger m.parent} :: m in s && m.parent != null ==>
          m.parent in s && (m.parent.left == m || m.parent.right == m) && m.parent != m && m.parent.parent != m)
  }

  lemma ParentOfChild(i: nat)
    ensures Parent(2 * i + 1) == i && Parent(2 * i + 2) == i
    ensures i > 0 ==> 0 <= Parent(i) < i && (i == 2 * Parent(i) + 1 || i == 2 * Parent(i) + 2)
  {
  }

  lemma ChildrenAreLocal<T>(nodes: seq<Node<T>>, s: set<Node<T>>, i: nat)
    requires Distinct(nodes) && TreeLinks(nodes) && s == MembersOf(nodes) && i < |nodes|
    ensures var m := nodes[i];
            && (m.left == null || (m.left in s && m.left.parent == m && m.left != m))
            && (m.right == null || (m.right in s && m.right.parent == m && m.right != m))
            && (m.left != null ==> m.left != m.right)
  {
    var m := nodes[i];
    ParentOfChild(i);
    assert m.left == At(nodes, 2 * i + 1) && m.right == At(nodes, 2 * i + 2);
    if 2 * i + 1 < |nodes| {
      assert nodes[2 * i + 1].parent == At(nodes, i);
    }
    if 2 * i + 2 < |nodes| {
      assert nodes[2 * i + 2].parent == At(nodes, i);
    }
  }

  lemma ParentIsLocal<T>(nodes: seq<Node<T>>, s: set<Node<T>>, i: nat)
    requires Distinct(nodes) && TreeLinks(nodes) && s == MembersOf(nodes) && i < |nodes|
    ensures var m := nodes[i];
            m.parent == null ||
            (m.parent in s && (m.parent.left == m || m.parent.right == m) && m.parent != m && m.parent.parent != m)
    ensures nodes[i].parent == null <==> i == 0
  {
    ParentOfChild(i);
    var p := Parent(i);
    assert nodes[i].parent == At(nodes, p);
    if i > 0 {
      ParentOfChild(p);
      assert nodes[p].left == At(nodes, 2 * p + 1) && nodes[p].right == At(nodes, 2 * p + 2);
      assert nodes[p].parent == At(nodes, Parent(p));
    }
  }

  lemma TreeIsLocal<T>(nodes: seq<Node<T>>, s: set<Node<T>>)
    requires Distinct(nodes) && TreeLinks(nodes) && s == MembersOf(nodes)
    ensures TreeLocal(s)
    ensures nodes != [] ==> IsRoot(nodes[0], s)
  {
    forall i | 0 <= i < |nodes|
      ensures var m := nodes[i];
              && (m.left == null || (m.left in s && m.left.parent == m && m.left != m))
              && (m.right == null || (m.right in s && m.right.parent == m && m.right != m))
              && (m.left != null ==> m.left != m.right)
              && (m.parent == null <==> i == 0)
              && (m.parent == null || (m.parent in s && (m.parent.left == m || m.parent.right == m) &&
                                       m.parent != m && m.parent.parent != m))
    {
      ChildrenAreLocal(nodes, s, i);
      ParentIsLocal(nodes, s, i);
    }
  }

  twostate predicate TreeExchanged<T>(a: Node<T>, b: Node<T>, s: set<Node<T>>)
    reads s`parent, s`left, s`right
  {
    && (forall m {:trigger m.parent} :: m in s ==> m.parent == OtherOrNull(a, b, old(Other(a, b, m).parent)))
    && (forall m {:trigger m.left} :: m in s ==> m.left == OtherOrNull(a, b, old(Other(a, b, m).left)))
    && (forall m {:trigger m.right} :: m in s ==> m.right == OtherOrNull(a, b, old(Other(a, b, m).right)))
  }

  ghost predicate IsRoot<T>(root: Node<T>, s: set<Node<T>>)
    reads s`parent
  {
    root in s && root.parent == null && forall m {:trigger m.parent} :: m in s && m.parent == null ==> m == root
  }

  /** The left subtrees of two nodes. */
  method ExchangeLeft<T>(a: Node<T>, b: Node<T>, ghost s: set<Node<T>>)
    requires a != b && (a.left != null ==> a.left in s && a.left != b.left) && (b.left != null ==> b.left in s)
    modifies a`left, b`left, s`parent
    ensures a.left == old(b.left) && b.left == old(a.left)
    ensures forall m {:trigger m.parent} :: m in s ==>
              m.parent == if m == old(a.left) then b else if m == old(b.left) then a else old(m.parent)
  {
    var l := a.left;
    a.left := b.left;
    if a.left != null {
      a.left.parent := a;
    }
    b.left := l;
    if b.left != null {
      b.left.parent := b;
    }
  }

  /** The right subtrees of two nodes. */
  method ExchangeRight<T>(a: Node<T>, b: Node<T>, ghost s: set<Node<T>>)
    requires a != b && (a.right != null ==> a.right in s && a.right != b.right) && (b.right != null ==> b.right in s)
    modifies a`right, b`right, s`parent
    ensures a.right == old(b.right) && b.right == old(a.right)
    ensures forall m {:trigger m.parent} :: m in s ==>
              m.parent == if m == old(a.right) then b else if m == old(b.right) then a else old(m.parent)
  {
    var r := a.right;
    a.right := b.right;
    if a.right != null {
      a.right.parent := a;
    }
    b.right := r;
    if b.right != null {
      b.right.parent := b;
    }
  }

  /** `a` takes the place of its parent `b` under the node above, or at the root, and becomes b's parent. */
  method Lift<T>(a: Node<T>, b: Node<T>, root: Node<T>, ghost s: set<Node<T>>) returns (newRoot: Node<T>)
    requires a in s && b in s && TreeLocal(s) && IsRoot(root, s) && a.parent == b
    modifies s`left, s`right, s`parent
    ensures forall m {:trigger m.parent} :: m in s ==>
              m.parent == if m == a then old(b.parent) else if m == b then a else old(m.parent)
    ensures forall m {:trigger m.left} :: m in s ==> m.left == if old(m.left) == b then a else old(m.left)
    ensures forall m {:trigger m.right} :: m in s ==> m.right == if old(m.right) == b then a else old(m.right)
    ensures newRoot == Other(a, b, root)
  {
    newRoot := root;
    var p := b.parent;
    b.parent := a;
    a.parent := p;
    if p != null {
      if p.left == b {
        p.left := a;
      } else {
        p.right := a;
      }
    } else {
      newRoot := a;
    }
  }

  /** The tree half of exchange_nodes when `b` is the parent of `a`. */
  method ExchangeWithParent<T>(a: Node<T>, b: Node<T>, root: Node<T>, ghost s: set<Node<T>>) returns (newRoot: Node<T>)
    requires a in s && b in s && TreeLocal(s) && IsRoot(root, s) && a.parent == b
    modifies s`left, s`right, s`parent
    ensures TreeExchanged(a, b, s)
    ensures newRoot == Other(a, b, root)
  {
    newRoot := Lift(a, b, root, s);
    if b.left == a {
      HandOverLeft(a, b, s);
      ExchangeRight(a, b, s);
    } else {
      HandOverRight(a, b, s);
      ExchangeLeft(a, b, s);
    }
  }

  /** The left child moves down a level: its left subtree goes to its old parent, which becomes its left child. */
  method HandOverLeft<T>(a: Node<T>, b: Node<T>, ghost s: set<Node<T>>)
    requires a != b && (a.left != null ==> a.left in s)
    modifies a`left, b`left, s`parent
    ensures b.left == old(a.left) && a.left == b
    ensures forall m {:trigger m.parent} :: m in s ==> m.parent == if m == old(a.left) then b else old(m.parent)
  {
    b.left := a.left;
    if b.left != null {
      b.left.parent := b;
    }
    a.left := b;
  }

  method HandOverRight<T>(a: Node<T>, b: Node<T>, ghost s: set<Node<T>>)
    requires a != b && (a.right != null ==> a.right in s)
    modifies a`right, b`right, s`parent
    ensures b.right == old(a.right) && a.right == b
    ensures forall m {:trigger m.parent} :: m in s ==> m.parent == if m == old(a.right) then b else old(m.parent)
  {
    b.right := a.right;
    if b.right != null {
      b.right.parent := b;
    }
    a.right := b;
  }

  /** The parents of two unrelated nodes; they may be the same node. */
  method ExchangeParents<T>(a: Node<T>, b: Node<T>, root: Node<T>, ghost s: set<Node<T>>) returns (newRoot: Node<T>)
    requires a in s && b in s && a != b && TreeLocal(s) && IsRoot(root, s) && a.parent != b && b.parent != a
    modifies s`left, s`right, s`parent
    ensures forall m {:trigger m.left} :: m in s ==> m.left == OtherOrNull(a, b, old(m.left))
    ensures forall m {:trigger m.right} :: m in s ==> m.right == OtherOrNull(a, b, old(m.right))
    ensures forall m {:trigger m.parent} :: m in s ==> m.parent == old(Other(a, b, m).parent)
    ensures newRoot == Other(a, b, root)
  {
    newRoot := root;
    var ap, bp := a.parent, b.parent;
    var apl, bpl := null, null;
    if ap != null {
      apl := ap.left;
    }
    if bp != null {
      bpl := bp.left;
    }
    a.parent := bp;
    if bp != null {
      if bpl == b {
        bp.left := a;
      } else {
        bp.right := a;
      }
    } else {
      newRoot := a;
    }
    b.parent := ap;
    if ap != null {
      if apl == a {
        ap.left := b;
      } else {
        ap.right := b;
      }
    } else {
      newRoot := b;
    }
  }

  /** The tree half of exchange_nodes when neither node is the parent of the other. */
  method ExchangeUnrelated<T>(a: Node<T>, b: Node<T>, root: Node<T>, ghost s: set<Node<T>>) returns (newRoot: Node<T>)
    requires a in s && b in s && a != b && TreeLocal(s) && IsRoot(root, s) && a.parent != b && b.parent != a
    modifies s`left, s`right, s`parent
    ensures TreeExchanged(a, b, s)
    ensures newRoot == Other(a, b, root)
  {
    newRoot := ExchangeParents(a, b, root, s);
    ExchangeLeft(a, b, s);
    ExchangeRight(a, b, s);
  }
}
