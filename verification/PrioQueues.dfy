/** The pointer-linked priority queue. */
module PrioQueues {
  import opened Bytes
  import opened PrioLinks
  import opened HeapOrder

  /** Level `y` starts at position 2^y - 1; `x` counts from there. */
  predicate Coordinates(i: nat, x: nat, y: nat) {
    i + 1 == Pow2(y) + x && x < Pow2(y)
  }

  ghost predicate CoordinateLinks<T>(nodes: seq<Node<T>>)
    reads nodes`x, nodes`y
  {
    forall i {:trigger nodes[i].x} {:trigger nodes[i].y} :: 0 <= i < |nodes| ==> Coordinates(i, nodes[i].x, nodes[i].y)
  }

  /** The next position is one to the right, or at the start of the next level. */
  lemma NextCoordinates(i: nat, x: nat, y: nat)
    requires Coordinates(i, x, y)
    ensures if x + 1 >= Pow2(y) then Coordinates(i + 1, 0, y + 1) else Coordinates(i + 1, x + 1, y)
  {
  }

  /** The parent is half as far to the right, one level up. */
  lemma ParentCoordinates(i: nat, x: nat, y: nat)
    requires Coordinates(i, x, y) && i > 0
    ensures y > 0 && Coordinates(Parent(i), x / 2, y - 1)
    ensures x % 2 == 1 <==> i == 2 * Parent(i) + 2
  {
    if y > 0 {
      assert Pow2(y) == 2 * Pow2(y - 1);
    }
  }

  lemma Pow2Grows(a: nat, b: nat)
    requires a <= b
    ensures Pow2(a) <= Pow2(b)
  {
    if a < b {
      Pow2Grows(a, b - 1);
    }
  }

  /** x >> n */
  function Shifted(x: nat, n: nat): nat {
    if n == 0 then x else Shifted(x / 2, n - 1)
  }

  lemma {:induction false} ShiftStep(x: nat, n: nat)
    requires n > 0
    ensures Shifted(x, n - 1) / 2 == Shifted(x, n)
  {
    if n > 1 {
      ShiftStep(x / 2, n - 1);
    }
  }

  lemma {:induction false} ShiftedIsSmaller(x: nat, n: nat)
    ensures Shifted(x, n) <= x
    ensures x < Pow2(n) ==> Shifted(x, n) == 0
  {
    if n > 0 {
      ShiftedIsSmaller(x / 2, n - 1);
    }
  }

  /** One step of the walk from the root: one more bit of x is used. */
  lemma ChildCoordinates(i: nat, x: nat, n: nat, r: nat)
    requires r < n && Coordinates(i, Shifted(x, n - r), r) && x < Pow2(n)
    ensures var bit := Shifted(x, n - r - 1) % 2;
            Coordinates(2 * i + 1 + bit, Shifted(x, n - r - 1), r + 1) && 2 * i + 1 + bit < Pow2(n) + x
  {
    ShiftStep(x, n - r);
    Pow2Grows(r + 1, n);
    ShiftedIsSmaller(x, n - r - 1);
  }

  ghost function DataOf<T>(nodes: seq<Node<T>>): (keys: seq<T>)
    reads nodes`data
    ensures |keys| == |nodes|
    ensures forall i :: 0 <= i < |nodes| ==> keys[i] == nodes[i].data
  {
    if nodes == [] then [] else [nodes[0].data] + DataOf(nodes[1..])
  }

  class PrioQueue<T(!new)> {
    const compare: (T, T) -> int
    var root: Node?<T>
    var last: Node?<T>
    var nNodes: nat
    ghost var nodes: seq<Node<T>>

    /** The tree, the list, the coordinates and the ends all agree with one level-order sequence. */
    ghost predicate Shape()
      reads this, nodes
    {
      && Distinct(nodes) && TreeLinks(nodes) && ListLinks(nodes) && CoordinateLinks(nodes)
      && root == At(nodes, 0) && last == At(nodes, |nodes| - 1) && nNodes == |nodes|
    }

    ghost function Members(): set<Node<T>>
      reads `nodes
    {
      MembersOf(nodes)
    }

    ghost predicate Owns(s: set<Node<T>>)
      reads `nodes
    {
      s == Members()
    }

    ghost function Keys(): seq<T>
      reads `nodes, nodes`data
    {
      DataOf(nodes)
    }

    ghost predicate Valid()
      reads this, nodes
    {
      Shape() && TotalPreorder(compare) && Heap(Keys(), compare)
    }

    constructor (compare: (T, T) -> int)
      requires TotalPreorder(compare)
      ensures Valid() && nodes == [] && this.compare == compare
    {
      this.compare := compare;
      root, last, nNodes, nodes := null, null, 0, [];
    }

    /** The tree links and the root, in each of the three cases the source tells apart. */
    method ExchangeTree(a: Node<T>, b: Node<T>, ghost s: set<Node<T>>)
      requires a in s && b in s && a != b && TreeLocal(s) && root != null && IsRoot(root, s)
      modifies `root, s`left, s`right, s`parent
      ensures TreeExchanged(a, b, s)
      ensures root == OtherOrNull(a, b, old(root))
    {
      var r: Node<T> := root;
      if a.parent == b {
        r := ExchangeWithParent(a, b, r, s);
      } else if b.parent == a {
        r := ExchangeWithParent(b, a, r, s);
      } else {
        r := ExchangeUnrelated(a, b, r, s);
      }
      root := r;
    }

    method ExchangeInTree(a: Node<T>, b: Node<T>, ghost s: set<Node<T>>)
      requires Owns(s) && Distinct(nodes) && TreeLinks(nodes) && root == At(nodes, 0) && a in nodes && b in nodes && a != b
      modifies `root, s`left, s`right, s`parent
      ensures TreeLinks(Swapped(nodes, a, b)) && root == At(Swapped(nodes, a, b), 0)
    {
      hide TreeLocal, TreeLinks, IsRoot, TreeExchanged, Distinct;
      TreeIsLocal(nodes, s);
      SwappedIsExchange(nodes, a, b);
      SwappedAt(nodes, a, b, 0);
      ExchangeTree(a, b, s);
      TreeRelinked(nodes, a, b, s);
    }

    /** The list links and the end, in each of the three cases the source tells apart. */
    method ExchangeSiblings(a: Node<T>, b: Node<T>, ghost s: set<Node<T>>)
      requires a in s && b in s && a != b && ListLocal(s) && last != null && IsLast(last, s)
      modifies `last, s`next, s`prev
      ensures ListExchanged(a, b, s)
      ensures last == OtherOrNull(a, b, old(last))
    {
      var l: Node<T> := last;
      if a.next == b {
        l := ExchangeNeighbours(a, b, l, s);
      } else if b.next == a {
        l := ExchangeNeighbours(b, a, l, s);
      } else {
        l := ExchangeApart(a, b, l, s);
      }
      last := l;
    }

    method ExchangeInList(a: Node<T>, b: Node<T>, ghost s: set<Node<T>>)
      requires Owns(s) && Distinct(nodes) && ListLinks(nodes) && last == At(nodes, |nodes| - 1) && a in nodes && b in nodes && a != b
      modifies `last, s`next, s`prev
      ensures ListLinks(Swapped(nodes, a, b)) && last == At(Swapped(nodes, a, b), |nodes| - 1)
    {
      hide ListLocal, ListLinks, IsLast, ListExchanged, Distinct;
      ListIsLocal(nodes, s);
      SwappedIsExchange(nodes, a, b);
      SwappedAt(nodes, a, b, |nodes| - 1);
      ExchangeSiblings(a, b, s);
      ListRelinked(nodes, a, b, s);
    }

    /** Each node carries its coordinates; the two swap theirs. */
    method ExchangeCoordinates(a: Node<T>, b: Node<T>, ghost s: set<Node<T>>)
      requires Owns(s) && Distinct(nodes) && CoordinateLinks(nodes) && a in nodes && b in nodes && a != b
      modifies s`x, s`y
      ensures CoordinateLinks(Swapped(nodes, a, b))
    {
      SwappedIsExchange(nodes, a, b);
      var t := a.x;
      a.x := b.x;
      b.x := t;
      t := a.y;
      a.y := b.y;
      b.y := t;
      CoordinatesRelinked(nodes, a, b);
    }

    /** exchange_nodes: exactly the swap of two positions, whatever the two nodes are to each other. */
    method ExchangeNodes(a: Node<T>, b: Node<T>, ghost s: set<Node<T>>)
      requires Owns(s) && Shape() && a in nodes && b in nodes && a != b
      modifies `root, `last, `nodes, s`left, s`right, s`parent, s`next, s`prev, s`x, s`y
      ensures Owns(s) && Shape()
      ensures nodes == Swapped(old(nodes), a, b)
    {
      hide TreeLinks, ListLinks, CoordinateLinks, Distinct, Swapped, Other, At, Position, MembersOf;
      ExchangeCoordinates(a, b, s);
      ExchangeInTree(a, b, s);
      ExchangeInList(a, b, s);
      SwappedIsExchange(nodes, a, b);
      nodes := Swapped(nodes, a, b);
    }

    /** get_node_at_xy: the bits of x, from the highest, lead from the root to the node with these coordinates. */
    method GetNodeAt(x: nat, y: nat) returns (n: Node<T>)
      requires TreeLinks(nodes) && root == At(nodes, 0) && x < Pow2(y) && Pow2(y) + x <= |nodes|
      ensures n == nodes[Pow2(y) + x - 1]
    {
      ShiftedIsSmaller(x, y);
      n := root;
      ghost var i: nat := 0;
      for r := 0 to y
        invariant r <= y && Coordinates(i, Shifted(x, y - r), r) && i < |nodes| && n == nodes[i]
      {
        ChildCoordinates(i, x, y, r);
        assert nodes[i].left == At(nodes, 2 * i + 1) && nodes[i].right == At(nodes, 2 * i + 2);
        if Shifted(x, y - r - 1) % 2 == 1 {
          n := n.right;
          i := 2 * i + 2;
        } else {
          n := n.left;
          i := 2 * i + 1;
        }
      }
    }

    /** Two nodes trade places, and so do their keys. */
    method ExchangePositions(a: Node<T>, b: Node<T>, ghost i: nat, ghost j: nat, ghost s: set<Node<T>>)
      requires Owns(s) && Shape() && i < |nodes| && j < |nodes| && nodes[i] == a && nodes[j] == b && i != j
      modifies `root, `last, `nodes, s`left, s`right, s`parent, s`next, s`prev, s`x, s`y
      ensures Owns(s) && Shape() && nodes == old(nodes)[i := b][j := a]
      ensures Keys() == Exchange(old(Keys()), i, j)
    {
      hide Owns, TreeLinks, ListLinks, CoordinateLinks, Swapped, Other, At;
      PositionIs(nodes, a, i);
      PositionIs(nodes, b, j);
      SwappedIsExchange(nodes, a, b);
      ExchangeNodes(a, b, s);
    }

    /** shuffle, first half: move up while the parent is greater. */
    method ShuffleUp(n: Node<T>, ghost start: nat, ghost s: set<Node<T>>) returns (ghost k: nat)
      requires Owns(s) && Shape() && TotalPreorder(compare) && start < |nodes| && nodes[start] == n
      requires HeapExcept(Keys(), compare, start)
      modifies `root, `last, `nodes, s`left, s`right, s`parent, s`next, s`prev, s`x, s`y
      ensures Shape() && Owns(s)
      ensures k < |nodes| && nodes[k] == n && HeapExcept(Keys(), compare, k) && Ordered(Keys(), compare, k)
    {
      hide Owns, TreeLinks, ListLinks, CoordinateLinks, HeapExcept, Exchange, TotalPreorder, Distinct;
      k := start;
      LinksAt(nodes, k);
      while n.parent != null && compare(n.parent.data, n.data) > 0
        invariant Shape() && Owns(s)
        invariant k < |nodes| && nodes[k] == n && n.parent == At(nodes, Parent(k))
        invariant HeapExcept(Keys(), compare, k)
        decreases k
      {
        ParentOfChild(k);
        SiftUp(Keys(), compare, k);
        ExchangePositions(n, n.parent, k, Parent(k), s);
        k := Parent(k);
        LinksAt(nodes, k);
      }
    }

    /** The smaller one of the two children, the left one if they compare equal. */
    method SmallerChild(n: Node<T>, ghost k: nat) returns (min: Node?<T>, ghost c: nat)
      requires TreeLinks(nodes) && TotalPreorder(compare) && k < |nodes| && nodes[k] == n
      ensures min == null ==> |nodes| <= 2 * k + 1
      ensures min != null ==> k < c < |nodes| && nodes[c] == min && SmallestChild(Keys(), compare, k, c)
    {
      hide TreeLinks, TotalPreorder, SmallestChild;
      LinksAt(nodes, k);
      min, c := n.left, 2 * k + 1;
      if min == null {
        return;
      }
      if n.right != null && compare(n.right.data, min.data) < 0 {
        min, c := n.right, 2 * k + 2;
      }
      IsSmallestChild(Keys(), compare, k, c);
    }

    /** shuffle, second half: move down while a child is smaller. */
    method ShuffleDown(n: Node<T>, ghost start: nat, ghost s: set<Node<T>>)
      requires Owns(s) && Shape() && TotalPreorder(compare) && start < |nodes| && nodes[start] == n
      requires HeapExcept(Keys(), compare, start) && Ordered(Keys(), compare, start)
      modifies `root, `last, `nodes, s`left, s`right, s`parent, s`next, s`prev, s`x, s`y
      ensures Valid() && Owns(s)
    {
      hide Owns, TreeLinks, ListLinks, CoordinateLinks, HeapExcept, Exchange, TotalPreorder, SmallestChild, Ordered, Heap;
      hide Distinct, At;
      ghost var k := start;
      while true
        invariant Shape() && Owns(s)
        invariant k < |nodes| && nodes[k] == n
        invariant HeapExcept(Keys(), compare, k) && Ordered(Keys(), compare, k)
        decreases |nodes| - k
      {
        var min: Node?<T>;
        ghost var c: nat;
        min, c := SmallerChild(n, k);
        if min == null {
          NoChild(Keys(), compare, k);
          break;
        }
        if compare(n.data, min.data) <= 0 {
          SmallestNotSmaller(Keys(), compare, k, c);
          break;
        }
        SiftDown(Keys(), compare, k, c);
        ExchangePositions(n, min, k, c, s);
        k := c;
      }
    }

    /** shuffle: wherever the heap is broken at one node only, its order is restored. */
    method Shuffle(n: Node<T>, ghost k: nat, ghost s: set<Node<T>>)
      requires Owns(s) && Shape() && TotalPreorder(compare) && k < |nodes| && nodes[k] == n
      requires HeapExcept(Keys(), compare, k)
      modifies `root, `last, `nodes, s`left, s`right, s`parent, s`next, s`prev, s`x, s`y
      ensures Valid() && Owns(s)
    {
      hide Owns, TreeLinks, ListLinks, CoordinateLinks, HeapExcept, TotalPreorder, Ordered, Heap;
      ghost var top := ShuffleUp(n, k, s);
      ShuffleDown(n, top, s);
    }

    /** The new node becomes the last one of the list. */
    method LinkLast(n: Node<T>, ghost s: set<Node<T>>)
      requires Owns(s) && n !in s && Distinct(nodes) && ListLinks(nodes) && last == At(nodes, |nodes| - 1)
      modifies `last, n`next, n`prev, s`next
      ensures ListLinks(nodes + [n]) && last == n
    {
      if last != null {
        last.next := n;
      }
      n.prev := last;
      n.next := null;
      last := n;
    }

    /** The new node becomes the child its coordinates name. */
    method LinkChild(n: Node<T>, ghost s: set<Node<T>>)
      requires Owns(s) && n !in s && Distinct(nodes) && TreeLinks(nodes) && root == At(nodes, 0)
      requires Coordinates(|nodes|, n.x, n.y)
      modifies `root, n`parent, n`left, n`right, s`left, s`right
      ensures TreeLinks(nodes + [n]) && root == At(nodes + [n], 0)
    {
      hide TreeLinks, Distinct;
      if root != null {
        ParentCoordinates(|nodes|, n.x, n.y);
        ParentOfChild(|nodes|);
        var p := GetNodeAt(n.x / 2, n.y - 1);
        n.parent := p;
        if n.x % 2 == 1 {
          p.right := n;
        } else {
          p.left := n;
        }
      } else {
        root := n;
        n.parent := null;
      }
      n.left := null;
      n.right := null;
      TreeAppended(nodes, n);
    }

    /** The coordinates after those of the last node. */
    method TakeNextPlace(n: Node<T>, ghost s: set<Node<T>>)
      requires Owns(s) && n !in s && CoordinateLinks(nodes) && last == At(nodes, |nodes| - 1)
      modifies n`x, n`y
      ensures Coordinates(|nodes|, n.x, n.y) && CoordinateLinks(nodes)
    {
      if last != null {
        n.y := last.y;
        n.x := last.x + 1;
        if n.x >= Pow2(n.y) {
          n.x := 0;
          n.y := n.y + 1;
        }
      } else {
        n.y := 0;
        n.x := 0;
      }
      NextPlace(nodes, n.x, n.y);
    }

    /** A change of one node's key, followed by avahi_prio_queue_shuffle. */
    method Rekey(n: Node<T>, data: T)
      requires Valid() && n in nodes
      modifies `root, `last, `nodes, n`data
      modifies nodes`left, nodes`right, nodes`parent, nodes`next, nodes`prev, nodes`x, nodes`y
      ensures Valid() && n.data == data && Members() == old(Members())
    {
      hide TreeLinks, ListLinks, CoordinateLinks, TotalPreorder, Heap, HeapExcept;
      ghost var s, k, keys := Members(), Position(nodes, n), Keys();
      ReplacedKey(keys, compare, k, data);
      n.data := data;
      assert Keys() == keys[k := data];
      Shuffle(n, k, s);
    }

    /** No key of the queue is smaller than the one at the root. */
    lemma RootIsMinimum()
      requires Valid()
      ensures root == null <==> Members() == {}
      ensures root != null ==> root in Members() && forall m :: m in Members() ==> compare(root.data, m.data) <= 0
    {
      if nodes != [] {
        assert nodes[0] in Members();
      }
      forall i | 0 <= i < |nodes|
        ensures compare(nodes[0].data, nodes[i].data) <= 0
      {
        RootIsLeast(Keys(), compare, i);
      }
    }

    /** The shape half of avahi_prio_queue_put: the new node takes the next free place. */
    method Insert(n: Node<T>, ghost s: set<Node<T>>)
      requires Owns(s) && n !in s && Shape()
      modifies `root, `last, `nodes, `nNodes, n`x, n`y, n`parent, n`left, n`right, n`next, n`prev, s`left, s`right, s`next
      ensures Shape() && Owns(s + {n}) && nodes == old(nodes) + [n] && Keys() == old(Keys()) + [n.data]
    {
      hide TreeLinks, ListLinks, CoordinateLinks, Distinct, Coordinates, DataOf, MembersOf;
      TakeNextPlace(n, s);
      LinkChild(n, s);
      LinkLast(n, s);
      nNodes := nNodes + 1;
      AppendedNode(nodes, n);
      nodes := nodes + [n];
    }

    /** avahi_prio_queue_put */
    method Put(data: T) returns (n: Node<T>)
      requires Valid()
      modifies `root, `last, `nodes, `nNodes
      modifies nodes`left, nodes`right, nodes`parent, nodes`next, nodes`prev, nodes`x, nodes`y
      ensures Valid() && fresh(n) && n.data == data
      ensures Members() == old(Members()) + {n}
    {
      hide TreeLinks, ListLinks, CoordinateLinks, TotalPreorder, Heap, HeapExcept, Distinct;
      ghost var s := Members();
      AppendedKey(Keys(), compare, data);
      n := new Node(data);
      Insert(n, s);
      Shuffle(n, |nodes| - 1, s + {n});
    }

    /** Taking the last node out: the simple half of avahi_prio_queue_remove. */
    method DropLast(n: Node<T>, ghost s: set<Node<T>>)
      requires Owns(s) && Shape() && last == n
      modifies `root, `last, `nodes, `nNodes, s`left, s`right, s`next
      ensures Shape() && Owns(s - {n}) && nodes == old(nodes[..|nodes| - 1]) && Keys() == old(Keys()[..|nodes| - 1])
    {
      hide TreeLinks, ListLinks, CoordinateLinks, Distinct, DataOf, Position, MembersOf;
      UnlinkLast(n, s);
      UnlinkChild(n, s);
      nNodes := nNodes - 1;
      DroppedNode(nodes);
      nodes := nodes[..|nodes| - 1];
    }

    method UnlinkLast(n: Node<T>, ghost s: set<Node<T>>)
      requires Owns(s) && Distinct(nodes) && ListLinks(nodes) && last == At(nodes, |nodes| - 1) && last == n
      modifies `last, s`next
      ensures ListLinks(nodes[..|nodes| - 1]) && last == At(nodes, |nodes| - 2)
    {
      last := n.prev;
      if n.prev != null {
        n.prev.next := null;
      }
    }

    method UnlinkChild(n: Node<T>, ghost s: set<Node<T>>)
      requires Owns(s) && Distinct(nodes) && TreeLinks(nodes) && root == At(nodes, 0) && n == At(nodes, |nodes| - 1)
      modifies `root, s`left, s`right
      ensures TreeLinks(nodes[..|nodes| - 1]) && root == At(nodes[..|nodes| - 1], 0)
    {
      hide TreeLinks, Distinct;
      TreeIsLocal(nodes, s);
      ParentIsLocal(nodes, s, |nodes| - 1);
      CutFromParent(n, s);
      if n.parent == null {
        root := null;
      }
      TreeDropped(nodes, n, s);
    }

    /** The parent of a node forgets it. */
    method CutFromParent(n: Node<T>, ghost s: set<Node<T>>)
      requires n in s && TreeLocal(s)
      modifies s`left, s`right
      ensures Forgotten(n, s)
    {
      if n.parent != null {
        if n.parent.left == n {
          n.parent.left := null;
        } else {
          n.parent.right := null;
        }
      }
    }

    /** avahi_prio_queue_remove: the last node takes the place of the removed one and moves to where it belongs. */
    method Remove(n: Node<T>)
      requires Valid() && n in nodes
      modifies `root, `last, `nodes, `nNodes
      modifies nodes`left, nodes`right, nodes`parent, nodes`next, nodes`prev, nodes`x, nodes`y
      ensures Valid()
      ensures Members() == old(Members()) - {n}
    {
      hide TreeLinks, ListLinks, CoordinateLinks, TotalPreorder, Heap, HeapExcept, Distinct, Exchange, DataOf, Position;
      ghost var s, k := Members(), Position(nodes, n);
      ghost var keys := Keys();
      if n != last {
        MovedKey(keys, compare, k);
        var replacement: Node<T> := last;
        ExchangePositions(replacement, n, |nodes| - 1, k, s);
        DropLast(n, s);
        Shuffle(replacement, k, s - {n});
      } else {
        DroppedKey(keys, compare);
        DropLast(n, s);
      }
    }
  }

  /** The last key moved to position `k` leaves the heap broken there only. */
  lemma MovedKey<T(!new)>(keys: seq<T>, cmp: (T, T) -> int, k: nat)
    requires TotalPreorder(cmp) && Heap(keys, cmp) && k < |keys| - 1
    ensures HeapExcept(Exchange(keys, |keys| - 1, k)[..|keys| - 1], cmp, k)
  {
    var rest, key := keys[..|keys| - 1], keys[|keys| - 1];
    DroppedKey(keys, cmp);
    ReplacedKey(rest, cmp, k, key);
    assert Exchange(keys, |keys| - 1, k)[..|keys| - 1] == rest[k := key];
  }

  /** The only links that change are the ones to `n`, which are cleared. */
  twostate predicate Forgotten<T>(n: Node<T>, s: set<Node<T>>)
    reads s`left, s`right
  {
    && (forall m {:trigger m.left} :: m in s ==> m.left == if old(m.left) == n then null else old(m.left))
    && (forall m {:trigger m.right} :: m in s ==> m.right == if old(m.right) == n then null else old(m.right))
  }

  twostate lemma TreeDropped<T>(nodes: seq<Node<T>>, new n: Node<T>, new s: set<Node<T>>)
    requires Distinct(nodes) && old(TreeLinks(nodes)) && n == At(nodes, |nodes| - 1) && s == MembersOf(nodes)
    requires Forgotten(n, s) && forall m {:trigger m.parent} :: m in nodes ==> m.parent == old(m.parent)
    ensures TreeLinks(nodes[..|nodes| - 1])
  {
    var rest := nodes[..|nodes| - 1];
    forall i | 0 <= i < |rest|
      ensures rest[i].parent == At(rest, Parent(i))
      ensures rest[i].left == At(rest, 2 * i + 1) && rest[i].right == At(rest, 2 * i + 2)
    {
      ParentOfChild(i);
      assert nodes[i] in s;
      assert old(nodes[i].parent) == At(nodes, Parent(i));
      assert old(nodes[i].left) == At(nodes, 2 * i + 1) && old(nodes[i].right) == At(nodes, 2 * i + 2);
    }
  }

  /** The only links that change are the one to the new node `n` and its own. */
  twostate predicate Adopted<T>(nodes: seq<Node<T>>, new n: Node<T>)
    reads nodes`parent, nodes`left, nodes`right, n`parent
  {
    && (forall m {:trigger m.parent} :: m in nodes ==> m.parent == old(m.parent))
    && (forall m {:trigger m.left} :: m in nodes ==>
          m.left == if m == n.parent && |nodes| == 2 * Parent(|nodes|) + 1 then n else old(m.left))
    && (forall m {:trigger m.right} :: m in nodes ==>
          m.right == if m == n.parent && |nodes| == 2 * Parent(|nodes|) + 2 then n else old(m.right))
  }

  ghost predicate LinkedAt<T>(nodes: seq<Node<T>>, i: nat)
    requires i < |nodes|
    reads nodes`parent, nodes`left, nodes`right
  {
    && nodes[i].parent == At(nodes, Parent(i))
    && nodes[i].left == At(nodes, 2 * i + 1)
    && nodes[i].right == At(nodes, 2 * i + 2)
  }

  /** A predicate that holds wherever it may be asked for: in two-state proofs it asks in the old state. */
  ghost predicate TreeLinksAt<T>(nodes: seq<Node<T>>, i: nat): (holds: bool)
    requires TreeLinks(nodes) && i < |nodes|
    reads nodes`parent, nodes`left, nodes`right
    ensures holds
  {
    LinkedAt(nodes, i)
  }

  lemma LinkedEverywhere<T>(nodes: seq<Node<T>>)
    requires forall i: nat {:trigger LinkedAt(nodes, i)} :: i < |nodes| ==> LinkedAt(nodes, i)
    ensures TreeLinks(nodes)
  {
    forall i: nat | i < |nodes|
      ensures nodes[i].parent == At(nodes, Parent(i))
      ensures nodes[i].left == At(nodes, 2 * i + 1) && nodes[i].right == At(nodes, 2 * i + 2)
    {
      assert LinkedAt(nodes, i);
    }
  }

  twostate lemma TreeAppended<T>(nodes: seq<Node<T>>, new n: Node<T>)
    requires Distinct(nodes) && old(TreeLinks(nodes)) && n !in nodes && Adopted(nodes, n)
    requires n.left == null && n.right == null && n.parent == At(nodes, Parent(|nodes|))
    ensures TreeLinks(nodes + [n])
  {
    hide Adopted, Distinct, TreeLinks;
    forall i: nat | i < |nodes + [n]|
      ensures LinkedAt(nodes + [n], i)
    {
      ParentOfChild(i);
      if i < |nodes| {
        assert old(TreeLinksAt(nodes, i));
        TreeAppendedAt(nodes, n, i);
      }
    }
    LinkedEverywhere(nodes + [n]);
  }

  twostate lemma TreeAppendedAt<T>(nodes: seq<Node<T>>, new n: Node<T>, new i: nat)
    requires Distinct(nodes) && n !in nodes && i < |nodes| && Adopted(nodes, n)
    requires n.parent == At(nodes, Parent(|nodes|))
    requires old(LinkedAt(nodes, i))
    ensures LinkedAt(nodes + [n], i)
  {
    ParentOfChild(|nodes|);
    ParentOfChild(i);
    assert nodes[i] in nodes;
  }

  lemma NextPlace<T>(nodes: seq<Node<T>>, x: nat, y: nat)
    requires CoordinateLinks(nodes)
    requires if nodes == [] then x == 0 && y == 0 else
               var l := nodes[|nodes| - 1];
               if l.x + 1 >= Pow2(l.y) then x == 0 && y == l.y + 1 else x == l.x + 1 && y == l.y
    ensures Coordinates(|nodes|, x, y)
  {
    if nodes != [] {
      var l := nodes[|nodes| - 1];
      assert Coordinates(|nodes| - 1, l.x, l.y);
      NextCoordinates(|nodes| - 1, l.x, l.y);
    }
  }

  lemma AppendedNode<T>(nodes: seq<Node<T>>, n: Node<T>)
    requires Distinct(nodes) && n !in MembersOf(nodes) && CoordinateLinks(nodes) && Coordinates(|nodes|, n.x, n.y)
    ensures Distinct(nodes + [n]) && CoordinateLinks(nodes + [n])
    ensures DataOf(nodes + [n]) == DataOf(nodes) + [n.data]
    ensures MembersOf(nodes + [n]) == MembersOf(nodes) + {n}
  {
  }

  lemma DroppedNode<T>(nodes: seq<Node<T>>)
    requires nodes != [] && Distinct(nodes) && CoordinateLinks(nodes)
    ensures var rest := nodes[..|nodes| - 1];
            Distinct(rest) && CoordinateLinks(rest) && DataOf(rest) == DataOf(nodes)[..|nodes| - 1] &&
            MembersOf(rest) == MembersOf(nodes) - {nodes[|nodes| - 1]}
  {
    var rest, n := nodes[..|nodes| - 1], nodes[|nodes| - 1];
    forall m | m in nodes && m != n
      ensures m in rest
    {
      assert m == rest[Position(nodes, m)];
    }
  }

  lemma PositionIs<T>(nodes: seq<Node<T>>, m: Node<T>, i: nat)
    requires Distinct(nodes) && i < |nodes| && nodes[i] == m
    ensures Position(nodes, m) == i
  {
  }

  lemma LinksAt<T>(nodes: seq<Node<T>>, k: nat)
    requires TreeLinks(nodes) && k < |nodes|
    ensures nodes[k].parent == At(nodes, Parent(k))
    ensures nodes[k].left == At(nodes, 2 * k + 1) && nodes[k].right == At(nodes, 2 * k + 2)
  {
  }

  lemma IsSmallestChild<T(!new)>(keys: seq<T>, cmp: (T, T) -> int, k: nat, c: nat)
    requires TotalPreorder(cmp) && 2 * k + 1 < |keys|
    requires if 2 * k + 2 < |keys| && cmp(keys[2 * k + 2], keys[2 * k + 1]) < 0 then c == 2 * k + 2 else c == 2 * k + 1
    ensures SmallestChild(keys, cmp, k, c)
  {
    assert cmp(keys[c], keys[c]) < 0 <==> cmp(keys[c], keys[c]) > 0;
    if 2 * k + 2 < |keys| {
      assert cmp(keys[2 * k + 2], keys[2 * k + 1]) < 0 <==> cmp(keys[2 * k + 1], keys[2 * k + 2]) > 0;
    }
  }

  lemma NoChild<T(!new)>(keys: seq<T>, cmp: (T, T) -> int, k: nat)
    requires TotalPreorder(cmp) && k < |keys| <= 2 * k + 1 && HeapExcept(keys, cmp, k) && Ordered(keys, cmp, k)
    ensures Heap(keys, cmp)
  {
    Repaired(keys, cmp, k);
  }

  lemma SmallestNotSmaller<T(!new)>(keys: seq<T>, cmp: (T, T) -> int, k: nat, c: nat)
    requires TotalPreorder(cmp) && k < |keys| && HeapExcept(keys, cmp, k) && Ordered(keys, cmp, k)
    requires SmallestChild(keys, cmp, k, c) && cmp(keys[k], keys[c]) <= 0
    ensures Heap(keys, cmp)
  {
    Repaired(keys, cmp, k);
  }

  twostate lemma CoordinatesRelinked<T>(nodes: seq<Node<T>>, new a: Node<T>, new b: Node<T>)
    requires a in nodes && b in nodes && old(CoordinateLinks(nodes))
    requires forall m {:trigger m.x} :: m in nodes ==> m.x == old(Other(a, b, m).x)
    requires forall m {:trigger m.y} :: m in nodes ==> m.y == old(Other(a, b, m).y)
    requires forall m :: m in Swapped(nodes, a, b) ==> m in nodes
    ensures CoordinateLinks(Swapped(nodes, a, b))
  {
    var s := Swapped(nodes, a, b);
    forall i | 0 <= i < |s|
      ensures Coordinates(i, s[i].x, s[i].y)
    {
      assert s[i] in s && Other(a, b, s[i]) == nodes[i];
      assert Coordinates(i, old(nodes[i].x), old(nodes[i].y));
    }
  }
}
