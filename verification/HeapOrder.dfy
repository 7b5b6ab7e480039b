/** Heap order on a level-order sequence of keys, and how exchanging a key with its parent repairs it. */
module HeapOrder {
  import opened PrioLinks

  /** What the queue asks of its compare function: signs that agree both ways round, and transitivity. */
  ghost predicate TotalPreorder<T(!new)>(cmp: (T, T) -> int) {
    && (forall a, b :: cmp(a, b) < 0 <==> cmp(b, a) > 0)
    && (forall a, b, c :: cmp(a, b) <= 0 && cmp(b, c) <= 0 ==> cmp(a, c) <= 0)
  }

  predicate Ordered<T>(keys: seq<T>, cmp: (T, T) -> int, i: nat)
    requires i < |keys|
  {
    i == 0 || cmp(keys[Parent(i)], keys[i]) <= 0
  }

  ghost predicate Heap<T>(keys: seq<T>, cmp: (T, T) -> int) {
    forall i {:trigger Ordered(keys, cmp, i)} :: 0 <= i < |keys| ==> Ordered(keys, cmp, i)
  }

  /** Heap order may be broken between position `k` and its parent or its children, and nowhere else. */
  ghost predicate HeapExcept<T>(keys: seq<T>, cmp: (T, T) -> int, k: nat)
    requires k < |keys|
  {
    && (forall i {:trigger Ordered(keys, cmp, i)} :: 0 <= i < |keys| && i != k && Parent(i) != k ==> Ordered(keys, cmp, i))
    && (forall i {:trigger Parent(i)} :: 0 < i < |keys| && Parent(i) == k && k > 0 ==> cmp(keys[Parent(k)], keys[i]) <= 0)
  }

  function Exchange<T>(keys: seq<T>, i: nat, j: nat): seq<T>
    requires i < |keys| && j < |keys|
  {
    keys[i := keys[j]][j := keys[i]]
  }

  /** Replacing one key leaves the heap broken there only. */
  lemma ReplacedKey<T(!new)>(keys: seq<T>, cmp: (T, T) -> int, k: nat, key: T)
    requires TotalPreorder(cmp) && Heap(keys, cmp) && k < |keys|
    ensures HeapExcept(keys[k := key], cmp, k)
  {
    var s := keys[k := key];
    forall i | 0 <= i < |s| && i != k && Parent(i) != k
      ensures Ordered(s, cmp, i)
    {
      assert Ordered(keys, cmp, i);
    }
    if k > 0 {
      forall i | 0 < i < |s| && Parent(i) == k
        ensures cmp(s[Parent(k)], s[i]) <= 0
      {
        assert Ordered(keys, cmp, i) && Ordered(keys, cmp, k);
      }
    }
  }

  /** Adding one key at the end leaves the heap broken there only. */
  lemma AppendedKey<T>(keys: seq<T>, cmp: (T, T) -> int, key: T)
    requires Heap(keys, cmp)
    ensures HeapExcept(keys + [key], cmp, |keys|)
  {
    var s := keys + [key];
    forall i | 0 <= i < |s| && i != |keys| && Parent(i) != |keys|
      ensures Ordered(s, cmp, i)
    {
      assert Ordered(keys, cmp, i);
    }
  }

  /** Dropping the last key keeps heap order elsewhere. */
  lemma DroppedKey<T>(keys: seq<T>, cmp: (T, T) -> int)
    requires keys != [] && Heap(keys, cmp)
    ensures Heap(keys[..|keys| - 1], cmp)
  {
    var s := keys[..|keys| - 1];
    forall i | 0 <= i < |s|
      ensures Ordered(s, cmp, i)
    {
      assert Ordered(keys, cmp, i);
    }
  }

  /** A key smaller than its parent moves up: then the heap is broken at most one level higher. */
  lemma SiftUp<T(!new)>(keys: seq<T>, cmp: (T, T) -> int, k: nat)
    requires TotalPreorder(cmp) && 0 < k < |keys| && HeapExcept(keys, cmp, k)
    requires cmp(keys[Parent(k)], keys[k]) > 0
    ensures HeapExcept(Exchange(keys, k, Parent(k)), cmp, Parent(k))
  {
    var p := Parent(k);
    var s := Exchange(keys, k, p);
    forall i | 0 <= i < |s| && i != p && Parent(i) != p
      ensures Ordered(s, cmp, i)
    {
      if Parent(i) != k {
        assert Ordered(keys, cmp, i);
      }
    }
    if p > 0 {
      assert Ordered(keys, cmp, p);
      forall i | 0 < i < |s| && Parent(i) == p
        ensures cmp(s[Parent(p)], s[i]) <= 0
      {
        if i != k {
          assert Ordered(keys, cmp, i);
        }
      }
    }
  }

  /** The smaller of the children of `k`, if it has any. */
  predicate SmallestChild<T>(keys: seq<T>, cmp: (T, T) -> int, k: nat, c: nat) {
    && 2 * k + 1 < |keys| && (c == 2 * k + 1 || c == 2 * k + 2) && c < |keys|
    && cmp(keys[c], keys[2 * k + 1]) <= 0
    && (2 * k + 2 < |keys| ==> cmp(keys[c], keys[2 * k + 2]) <= 0)
  }

  /** A key greater than its smallest child moves down: the heap is broken at most one level lower. */
  lemma SiftDown<T(!new)>(keys: seq<T>, cmp: (T, T) -> int, k: nat, c: nat)
    requires TotalPreorder(cmp) && k < |keys| && HeapExcept(keys, cmp, k)
    requires SmallestChild(keys, cmp, k, c) && cmp(keys[k], keys[c]) > 0
    ensures HeapExcept(Exchange(keys, k, c), cmp, c) && Ordered(Exchange(keys, k, c), cmp, c)
  {
    var s := Exchange(keys, k, c);
    ParentOfChild(k);
    assert Parent(c) == k;
    assert cmp(keys[c], keys[k]) < 0;
    forall i | 0 <= i < |s| && i != c && Parent(i) != c
      ensures Ordered(s, cmp, i)
    {
      if i == k {
        if k > 0 {
          assert cmp(keys[Parent(k)], keys[c]) <= 0;
        }
      } else if Parent(i) == k {
        if i > 0 {
          ParentOfChild(i);
        }
      } else {
        assert Ordered(keys, cmp, i);
      }
    }
    forall i | 0 < i < |s| && Parent(i) == c
      ensures cmp(s[Parent(c)], s[i]) <= 0
    {
      assert Ordered(keys, cmp, i);
    }
  }

  /** When the key at `k` is not smaller than its parent and not greater than its children, nothing is broken. */
  lemma Repaired<T(!new)>(keys: seq<T>, cmp: (T, T) -> int, k: nat)
    requires TotalPreorder(cmp) && k < |keys| && HeapExcept(keys, cmp, k) && Ordered(keys, cmp, k)
    requires 2 * k + 1 < |keys| ==> exists c: nat :: SmallestChild(keys, cmp, k, c) && cmp(keys[k], keys[c]) <= 0
    ensures Heap(keys, cmp)
  {
    forall i | 0 <= i < |keys|
      ensures Ordered(keys, cmp, i)
    {
      if i > 0 && Parent(i) == k {
        ParentOfChild(i);
        var c: nat :| SmallestChild(keys, cmp, k, c) && cmp(keys[k], keys[c]) <= 0;
      }
    }
  }

  /** A heap has a least key at its root. */
  lemma {:induction false} RootIsLeast<T(!new)>(keys: seq<T>, cmp: (T, T) -> int, i: nat)
    requires TotalPreorder(cmp) && Heap(keys, cmp) && i < |keys|
    ensures cmp(keys[0], keys[i]) <= 0
  {
    assert Ordered(keys, cmp, i);
    if i > 0 {
      RootIsLeast(keys, cmp, Parent(i));
    } else {
      assert cmp(keys[0], keys[0]) < 0 <==> cmp(keys[0], keys[0]) > 0;
    }
  }
}
