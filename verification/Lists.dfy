/** Doubly linked lists as sequences: selecting from one and unlinking an element. */
module Lists {
  function Filter<T>(s: seq<T>, p: T -> bool): (r: seq<T>)
    ensures forall x :: x in r ==> x in s && p(x)
    ensures forall x :: x in s && p(x) ==> x in r
    ensures |r| <= |s|
  {
    if s == [] then [] else (if p(s[0]) then [s[0]] else []) + Filter(s[1..], p)
  }

  /** AVAHI_LLIST_REMOVE of the first occurrence of x. */
  function Without<T(==)>(s: seq<T>, x: T): (r: seq<T>)
    ensures forall y :: y in r ==> y in s
    ensures forall y :: y in s && y != x ==> y in r
    ensures x in s ==> |r| == |s| - 1
    ensures x !in s ==> r == s
  {
    if s == [] then [] else if s[0] == x then s[1..] else [s[0]] + Without(s[1..], x)
  }

  predicate Distinct<T(==)>(s: seq<T>) {
    forall i, j :: 0 <= i < j < |s| ==> s[i] != s[j]
  }

  lemma FilterPrepend<T>(x: T, s: seq<T>, p: T -> bool)
    ensures Filter([x] + s, p) == if p(x) then [x] + Filter(s, p) else Filter(s, p)
  {
    assert ([x] + s)[1..] == s;
  }

  lemma WithoutPrepend<T>(h: T, s: seq<T>, x: T)
    ensures Without([h] + s, x) == if h == x then s else [h] + Without(s, x)
  {
    assert ([h] + s)[1..] == s;
  }

  lemma {:induction false} WithoutIsGone<T>(s: seq<T>, x: T)
    requires Distinct(s)
    ensures x !in Without(s, x) && Distinct(Without(s, x))
  {
    if s != [] {
      assert Distinct(s[1..]);
      if s[0] != x {
        WithoutIsGone(s[1..], x);
        assert s[0] !in s[1..];
        DistinctPrepend(s[0], Without(s[1..], x));
      }
    }
  }

  lemma DistinctPrepend<T>(h: T, s: seq<T>)
    requires Distinct(s) && h !in s
    ensures Distinct([h] + s)
  {
  }

  /** No two elements have the same identity. */
  ghost predicate Unique<T, K>(s: seq<T>, id: T -> K) {
    forall i, j :: 0 <= i < j < |s| ==> id(s[i]) != id(s[j])
  }

  /** Unlinking an element takes its identity away, and leaves the others alone. */
  lemma {:induction false} WithoutUnique<T, K>(s: seq<T>, x: T, id: T -> K)
    requires Unique(s, id)
    ensures Unique(Without(s, x), id) && x !in Without(s, x)
    ensures x in s ==> forall i :: 0 <= i < |Without(s, x)| ==> id(Without(s, x)[i]) != id(x)
  {
    if s != [] {
      var tail := s[1..];
      var rest := Without(tail, x);
      if s[0] != x {
        WithoutUnique(tail, x, id);
        forall j | 0 <= j < |rest|
          ensures id(s[0]) != id(rest[j])
        {
          assert rest[j] in tail;
        }
      }
    }
  }

  lemma {:induction false} FilterWithout<T>(s: seq<T>, x: T, p: T -> bool)
    ensures Filter(Without(s, x), p) == if p(x) then Without(Filter(s, p), x) else Filter(s, p)
  {
    hide Filter, Without;
    if s == [] {
      assert Without(s, x) == [] && Filter(s, p) == [];
    } else {
      var h, t := s[0], s[1..];
      assert s == [h] + t;
      FilterPrepend(h, t, p);
      WithoutPrepend(h, t, x);
      WithoutPrepend(h, Filter(t, p), x);
      if h != x {
        FilterWithout(t, x, p);
        FilterPrepend(h, Without(t, x), p);
      }
    }
  }

  lemma {:induction false} FilterDistinct<T>(s: seq<T>, p: T -> bool)
    requires Distinct(s)
    ensures Distinct(Filter(s, p))
  {
    if s != [] {
      assert Distinct(s[1..]);
      FilterDistinct(s[1..], p);
      assert s[0] !in s[1..];
    }
  }

  /** The order in which elements that were prepended one by one end up. */
  function Reversed<T>(s: seq<T>): (r: seq<T>)
    ensures |r| == |s|
    ensures forall x :: x in r ==> x in s
  {
    if s == [] then [] else Reversed(s[1..]) + [s[0]]
  }
}
