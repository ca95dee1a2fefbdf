// Listing a finite set in ascending order.
module Sorting {

  // less orders the elements of s strictly and totally.
  ghost predicate Orders<T(!new)>(less: (T, T) -> bool, s: set<T>) {
    && (forall a | a in s :: !less(a, a))
    && (forall a, b | a in s && b in s && a != b :: less(a, b) || less(b, a))
    && (forall a, b, c | a in s && b in s && c in s && less(a, b) && less(b, c) :: less(a, c))
  }

  ghost predicate Ascending<T>(r: seq<T>, less: (T, T) -> bool) {
    forall i, j | 0 <= i < j < |r| :: less(r[i], r[j])
  }

  function Elements<T(==)>(r: seq<T>): set<T> { set x | x in r }

  method InsertInOrder<T(!new, ==)>(x: T, r: seq<T>, less: (T, T) -> bool, ghost s: set<T>) returns (r': seq<T>)
    requires Orders(less, s) && Ascending(r, less) && Elements(r) + {x} <= s && x !in r
    ensures Ascending(r', less) && Elements(r') == Elements(r) + {x}
  {
    var i := 0;
    while i < |r| && less(r[i], x)
      invariant i <= |r| && forall k | 0 <= k < i :: less(r[k], x)
    {
      i := i + 1;
    }
    SplicedInOrder(x, r, less, s, i);
    return r[..i] + [x] + r[i..];
  }

  lemma SplicedInOrder<T(!new)>(x: T, r: seq<T>, less: (T, T) -> bool, s: set<T>, i: nat)
    requires Orders(less, s) && Ascending(r, less) && Elements(r) + {x} <= s && x !in r
    requires i <= |r| && (forall k | 0 <= k < i :: less(r[k], x)) && (i < |r| ==> !less(r[i], x))
    ensures Ascending(r[..i] + [x] + r[i..], less) && Elements(r[..i] + [x] + r[i..]) == Elements(r) + {x}
  {
    assert r == r[..i] + r[i..];
    forall k | i <= k < |r|
      ensures less(x, r[k])
    {
      assert r[k] in Elements(r) && r[i] in Elements(r);
      assert r[i] in s && r[k] in s && x in s;
      assert less(x, r[i]);
    }
  }

  method SortSet<T(!new, ==)>(s: set<T>, less: (T, T) -> bool) returns (r: seq<T>)
    requires Orders(less, s)
    ensures Ascending(r, less) && Elements(r) == s
  {
    r := [];
    var rest := s;
    while rest != {}
      invariant rest <= s && Ascending(r, less) && Elements(r) == s - rest
      decreases rest
    {
      var x :| x in rest;
      assert x !in Elements(r);
      r := InsertInOrder(x, r, less, s);
      rest := rest - {x};
    }
  }

  // There is one such list.
  lemma {:induction false} AscendingUnique<T(!new)>(r: seq<T>, t: seq<T>, less: (T, T) -> bool, s: set<T>)
    requires Orders(less, s) && Ascending(r, less) && Ascending(t, less) && Elements(r) == Elements(t) <= s
    ensures r == t
  {
    NoElements(r);
    NoElements(t);
    if r != [] {
      SameLeast(r, t, less, s);
      TailElements(r, less, s);
      TailElements(t, less, s);
      AscendingUnique(r[1..], t[1..], less, s);
    }
  }

  lemma NoElements<T>(r: seq<T>)
    ensures Elements(r) == {} <==> r == []
  {
    assert r != [] ==> r[0] in Elements(r);
  }

  lemma SameLeast<T(!new)>(r: seq<T>, t: seq<T>, less: (T, T) -> bool, s: set<T>)
    requires Orders(less, s) && Ascending(r, less) && Ascending(t, less) && Elements(r) == Elements(t) <= s
    requires r != [] && t != []
    ensures r[0] == t[0]
  {
    FirstIsLeast(r, less, t[0]);
    FirstIsLeast(t, less, r[0]);
    assert r[0] in s && t[0] in s;
  }

  lemma FirstIsLeast<T>(r: seq<T>, less: (T, T) -> bool, x: T)
    requires Ascending(r, less) && r != []
    ensures r[0] in Elements(r)
    ensures x in Elements(r) ==> x == r[0] || less(r[0], x)
  {
  }

  lemma TailElements<T(!new)>(r: seq<T>, less: (T, T) -> bool, s: set<T>)
    requires Orders(less, s) && Ascending(r, less) && r != [] && Elements(r) <= s
    ensures Elements(r[1..]) == Elements(r) - {r[0]} && Ascending(r[1..], less)
  {
    assert r[0] in Elements(r);
    forall k | 1 <= k < |r|
      ensures r[k] != r[0]
    {
      assert less(r[0], r[k]);
    }
    assert r == [r[0]] + r[1..];
  }
}
