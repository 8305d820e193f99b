/** Filtering, and the stable sort that list.sort promises: what it keeps of the order it is given. */
module StableSort {

  function Filter<T>(s: seq<T>, p: T -> bool): (r: seq<T>)
    ensures |r| <= |s|
  {
    if s == [] then [] else if p(s[0]) then [s[0]] + Filter(s[1..], p) else Filter(s[1..], p)
  }

  /** x placed before the first element that is not less. */
  function Insert<T>(x: T, s: seq<T>, less: (T, T) -> bool): seq<T> {
    if s == [] || !less(s[0], x) then [x] + s else [s[0]] + Insert(x, s[1..], less)
  }

  function Sort<T>(s: seq<T>, less: (T, T) -> bool): seq<T> {
    if s == [] then [] else Insert(s[0], Sort(s[1..], less), less)
  }

  ghost predicate Ordered<T>(s: seq<T>, less: (T, T) -> bool) {
    forall i, j :: 0 <= i < j < |s| ==> !less(s[j], s[i])
  }

  ghost predicate WeakOrder<T(!new)>(less: (T, T) -> bool) {
    && (forall x, y :: less(x, y) ==> !less(y, x))
    && (forall x, y, z :: !less(y, x) && !less(z, y) ==> !less(z, x))
  }

  lemma FilterIn<T>(s: seq<T>, p: T -> bool, x: T)
    ensures x in Filter(s, p) <==> x in s && p(x)
  {
  }

  lemma {:induction false} FilterAppend<T>(a: seq<T>, b: seq<T>, p: T -> bool)
    ensures Filter(a + b, p) == Filter(a, p) + Filter(b, p)
  {
    if a == [] {
      assert a + b == b;
    } else {
      assert (a + b)[1..] == a[1..] + b;
      FilterAppend(a[1..], b, p);
    }
  }

  lemma {:induction false} InsertPermutes<T>(x: T, s: seq<T>, less: (T, T) -> bool)
    ensures multiset(Insert(x, s, less)) == multiset([x] + s)
  {
    if s != [] && less(s[0], x) {
      InsertPermutes(x, s[1..], less);
      assert s == [s[0]] + s[1..];
    }
  }

  lemma {:induction false} SortPermutes<T>(s: seq<T>, less: (T, T) -> bool)
    ensures multiset(Sort(s, less)) == multiset(s)
  {
    if s != [] {
      SortPermutes(s[1..], less);
      InsertPermutes(s[0], Sort(s[1..], less), less);
      assert s == [s[0]] + s[1..];
    }
  }

  lemma SortIn<T>(s: seq<T>, less: (T, T) -> bool, x: T)
    ensures x in Sort(s, less) <==> x in s
  {
    SortPermutes(s, less);
    assert x in multiset(s) <==> x in s;
    assert x in multiset(Sort(s, less)) <==> x in Sort(s, less);
  }

  lemma InsertIn<T>(x: T, s: seq<T>, less: (T, T) -> bool, y: T)
    requires y in Insert(x, s, less)
    ensures y == x || y in s
  {
  }

  lemma OrderedCons<T>(x: T, s: seq<T>, less: (T, T) -> bool)
    requires Ordered(s, less) && forall y :: y in s ==> !less(y, x)
    ensures Ordered([x] + s, less)
  {
  }

  lemma OrderedTail<T>(x: T, s: seq<T>, less: (T, T) -> bool)
    requires Ordered([x] + s, less)
    ensures Ordered(s, less) && forall y :: y in s ==> !less(y, x)
  {
    var all := [x] + s;
    forall i | 0 <= i < |s|
      ensures s[i] == all[i + 1] && !less(s[i], x)
    {
      assert !less(all[i + 1], all[0]);
    }
    forall i, j | 0 <= i < j < |s|
      ensures !less(s[j], s[i])
    {
      assert !less(all[j + 1], all[i + 1]);
    }
  }

  lemma {:induction false} InsertOrders<T(!new)>(x: T, s: seq<T>, less: (T, T) -> bool)
    requires WeakOrder(less) && Ordered(s, less)
    ensures Ordered(Insert(x, s, less), less)
  {
    if s == [] {
    } else if !less(s[0], x) {
      forall y | y in s
        ensures !less(y, x)
      {
        assert !less(y, s[0]);
      }
      OrderedCons(x, s, less);
    } else {
      InsertOrders(x, s[1..], less);
      forall y | y in Insert(x, s[1..], less)
        ensures !less(y, s[0])
      {
        InsertIn(x, s[1..], less, y);
      }
      OrderedCons(s[0], Insert(x, s[1..], less), less);
    }
  }

  lemma {:induction false} SortOrders<T(!new)>(s: seq<T>, less: (T, T) -> bool)
    requires WeakOrder(less)
    ensures Ordered(Sort(s, less), less)
  {
    if s != [] {
      SortOrders(s[1..], less);
      InsertOrders(s[0], Sort(s[1..], less), less);
    }
  }

  lemma {:induction false} FilterInsert<T>(x: T, s: seq<T>, less: (T, T) -> bool, p: T -> bool)
    requires p(x) ==> forall y :: y in s && p(y) ==> !less(y, x)
    ensures Filter(Insert(x, s, less), p) == if p(x) then [x] + Filter(s, p) else Filter(s, p)
  {
    if s == [] || !less(s[0], x) {
      assert ([x] + s)[1..] == s;
    } else {
      var rest := Insert(x, s[1..], less);
      assert ([s[0]] + rest)[1..] == rest;
      FilterInsert(x, s[1..], less, p);
    }
  }

  /** A part of the list that is in order already comes out of the sort as it went in. */
  lemma {:induction false} SortKeepsOrderedPart<T>(s: seq<T>, less: (T, T) -> bool, p: T -> bool)
    requires Ordered(Filter(s, p), less)
    ensures Filter(Sort(s, less), p) == Filter(s, p)
  {
    if s != [] {
      if p(s[0]) {
        OrderedTail(s[0], Filter(s[1..], p), less);
        forall y | y in Sort(s[1..], less) && p(y)
          ensures !less(y, s[0])
        {
          SortIn(s[1..], less, y);
          FilterIn(s[1..], p, y);
        }
      }
      SortKeepsOrderedPart(s[1..], less, p);
      FilterInsert(s[0], Sort(s[1..], less), less, p);
    }
  }

  lemma {:induction false} FilterOrdered<T>(s: seq<T>, less: (T, T) -> bool, p: T -> bool)
    requires Ordered(s, less)
    ensures Ordered(Filter(s, p), less)
  {
    if s != [] {
      FilterOrdered(s[1..], less, p);
      if p(s[0]) {
        forall y | y in Filter(s[1..], p)
          ensures !less(y, s[0])
        {
          FilterIn(s[1..], p, y);
        }
        OrderedCons(s[0], Filter(s[1..], p), less);
      }
    }
  }

  /** A part comes out as it went in exactly when it was in order. */
  lemma SortKeepsPartExactly<T(!new)>(s: seq<T>, less: (T, T) -> bool, p: T -> bool)
    requires WeakOrder(less)
    ensures Filter(Sort(s, less), p) == Filter(s, p) <==> Ordered(Filter(s, p), less)
  {
    SortOrders(s, less);
    FilterOrdered(Sort(s, less), less, p);
    if Ordered(Filter(s, p), less) {
      SortKeepsOrderedPart(s, less, p);
    }
  }

  lemma {:induction false} SameInsert<T>(x: T, s: seq<T>, less: (T, T) -> bool, less': (T, T) -> bool)
    requires forall y :: y in s ==> less(y, x) == less'(y, x)
    ensures Insert(x, s, less) == Insert(x, s, less')
  {
    if s != [] {
      SameInsert(x, s[1..], less, less');
    }
  }

  /** Two orders that agree on a list sort it alike. */
  lemma {:induction false} SameSort<T>(s: seq<T>, less: (T, T) -> bool, less': (T, T) -> bool)
    requires forall x, y :: x in s && y in s ==> less(y, x) == less'(y, x)
    ensures Sort(s, less) == Sort(s, less')
  {
    if s != [] {
      SameSort(s[1..], less, less');
      forall y | y in Sort(s[1..], less)
        ensures y in s
      {
        SortIn(s[1..], less, y);
      }
      SameInsert(s[0], Sort(s[1..], less), less, less');
    }
  }
}
