/** The stable sort that the service's list orderings rely on. */
module Sorting {

  ghost predicate TotalPreorder<T(!new)>(le: (T, T) -> bool) {
    && (forall x, y :: le(x, y) || le(y, x))
    && (forall x, y, z :: le(x, y) && le(y, z) ==> le(x, z))
  }

  predicate SortedBy<T>(xs: seq<T>, le: (T, T) -> bool) {
    forall i, j :: 0 <= i < j < |xs| ==> le(xs[i], xs[j])
  }

  /** Puts `x` behind everything that may stand before it, so equal elements keep their order. */
  function Insert<T>(xs: seq<T>, x: T, le: (T, T) -> bool): seq<T> {
    if xs == [] || le(xs[|xs| - 1], x) then xs + [x]
    else Insert(xs[..|xs| - 1], x, le) + [xs[|xs| - 1]]
  }

  function StableSort<T>(xs: seq<T>, le: (T, T) -> bool): seq<T> {
    if xs == [] then [] else Insert(StableSort(xs[..|xs| - 1], le), xs[|xs| - 1], le)
  }

  lemma {:induction false} InsertKeepsElements<T>(xs: seq<T>, x: T, le: (T, T) -> bool)
    ensures multiset(Insert(xs, x, le)) == multiset(xs) + multiset{x}
  {
    if !(xs == [] || le(xs[|xs| - 1], x)) {
      assert xs == xs[..|xs| - 1] + [xs[|xs| - 1]];
      InsertKeepsElements(xs[..|xs| - 1], x, le);
    }
  }

  lemma {:induction false} InsertKeepsOrder<T(!new)>(xs: seq<T>, x: T, le: (T, T) -> bool)
    requires TotalPreorder(le) && SortedBy(xs, le)
    ensures SortedBy(Insert(xs, x, le), le)
  {
    if !(xs == [] || le(xs[|xs| - 1], x)) {
      var init, last := xs[..|xs| - 1], xs[|xs| - 1];
      InsertKeepsOrder(init, x, le);
      InsertKeepsElements(init, x, le);
      var ys := Insert(init, x, le);
      forall i | 0 <= i < |ys| ensures le(ys[i], last) {
        assert ys[i] in multiset(ys);
        assert ys[i] in init || ys[i] == x;
      }
    } else {
      forall i | 0 <= i < |xs| ensures le(xs[i], x) {
        if i < |xs| - 1 { assert le(xs[i], xs[|xs| - 1]); }
      }
    }
  }

  /** Sorting neither loses nor invents an element, and the result is in order. */
  lemma {:induction false} SortIsOrderedPermutation<T(!new)>(xs: seq<T>, le: (T, T) -> bool)
    requires TotalPreorder(le)
    ensures multiset(StableSort(xs, le)) == multiset(xs)
    ensures SortedBy(StableSort(xs, le), le)
  {
    if xs != [] {
      var init := xs[..|xs| - 1];
      assert xs == init + [xs[|xs| - 1]];
      SortIsOrderedPermutation(init, le);
      InsertKeepsElements(StableSort(init, le), xs[|xs| - 1], le);
      InsertKeepsOrder(StableSort(init, le), xs[|xs| - 1], le);
    }
  }
}
