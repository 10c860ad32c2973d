/** The comparators that the search bar and the recommendation tab pass to
    `Array.prototype.sort`, and that sort itself. The language requires the
    sort to be stable; it is defined here as a stable insertion sort, and
    `StableSortUnique` shows that any sort with the same three properties
    (sorted, permutation, ties kept in input order) gives the same list. */
module Sorting {
  import opened Eateries

  /** JavaScript's `x < y` on two strings: lexicographic order of the
      character codes, a proper prefix coming first. */
  predicate StrLess(x: string, y: string): (r: bool)
    ensures r ==> x != y
    ensures x < y ==> r
  {
    if x == [] then y != []
    else y != [] && (x[0] < y[0] || (x[0] == y[0] && StrLess(x[1..], y[1..])))
  }

  lemma {:induction false} StrLessIrreflexive(x: string)
    ensures !StrLess(x, x)
  {
    if x != [] {
      StrLessIrreflexive(x[1..]);
    }
  }

  lemma {:induction false} StrLessTransitive(x: string, y: string, z: string)
    requires StrLess(x, y) && StrLess(y, z)
    ensures StrLess(x, z)
  {
    if x != [] && x[0] == y[0] == z[0] {
      StrLessTransitive(x[1..], y[1..], z[1..]);
    }
  }

  lemma {:induction false} StrLessTotal(x: string, y: string)
    ensures x == y || StrLess(x, y) || StrLess(y, x)
  {
    if x != [] && y != [] && x[0] == y[0] {
      StrLessTotal(x[1..], y[1..]);
      assert x == [x[0]] + x[1..] && y == [y[0]] + y[1..];
    }
  }

  lemma StrLessAsymmetric(x: string, y: string)
    requires StrLess(x, y)
    ensures !StrLess(y, x)
  {
    if StrLess(y, x) {
      StrLessTransitive(x, y, x);
      StrLessIrreflexive(x);
    }
  }

  /** The sort orders used by the discovery code. */
  datatype Order =
    | ByPrice     // pricing strings ascending ("$" before "$$" before "$$$")
    | ByRating    // rating descending
    | ByDistance  // distance ascending, so the unknown distance -1 comes first
    | ByReviews   // number of reviews descending

  /** The pricing string, or "" for a null pricing. The price sort only ever
      sees eateries that passed the price filter, whose pricing is not null. */
  function PriceKey(e: Eatery): string
  {
    if e.pricing.Some? then e.pricing.value else ""
  }

  /** The comparator handed to `sort`: -1 when `a` goes first, 1 when `b`
      goes first, 0 for a tie. */
  function Compare(o: Order, a: Eatery, b: Eatery): (r: int)
    ensures r == -1 || r == 0 || r == 1
  {
    match o
    case ByPrice =>
      var x, y := PriceKey(a), PriceKey(b);
      if StrLess(x, y) then -1 else if StrLess(y, x) then 1 else 0
    case ByRating =>
      var x, y := a.rating, b.rating;
      if x > y then -1 else if x < y then 1 else 0
    case ByDistance =>
      var x, y := a.distance, b.distance;
      if x < y then -1 else if x > y then 1 else 0
    case ByReviews =>
      var x, y := a.numReviews, b.numReviews;
      if x > y then -1 else if x < y then 1 else 0
  }

  /** `a` and `b` carry the same sort key under `o`. */
  predicate SameKey(o: Order, a: Eatery, b: Eatery)
  {
    match o
    case ByPrice => PriceKey(a) == PriceKey(b)
    case ByRating => a.rating == b.rating
    case ByDistance => a.distance == b.distance
    case ByReviews => a.numReviews == b.numReviews
  }

  /** The eateries whose key equals that of `e`. */
  function SameKeyAs(o: Order, e: Eatery): Eatery -> bool
  {
    x => SameKey(o, x, e)
  }

  /** The comparator reports a tie exactly for equal keys. */
  lemma CompareTie(o: Order, a: Eatery, b: Eatery)
    ensures Compare(o, a, b) == 0 <==> SameKey(o, a, b)
  {
    if o.ByPrice? {
      StrLessTotal(PriceKey(a), PriceKey(b));
      StrLessIrreflexive(PriceKey(a));
    }
  }

  /** Swapping the arguments negates the comparator. */
  lemma CompareFlip(o: Order, a: Eatery, b: Eatery)
    ensures Compare(o, b, a) == -Compare(o, a, b)
  {
    if o.ByPrice? && StrLess(PriceKey(a), PriceKey(b)) {
      StrLessAsymmetric(PriceKey(a), PriceKey(b));
    }
  }

  lemma CompareTransitive(o: Order, a: Eatery, b: Eatery, c: Eatery)
    requires Compare(o, a, b) <= 0 && Compare(o, b, c) <= 0
    ensures Compare(o, a, c) <= 0
  {
    if o.ByPrice? {
      var x, y, z := PriceKey(a), PriceKey(b), PriceKey(c);
      StrLessTotal(x, y);
      StrLessTotal(y, z);
      StrLessTotal(x, z);
      if StrLess(x, y) && StrLess(y, z) {
        StrLessTransitive(x, y, z);
      }
      if StrLess(z, x) {
        if x == y {
          StrLessAsymmetric(z, y);
        } else if y == z {
          StrLessAsymmetric(y, x);
        } else {
          StrLessTransitive(x, y, z);
          StrLessAsymmetric(x, z);
        }
      }
    }
  }

  /** No later element must come before an earlier one. */
  predicate Sorted(o: Order, s: seq<Eatery>)
  {
    forall i, j :: 0 <= i < j < |s| ==> Compare(o, s[i], s[j]) <= 0
  }

  /** Places `x` before the first element of `t` it does not have to follow,
      so before every element with the same key. */
  function Insert(o: Order, x: Eatery, t: seq<Eatery>): (r: seq<Eatery>)
    ensures multiset(r) == multiset(t) + multiset{x}
  {
    if t == [] then [x]
    else
      assert t == [t[0]] + t[1..];
      if Compare(o, x, t[0]) <= 0 then [x] + t
      else [t[0]] + Insert(o, x, t[1..])
  }

  /** `Array.prototype.sort` with the comparator of `o`. Each element goes in
      front of the sorted rest ahead of its ties, which keeps ties in input
      order. */
  function StableSort(o: Order, s: seq<Eatery>): (r: seq<Eatery>)
    ensures multiset(r) == multiset(s) && |r| == |s|
  {
    if s == [] then []
    else
      assert s == [s[0]] + s[1..];
      Insert(o, s[0], StableSort(o, s[1..]))
  }

  lemma SortedCons(o: Order, x: Eatery, t: seq<Eatery>)
    requires Sorted(o, t)
    requires forall y :: y in t ==> Compare(o, x, y) <= 0
    ensures Sorted(o, [x] + t)
  {
    var r := [x] + t;
    forall i, j | 0 <= i < j < |r|
      ensures Compare(o, r[i], r[j]) <= 0
    {
      assert r[j] == t[j - 1];
      if i > 0 {
        assert r[i] == t[i - 1];
      }
    }
  }

  lemma {:induction false} InsertKeepsSorted(o: Order, x: Eatery, t: seq<Eatery>)
    requires Sorted(o, t)
    ensures Sorted(o, Insert(o, x, t))
  {
    if t == [] {
    } else if Compare(o, x, t[0]) <= 0 {
      forall y | y in t
        ensures Compare(o, x, y) <= 0
      {
        if y != t[0] {
          var j :| 0 <= j < |t| && t[j] == y;
          CompareTransitive(o, x, t[0], y);
        }
      }
      SortedCons(o, x, t);
    } else {
      var rest := Insert(o, x, t[1..]);
      assert Sorted(o, t[1..]) by {
        forall i, j | 0 <= i < j < |t[1..]|
          ensures Compare(o, t[1..][i], t[1..][j]) <= 0
        {
          assert t[1..][i] == t[i + 1] && t[1..][j] == t[j + 1];
        }
      }
      InsertKeepsSorted(o, x, t[1..]);
      forall y | y in rest
        ensures Compare(o, t[0], y) <= 0
      {
        assert y in multiset(rest);
        if y == x {
          CompareFlip(o, x, t[0]);
        } else {
          assert y in multiset(t[1..]);
          var j :| 0 <= j < |t[1..]| && t[1..][j] == y;
          assert t[j + 1] == y;
        }
      }
      SortedCons(o, t[0], rest);
    }
  }

  /** The sort's output is in the comparator's order. */
  lemma {:induction false} SortSorted(o: Order, s: seq<Eatery>)
    ensures Sorted(o, StableSort(o, s))
  {
    if s != [] {
      SortSorted(o, s[1..]);
      InsertKeepsSorted(o, s[0], StableSort(o, s[1..]));
    }
  }

  /** Inserting `x` adds it to its own tie class, at the front, and changes
      no other tie class. */
  lemma {:induction false} InsertStable(o: Order, x: Eatery, t: seq<Eatery>, e: Eatery)
    ensures Filter(SameKeyAs(o, e), Insert(o, x, t))
         == (if SameKey(o, x, e) then [x] else []) + Filter(SameKeyAs(o, e), t)
  {
    if t == [] {
      assert Insert(o, x, t) == [x] + [];
      FilterCons(SameKeyAs(o, e), x, []);
    } else if Compare(o, x, t[0]) <= 0 {
      FilterCons(SameKeyAs(o, e), x, t);
    } else {
      InsertStable(o, x, t[1..], e);
      CompareTie(o, x, t[0]);
      assert Insert(o, x, t) == [t[0]] + Insert(o, x, t[1..]);
      assert t == [t[0]] + t[1..];
      FilterPassesOver(SameKeyAs(o, e), x, t[0], Insert(o, x, t[1..]), t[1..]);
    }
  }

  /** With `x` and `y` never both kept, putting `y` in front of a list whose
      filtered form has `x` in front of that of `u` is the same as putting it
      in front of `u`. */
  lemma FilterPassesOver(p: Eatery -> bool, x: Eatery, y: Eatery, rest: seq<Eatery>, u: seq<Eatery>)
    requires !(p(x) && p(y))
    requires Filter(p, rest) == (if p(x) then [x] else []) + Filter(p, u)
    ensures Filter(p, [y] + rest) == (if p(x) then [x] else []) + Filter(p, [y] + u)
  {
    FilterCons(p, y, rest);
    FilterCons(p, y, u);
  }

  /** Stability: every tie class keeps its input order. */
  lemma {:induction false} SortStable(o: Order, s: seq<Eatery>, e: Eatery)
    ensures Filter(SameKeyAs(o, e), StableSort(o, s)) == Filter(SameKeyAs(o, e), s)
  {
    if s != [] {
      SortStable(o, s[1..], e);
      InsertStable(o, s[0], StableSort(o, s[1..]), e);
      assert s == [s[0]] + s[1..];
      FilterCons(SameKeyAs(o, e), s[0], s[1..]);
    }
  }

  lemma SortedTail(o: Order, r: seq<Eatery>)
    requires Sorted(o, r) && r != []
    ensures Sorted(o, r[1..])
  {
    forall i, j | 0 <= i < j < |r[1..]|
      ensures Compare(o, r[1..][i], r[1..][j]) <= 0
    {
      assert r[1..][i] == r[i + 1] && r[1..][j] == r[j + 1];
    }
  }

  /** The head of a sorted list may precede each of its elements. */
  lemma SortedHeadFirst(o: Order, r: seq<Eatery>, y: Eatery)
    requires Sorted(o, r) && y in r
    ensures Compare(o, r[0], y) <= 0
  {
    var j :| 0 <= j < |r| && r[j] == y;
    if j == 0 {
      CompareTie(o, y, y);
    }
  }

  lemma HeadInOwnClass(o: Order, r: seq<Eatery>)
    requires r != []
    ensures r[0] in Filter(SameKeyAs(o, r[0]), r)
  {
    CompareTie(o, r[0], r[0]);
  }

  /** Two keys that may each precede the other are equal. */
  lemma MutualTie(o: Order, a: Eatery, b: Eatery)
    requires Compare(o, a, b) <= 0 && Compare(o, b, a) <= 0
    ensures SameKey(o, a, b)
  {
    CompareFlip(o, a, b);
    CompareTie(o, a, b);
  }

  /** Two non-empty sorted lists with the same tie classes start with equal
      keys. */
  lemma HeadsTie(o: Order, r1: seq<Eatery>, r2: seq<Eatery>)
    requires Sorted(o, r1) && Sorted(o, r2) && r1 != [] && r2 != []
    requires Filter(SameKeyAs(o, r1[0]), r1) == Filter(SameKeyAs(o, r1[0]), r2)
    requires Filter(SameKeyAs(o, r2[0]), r1) == Filter(SameKeyAs(o, r2[0]), r2)
    ensures SameKey(o, r1[0], r2[0])
  {
    HeadInOwnClass(o, r1);
    HeadInOwnClass(o, r2);
    assert r1[0] in r2 && r2[0] in r1;
    SortedHeadFirst(o, r2, r1[0]);
    SortedHeadFirst(o, r1, r2[0]);
    MutualTie(o, r1[0], r2[0]);
  }

  /** Two lists whose heads have equal keys, with the same class of that
      key, start alike. */
  lemma HeadsAgree(o: Order, r1: seq<Eatery>, r2: seq<Eatery>)
    requires r1 != [] && r2 != [] && SameKey(o, r1[0], r2[0])
    requires Filter(SameKeyAs(o, r1[0]), r1) == Filter(SameKeyAs(o, r1[0]), r2)
    ensures r1[0] == r2[0]
  {
    var a, b := r1[0], r2[0];
    assert SameKeyAs(o, a)(a) && SameKeyAs(o, a)(b);
    assert r1 == [a] + r1[1..] && r2 == [b] + r2[1..];
    FilterHeadsAgree(SameKeyAs(o, a), a, b, r1[1..], r2[1..]);
  }

  lemma FilterHeadsAgree(p: Eatery -> bool, a: Eatery, b: Eatery, u1: seq<Eatery>, u2: seq<Eatery>)
    requires p(a) && p(b) && Filter(p, [a] + u1) == Filter(p, [b] + u2)
    ensures a == b
  {
    FilterCons(p, a, u1);
    FilterCons(p, b, u2);
  }

  lemma FilterTailsAgree(p: Eatery -> bool, a: Eatery, u1: seq<Eatery>, u2: seq<Eatery>)
    requires Filter(p, [a] + u1) == Filter(p, [a] + u2)
    ensures Filter(p, u1) == Filter(p, u2)
  {
    FilterCons(p, a, u1);
    FilterCons(p, a, u2);
    if p(a) {
      assert Filter(p, u1) == Filter(p, [a] + u1)[1..];
    }
  }

  /** Two sorted lists with the same tie classes, each in the same order, are
      the same list. */
  lemma {:induction false} SortedTiesDetermine(o: Order, r1: seq<Eatery>, r2: seq<Eatery>)
    requires Sorted(o, r1) && Sorted(o, r2)
    requires forall e :: Filter(SameKeyAs(o, e), r1) == Filter(SameKeyAs(o, e), r2)
    ensures r1 == r2
    decreases |r1|
  {
    if r1 == [] || r2 == [] {
      var r := if r1 == [] then r2 else r1;
      if r != [] {
        HeadInOwnClass(o, r);
        assert false;
      }
    } else {
      HeadsTie(o, r1, r2);
      HeadsAgree(o, r1, r2);
      assert r1 == [r1[0]] + r1[1..] && r2 == [r1[0]] + r2[1..];
      forall e
        ensures Filter(SameKeyAs(o, e), r1[1..]) == Filter(SameKeyAs(o, e), r2[1..])
      {
        FilterTailsAgree(SameKeyAs(o, e), r1[0], r1[1..], r2[1..]);
      }
      SortedTail(o, r1);
      SortedTail(o, r2);
      SortedTiesDetermine(o, r1[1..], r2[1..]);
    }
  }

  /** Any sorted rearrangement of `s` that keeps every tie class in input
      order is the result of `StableSort`: the model does not depend on the
      sorting algorithm the JavaScript engine uses. */
  lemma StableSortUnique(o: Order, s: seq<Eatery>, r: seq<Eatery>)
    requires Sorted(o, r)
    requires forall e :: Filter(SameKeyAs(o, e), r) == Filter(SameKeyAs(o, e), s)
    ensures r == StableSort(o, s)
  {
    SortSorted(o, s);
    forall e
      ensures Filter(SameKeyAs(o, e), r) == Filter(SameKeyAs(o, e), StableSort(o, s))
    {
      SortStable(o, s, e);
    }
    SortedTiesDetermine(o, r, StableSort(o, s));
  }

  /** The pricing strings ascend in JavaScript's string order. */
  predicate PricesAscending(r: seq<Eatery>)
  {
    && (forall x :: x in r ==> x.pricing.Some?)
    && forall i, j :: 0 <= i < j < |r| ==> !StrLess(PriceKey(r[j]), PriceKey(r[i]))
  }

  predicate RatingsDescending(r: seq<Eatery>)
  {
    forall i, j :: 0 <= i < j < |r| ==> r[i].rating >= r[j].rating
  }

  predicate DistancesAscending(r: seq<Eatery>)
  {
    forall i, j :: 0 <= i < j < |r| ==> r[i].distance <= r[j].distance
  }

  predicate ReviewsDescending(r: seq<Eatery>)
  {
    forall i, j :: 0 <= i < j < |r| ==> r[i].numReviews >= r[j].numReviews
  }

  /** After the price sort the pricing strings ascend (for inputs without a
      null pricing, which the price filter guarantees). */
  lemma PriceSortAscending(s: seq<Eatery>)
    requires forall x :: x in s ==> x.pricing.Some?
    ensures PricesAscending(StableSort(ByPrice, s))
  {
    var r := StableSort(ByPrice, s);
    SortSorted(ByPrice, s);
    assert forall x :: x in r ==> x in multiset(s);
    forall i, j | 0 <= i < j < |r|
      ensures !StrLess(PriceKey(r[j]), PriceKey(r[i]))
    {
      PricePair(r[i], r[j]);
    }
  }

  lemma PricePair(a: Eatery, b: Eatery)
    requires Compare(ByPrice, a, b) <= 0
    ensures !StrLess(PriceKey(b), PriceKey(a))
  {
    if StrLess(PriceKey(a), PriceKey(b)) {
      StrLessAsymmetric(PriceKey(a), PriceKey(b));
    }
  }

  /** After the rating sort the ratings descend. */
  lemma RatingSortDescending(s: seq<Eatery>)
    ensures RatingsDescending(StableSort(ByRating, s))
  {
    SortSorted(ByRating, s);
  }

  /** After the distance sort the distances ascend, so the unknown distance
      -1 comes first. */
  lemma DistanceSortAscending(s: seq<Eatery>)
    ensures DistancesAscending(StableSort(ByDistance, s))
  {
    SortSorted(ByDistance, s);
  }

  /** After the sort by reviews the review counts descend. */
  lemma ReviewsSortDescending(s: seq<Eatery>)
    ensures ReviewsDescending(StableSort(ByReviews, s))
  {
    SortSorted(ByReviews, s);
  }
}
