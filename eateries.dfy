/** Eatery records as the discovery code receives them from the backend's list
    endpoint, and the array operations of JavaScript that both the search bar
    and the recommendation tab use on lists of them. */
module Eateries {

  datatype Option<+T> = None | Some(value: T)

  /** One eatery record. `tags` is None when the field is absent or null,
      `pricing` is None when it is null. `rating` and `distance` are JavaScript
      numbers that the code only compares, so they are reals here; a distance of
      -1 means the distance is unknown. */
  datatype Eatery = Eatery(
    id: int,
    name: string,
    tags: Option<seq<string>>,
    pricing: Option<string>,
    rating: real,
    numReviews: int,
    distance: real)

  /** The sentinel the backend sends when it cannot compute a distance. */
  const UnknownDistance: real := -1.0

  /** The tags of `e`, with an absent field read as no tags. */
  function TagList(e: Eatery): seq<string>
  {
    if e.tags.Some? then e.tags.value else []
  }

  /** `Array.prototype.filter`: the elements satisfying `p`, in their order. */
  function Filter<T(!new)>(p: T -> bool, s: seq<T>): (r: seq<T>)
    ensures |r| <= |s|
    ensures forall x :: x in r <==> x in s && p(x)
  {
    if s == [] then []
    else if p(s[0]) then [s[0]] + Filter(p, s[1..])
    else Filter(p, s[1..])
  }

  /** The negation of a predicate, for the elements a filter drops. */
  function Not<T>(p: T -> bool): T -> bool
  {
    x => !p(x)
  }

  lemma {:induction false} FilterAppend<T(!new)>(p: T -> bool, a: seq<T>, b: seq<T>)
    ensures Filter(p, a + b) == Filter(p, a) + Filter(p, b)
  {
    if a == [] {
      assert a + b == b;
    } else {
      assert (a + b)[1..] == a[1..] + b;
      FilterAppend(p, a[1..], b);
    }
  }

  /** Adding one element at the end of the input adds it at the end of the
      output exactly when it passes. */
  lemma FilterSnoc<T(!new)>(p: T -> bool, a: seq<T>, x: T)
    ensures Filter(p, a + [x]) == if p(x) then Filter(p, a) + [x] else Filter(p, a)
  {
    FilterAppend(p, a, [x]);
    assert Filter(p, [x]) == if p(x) then [x] else [] by {
      assert [x][1..] == [];
    }
  }

  /** Adding one element at the front of the input adds it at the front of
      the output exactly when it passes. */
  lemma FilterCons<T(!new)>(p: T -> bool, x: T, t: seq<T>)
    ensures Filter(p, [x] + t) == (if p(x) then [x] else []) + Filter(p, t)
  {
    assert ([x] + t)[0] == x && ([x] + t)[1..] == t;
  }

  lemma {:induction false} FilterKeepsAll<T(!new)>(p: T -> bool, s: seq<T>)
    requires forall x :: x in s ==> p(x)
    ensures Filter(p, s) == s
  {
    if s != [] {
      FilterKeepsAll(p, s[1..]);
    }
  }

  lemma {:induction false} FilterDropsAll<T(!new)>(p: T -> bool, s: seq<T>)
    requires forall x :: x in s ==> !p(x)
    ensures Filter(p, s) == []
  {
    if s != [] {
      FilterDropsAll(p, s[1..]);
    }
  }

  /** A weaker predicate keeps at least the same elements. */
  lemma {:induction false} FilterMonotone<T(!new)>(p: T -> bool, q: T -> bool, s: seq<T>)
    requires forall x :: x in s && p(x) ==> q(x)
    ensures multiset(Filter(p, s)) <= multiset(Filter(q, s))
  {
    if s != [] {
      FilterMonotone(p, q, s[1..]);
    }
  }

  /** An element splits the input between the kept and the dropped part. */
  lemma {:induction false} FilterPartition<T(!new)>(p: T -> bool, s: seq<T>)
    ensures |Filter(p, s)| + |Filter(Not(p), s)| == |s|
  {
    if s != [] {
      FilterPartition(p, s[1..]);
    }
  }

  /** One pass of a loop that walks `cur` with index `i` and splices out the
      elements failing `p` (stepping `i` back after each splice): `cur[..i]`
      is the filtered part of the first `k` input elements and `cur[i..]` the
      input not looked at yet. Either branch of the pass keeps that so. */
  lemma SpliceLoopStep<T(!new)>(p: T -> bool, src: seq<T>, cur: seq<T>, i: int, k: int)
    requires 0 <= i < |cur| && 0 <= k <= |src|
    requires cur[..i] == Filter(p, src[..k]) && cur[i..] == src[k..]
    ensures k < |src| && cur[i] == src[k]
    ensures p(cur[i]) ==> cur[..i + 1] == Filter(p, src[..k + 1]) && cur[i + 1..] == src[k + 1..]
    ensures !p(cur[i]) ==>
              var c := SpliceOne(cur, i);
              c[..i] == Filter(p, src[..k + 1]) && c[i..] == src[k + 1..]
  {
    assert cur[i..][0] == cur[i];
    assert src[..k + 1] == src[..k] + [src[k]];
    FilterSnoc(p, src[..k], src[k]);
    assert cur[..i + 1] == cur[..i] + [cur[i]];
    assert cur[i + 1..] == cur[i..][1..];
  }

  /** A list collected alongside that loop: one more element looked at adds
      it when it passes `q`. */
  lemma CollectStep<T(!new)>(q: T -> bool, cur: seq<T>, i: int, acc: seq<T>)
    requires 0 <= i < |cur| && acc == Filter(q, cur[..i])
    ensures Filter(q, cur[..i + 1]) == if q(cur[i]) then acc + [cur[i]] else acc
  {
    assert cur[..i + 1] == cur[..i] + [cur[i]];
    FilterSnoc(q, cur[..i], cur[i]);
  }

  /** Splicing at `i` leaves what comes before `i` alone. */
  lemma SplicePrefix<T>(cur: seq<T>, i: int)
    requires 0 <= i < |cur|
    ensures SpliceOne(cur, i)[..i] == cur[..i]
  {
  }

  /** When the index reaches the end, the loop of `SpliceLoopStep` has
      computed the filter of its whole input. */
  lemma SpliceLoopDone<T(!new)>(p: T -> bool, src: seq<T>, cur: seq<T>, i: int, k: int)
    requires i == |cur| && 0 <= k <= |src|
    requires cur[..i] == Filter(p, src[..k]) && cur[i..] == src[k..]
    ensures cur == Filter(p, src)
  {
    assert cur[..i] == cur;
    assert src[..k] == src;
  }

  /** `Array.prototype.indexOf`: the first position holding `x`, or -1. */
  function IndexOf<T(==)>(s: seq<T>, x: T): (r: int)
    ensures -1 <= r < |s|
    ensures r == -1 <==> x !in s
    ensures 0 <= r ==> s[r] == x && x !in s[..r]
  {
    if s == [] then -1
    else if s[0] == x then 0
    else
      var k := IndexOf(s[1..], x);
      if k < 0 then -1 else k + 1
  }

  /** A position holding `x` with no `x` before it is the one `IndexOf` finds. */
  lemma IndexOfFirst<T>(s: seq<T>, x: T, r: int)
    requires 0 <= r < |s| && s[r] == x && x !in s[..r]
    ensures IndexOf(s, x) == r
  {
  }

  /** `s.splice(start, 1)` on a copy: a negative start counts from the end
      (and is clamped at 0), a start at or past the end removes nothing. */
  function SpliceOne<T>(s: seq<T>, start: int): (r: seq<T>)
    ensures 0 <= start < |s| ==> r == s[..start] + s[start + 1..]
    ensures start == -1 && s != [] ==> r == s[..|s| - 1]
    ensures start >= |s| ==> r == s
  {
    var k := if start < 0 then (if |s| + start < 0 then 0 else |s| + start)
             else (if start > |s| then |s| else start);
    if k < |s| then s[..k] + s[k + 1..] else s
  }
}
