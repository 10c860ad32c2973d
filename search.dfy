/** The search bar above the eatery list: keyword search over names and
    tags, a filter on the price tiers, a filter on the distance, and an
    optional sort, applied in this order when the diner presses Apply. */
module Search {
  import opened Eateries
  import opened Sorting

  /** `toLowerCase` on one character. Only the ASCII capitals are mapped. */
  function LowerChar(c: char): (r: char)
    ensures !('A' <= r <= 'Z')
    ensures 'A' <= c <= 'Z' ==> r as int == c as int + 32
    ensures !('A' <= c <= 'Z') ==> r == c
  {
    if 'A' <= c <= 'Z' then (c as int + 32) as char else c
  }

  /** `toLowerCase` on a string. */
  function Lower(s: string): (r: string)
    ensures |r| == |s|
    ensures forall c :: c in r ==> !('A' <= c <= 'Z')
    ensures forall i :: 0 <= i < |s| && !('A' <= s[i] <= 'Z') ==> r[i] == s[i]
  {
    seq(|s|, i requires 0 <= i < |s| => LowerChar(s[i]))
  }

  lemma LowerIdempotent(s: string)
    ensures Lower(Lower(s)) == Lower(s)
  {
  }

  /** `sub` stands in `s` from position `i` on. */
  predicate OccursAt(s: string, sub: string, i: int)
  {
    0 <= i && i + |sub| <= |s| && s[i..i + |sub|] == sub
  }

  /** `s.includes(sub)`: compare at the front, else search the rest. */
  function Includes(s: string, sub: string): (r: bool)
    ensures |sub| == 0 ==> r
    ensures r ==> |sub| <= |s|
    decreases |s|
  {
    if |sub| > |s| then false
    else s[..|sub|] == sub || Includes(s[1..], sub)
  }

  /** `includes` holds exactly when `sub` occurs somewhere in `s`; in
      particular the empty string occurs in every string. */
  lemma {:induction false} IncludesOccurs(s: string, sub: string)
    ensures Includes(s, sub) <==> exists i :: OccursAt(s, sub, i)
    decreases |s|
  {
    if |sub| <= |s| {
      if s[..|sub|] == sub {
        assert OccursAt(s, sub, 0);
      } else {
        IncludesOccurs(s[1..], sub);
        if Includes(s[1..], sub) {
          var i :| OccursAt(s[1..], sub, i);
          assert s[i + 1..i + 1 + |sub|] == s[1..][i..i + |sub|];
          assert OccursAt(s, sub, i + 1);
        }
        if exists i :: OccursAt(s, sub, i) {
          var i :| OccursAt(s, sub, i);
          assert i != 0;
          assert s[1..][i - 1..i - 1 + |sub|] == s[i..i + |sub|];
          assert OccursAt(s[1..], sub, i - 1);
        }
      }
    }
  }

  /** The test the inner `filter` applies to each tag: the lowercased tag
      contains the (already lowercased) keyword. */
  function TagContains(keyword: string): string -> bool
  {
    t => Includes(Lower(t), keyword)
  }

  /** Keyword `k` hits `e` when, ignoring case, it occurs in the name of `e`
      or in at least one of its tags. */
  predicate KeywordHit(e: Eatery, k: string)
  {
    Includes(Lower(e.name), Lower(k))
    || exists t :: t in TagList(e) && Includes(Lower(t), Lower(k))
  }

  /** Every keyword hits `e`: a conjunction over keywords of a disjunction
      over name and tags. */
  predicate Matches(e: Eatery, ks: seq<string>)
  {
    forall k :: k in ks ==> KeywordHit(e, k)
  }

  /** The test `matchSearch` makes for one keyword (no tag contains it and
      the name does not) is the negation of a hit. */
  lemma MissTest(e: Eatery, k: string)
    ensures ((e.tags.None? || |Filter(TagContains(Lower(k)), e.tags.value)| == 0)
             && !Includes(Lower(e.name), Lower(k)))
            <==> !KeywordHit(e, k)
  {
    if e.tags.Some? && |Filter(TagContains(Lower(k)), e.tags.value)| != 0 {
      var t := Filter(TagContains(Lower(k)), e.tags.value)[0];
      assert t in Filter(TagContains(Lower(k)), e.tags.value);
    }
  }

  lemma MatchesSnoc(e: Eatery, ks: seq<string>, k: string)
    ensures Matches(e, ks + [k]) <==> Matches(e, ks) && KeywordHit(e, k)
  {
    assert forall x :: x in ks + [k] <==> x in ks || x == k;
  }

  /** `matchSearch`: the flag starts true and is cleared by any keyword that
      neither a tag nor the name contains. */
  method MatchSearch(e: Eatery, filters: seq<string>) returns (ok: bool)
    ensures ok <==> Matches(e, filters)
  {
    ok := true;
    for n := 0 to |filters|
      invariant ok <==> Matches(e, filters[..n])
    {
      MissTest(e, filters[n]);
      MatchesSnoc(e, filters[..n], filters[n]);
      assert filters[..n + 1] == filters[..n] + [filters[n]];
      var filter := Lower(filters[n]);
      if (e.tags.None? || |Filter(TagContains(filter), e.tags.value)| == 0)
         && !Includes(Lower(e.name), filter)
      {
        ok := false;
      }
    }
    assert filters[..|filters|] == filters;
  }

  function MatchesAll(ks: seq<string>): Eatery -> bool
  {
    e => Matches(e, ks)
  }

  /** The pricing of `e` is one of the selected tiers; a null pricing never is. */
  predicate PriceAllowed(e: Eatery, priceFilters: seq<string>)
  {
    e.pricing.Some? && e.pricing.value in priceFilters
  }

  function PriceOk(priceFilters: seq<string>): Eatery -> bool
  {
    e => PriceAllowed(e, priceFilters)
  }

  /** The distance filter lets `e` through when no threshold is set, when the
      distance of `e` is unknown, or when it is at most the threshold. */
  predicate WithinDistance(e: Eatery, distFilter: Option<real>)
  {
    distFilter.None? || e.distance == UnknownDistance || e.distance <= distFilter.value
  }

  function DistanceOk(distFilter: Option<real>): Eatery -> bool
  {
    e => WithinDistance(e, distFilter)
  }

  /** What the three filters let through, in input order. */
  function Selected(eateries: seq<Eatery>, filters: seq<string>, priceFilters: seq<string>,
                    distFilter: Option<real>): seq<Eatery>
  {
    Filter(DistanceOk(distFilter), Filter(PriceOk(priceFilters), Filter(MatchesAll(filters), eateries)))
  }

  /** The sort chosen in the "Sort By" menu; any other value leaves the order. */
  function SortFor(sortBy: string, s: seq<Eatery>): seq<Eatery>
  {
    if sortBy == "price" then StableSort(ByPrice, s)
    else if sortBy == "rating" then StableSort(ByRating, s)
    else if sortBy == "distance" then StableSort(ByDistance, s)
    else s
  }

  /** The list the search bar shows. */
  function Searched(eateries: seq<Eatery>, filters: seq<string>, priceFilters: seq<string>,
                    distFilter: Option<real>, sortBy: string): seq<Eatery>
  {
    SortFor(sortBy, Selected(eateries, filters, priceFilters, distFilter))
  }

  /** The keyword step of `Apply`: with keywords, `forEach` over the input
      pushes every eatery `matchSearch` accepts. */
  method CollectMatches(eateries: seq<Eatery>, filters: seq<string>) returns (filtered: seq<Eatery>)
    ensures filtered == Filter(MatchesAll(filters), eateries)
  {
    filtered := [];
    for n := 0 to |eateries|
      invariant filtered == Filter(MatchesAll(filters), eateries[..n])
    {
      var hit := MatchSearch(eateries[n], filters);
      if hit {
        filtered := filtered + [eateries[n]];
      }
      assert eateries[..n + 1] == eateries[..n] + [eateries[n]];
      FilterSnoc(MatchesAll(filters), eateries[..n], eateries[n]);
    }
    assert eateries[..|eateries|] == eateries;
  }

  /** The price loop of `Apply`: splice out, in place, each eatery whose
      pricing is not among the selected tiers, stepping the index back. */
  method RemoveUnselectedPrices(list: seq<Eatery>, priceFilters: seq<string>) returns (filtered: seq<Eatery>)
    ensures filtered == Filter(PriceOk(priceFilters), list)
  {
    filtered := list;
    ghost var k := 0;
    var i := 0;
    while i < |filtered|
      invariant 0 <= i <= |filtered| && 0 <= k <= |list|
      invariant filtered[..i] == Filter(PriceOk(priceFilters), list[..k])
      invariant filtered[i..] == list[k..]
      decreases |filtered| - i
    {
      SpliceLoopStep(PriceOk(priceFilters), list, filtered, i, k);
      var eatery := filtered[i];
      if !(eatery.pricing.Some? && eatery.pricing.value in priceFilters) {
        filtered := SpliceOne(filtered, i);
        i := i - 1;
      }
      i := i + 1;
      k := k + 1;
    }
    SpliceLoopDone(PriceOk(priceFilters), list, filtered, i, k);
  }

  /** The distance loop of `Apply`: splice out each eatery whose known
      distance exceeds a set threshold. */
  method RemoveTooFar(list: seq<Eatery>, distFilter: Option<real>) returns (filtered: seq<Eatery>)
    ensures filtered == Filter(DistanceOk(distFilter), list)
  {
    filtered := list;
    ghost var k := 0;
    var i := 0;
    while i < |filtered|
      invariant 0 <= i <= |filtered| && 0 <= k <= |list|
      invariant filtered[..i] == Filter(DistanceOk(distFilter), list[..k])
      invariant filtered[i..] == list[k..]
      decreases |filtered| - i
    {
      SpliceLoopStep(DistanceOk(distFilter), list, filtered, i, k);
      var eatery := filtered[i];
      if distFilter.Some? && eatery.distance != UnknownDistance && distFilter.value < eatery.distance {
        filtered := SpliceOne(filtered, i);
        i := i - 1;
      }
      i := i + 1;
      k := k + 1;
    }
    SpliceLoopDone(DistanceOk(distFilter), list, filtered, i, k);
  }

  /** `Apply`: the keyword step (or a copy when there are no keywords), the
      price loop, the distance loop, then the chosen sort. The threshold
      `distFilter` is None for the empty form field and Some(d) for any other
      entry, "0" included. */
  method Apply(eateries: seq<Eatery>, filters: seq<string>, priceFilters: seq<string>,
               distFilter: Option<real>, sortBy: string) returns (shown: seq<Eatery>)
    ensures shown == Searched(eateries, filters, priceFilters, distFilter, sortBy)
  {
    // The deep copy: a sequence is a value, so the caller's list cannot change.
    var filtered := eateries;
    if |filters| > 0 {
      filtered := CollectMatches(eateries, filters);
    } else {
      FilterKeepsAll(MatchesAll(filters), eateries);
    }
    filtered := RemoveUnselectedPrices(filtered, priceFilters);
    filtered := RemoveTooFar(filtered, distFilter);
    if sortBy == "price" {
      filtered := StableSort(ByPrice, filtered);
    }
    if sortBy == "rating" {
      filtered := StableSort(ByRating, filtered);
    }
    if sortBy == "distance" {
      filtered := StableSort(ByDistance, filtered);
    }
    shown := filtered;
  }

  /** An eatery passes all three filters. */
  predicate Passes(e: Eatery, filters: seq<string>, priceFilters: seq<string>, distFilter: Option<real>)
  {
    Matches(e, filters) && PriceAllowed(e, priceFilters) && WithinDistance(e, distFilter)
  }

  function PassesAll(filters: seq<string>, priceFilters: seq<string>, distFilter: Option<real>): Eatery -> bool
  {
    e => Passes(e, filters, priceFilters, distFilter)
  }

  /** A keyword hits an eatery exactly when, lowercased, it occurs in the
      lowercased name or in some lowercased tag. */
  lemma KeywordHitOccurs(e: Eatery, k: string)
    ensures KeywordHit(e, k)
        <==> (exists i :: OccursAt(Lower(e.name), Lower(k), i))
             || exists t, i :: t in TagList(e) && OccursAt(Lower(t), Lower(k), i)
  {
    IncludesOccurs(Lower(e.name), Lower(k));
    forall t | t in TagList(e) {
      IncludesOccurs(Lower(t), Lower(k));
    }
  }

  /** An eatery without tags (absent or empty) is found only through its name. */
  lemma UntaggedMatchesByName(e: Eatery, k: string)
    requires e.tags.None? || e.tags == Some([])
    ensures KeywordHit(e, k) <==> exists i :: OccursAt(Lower(e.name), Lower(k), i)
  {
    KeywordHitOccurs(e, k);
  }

  /** The case of the keyword and of the name does not matter. */
  lemma KeywordCaseIgnored(e: Eatery, k: string)
    ensures KeywordHit(e, k) <==> KeywordHit(e, Lower(k))
    ensures KeywordHit(e, k) <==> KeywordHit(e.(name := Lower(e.name)), k)
  {
    LowerIdempotent(k);
    LowerIdempotent(e.name);
  }

  /** The three filters in a row are one filter by their conjunction, so the
      filtered list keeps input order. */
  lemma {:induction false} SelectedIsOneFilter(eateries: seq<Eatery>, filters: seq<string>,
                                               priceFilters: seq<string>, distFilter: Option<real>)
    ensures Selected(eateries, filters, priceFilters, distFilter)
         == Filter(PassesAll(filters, priceFilters, distFilter), eateries)
  {
    if eateries != [] {
      SelectedIsOneFilter(eateries[1..], filters, priceFilters, distFilter);
    }
  }

  /** The shown eateries are exactly the input eateries that pass all three
      filters, whatever the sort. */
  lemma SearchedMembers(eateries: seq<Eatery>, filters: seq<string>, priceFilters: seq<string>,
                        distFilter: Option<real>, sortBy: string, x: Eatery)
    ensures x in Searched(eateries, filters, priceFilters, distFilter, sortBy)
        <==> x in eateries && Matches(x, filters) && PriceAllowed(x, priceFilters)
             && WithinDistance(x, distFilter)
  {
    var sel := Selected(eateries, filters, priceFilters, distFilter);
    var r := SortFor(sortBy, sel);
    SelectedIsOneFilter(eateries, filters, priceFilters, distFilter);
    assert multiset(r) == multiset(sel);
    assert x in r <==> x in multiset(r);
    assert x in sel <==> x in multiset(sel);
    assert x in sel <==> x in eateries && PassesAll(filters, priceFilters, distFilter)(x);
  }

  /** With no sort chosen, the shown list is the order-preserving subsequence
      of the input passing all three filters. */
  lemma UnsortedIsFilter(eateries: seq<Eatery>, filters: seq<string>, priceFilters: seq<string>,
                         distFilter: Option<real>, sortBy: string)
    requires sortBy != "price" && sortBy != "rating" && sortBy != "distance"
    ensures Searched(eateries, filters, priceFilters, distFilter, sortBy)
         == Filter(PassesAll(filters, priceFilters, distFilter), eateries)
  {
    SelectedIsOneFilter(eateries, filters, priceFilters, distFilter);
  }

  /** No keywords, every pricing of the input selected, no threshold and no
      sort: the list is shown as it is. */
  lemma NoCriteriaShowsAll(eateries: seq<Eatery>, priceFilters: seq<string>)
    requires forall e :: e in eateries ==> PriceAllowed(e, priceFilters)
    ensures Searched(eateries, [], priceFilters, None, "none") == eateries
  {
    UnsortedIsFilter(eateries, [], priceFilters, None, "none");
    FilterKeepsAll(PassesAll([], priceFilters, None), eateries);
  }

  /** An empty selection of price tiers is not "no filter": nothing is shown. */
  lemma NoTierShowsNothing(eateries: seq<Eatery>, filters: seq<string>,
                           distFilter: Option<real>, sortBy: string)
    ensures Searched(eateries, filters, [], distFilter, sortBy) == []
  {
    SelectedIsOneFilter(eateries, filters, [], distFilter);
    FilterDropsAll(PassesAll(filters, [], distFilter), eateries);
  }

  /** Without a threshold the distance loop removes nothing. */
  lemma NoThresholdKeepsAll(eateries: seq<Eatery>, filters: seq<string>, priceFilters: seq<string>)
    ensures Selected(eateries, filters, priceFilters, None)
         == Filter(PriceOk(priceFilters), Filter(MatchesAll(filters), eateries))
  {
    FilterKeepsAll(DistanceOk(None), Filter(PriceOk(priceFilters), Filter(MatchesAll(filters), eateries)));
  }

  /** More keywords can only shrink the shown list. */
  lemma MoreKeywordsNarrow(eateries: seq<Eatery>, ks: seq<string>, more: seq<string>,
                           priceFilters: seq<string>, distFilter: Option<real>, sortBy: string)
    requires forall k :: k in ks ==> k in more
    ensures multiset(Searched(eateries, more, priceFilters, distFilter, sortBy))
         <= multiset(Searched(eateries, ks, priceFilters, distFilter, sortBy))
  {
    SelectedIsOneFilter(eateries, more, priceFilters, distFilter);
    SelectedIsOneFilter(eateries, ks, priceFilters, distFilter);
    FilterMonotone(PassesAll(more, priceFilters, distFilter), PassesAll(ks, priceFilters, distFilter), eateries);
  }

  /** Sorting neither adds nor drops an eatery, and leaves the pricing
      strings ascending, the ratings descending or the distances ascending
      (so the unknown distance -1 first), as chosen. */
  lemma SearchedOrder(eateries: seq<Eatery>, filters: seq<string>, priceFilters: seq<string>,
                      distFilter: Option<real>, sortBy: string)
    ensures var r := Searched(eateries, filters, priceFilters, distFilter, sortBy);
      && multiset(r) == multiset(Filter(PassesAll(filters, priceFilters, distFilter), eateries))
      && (sortBy == "price" ==> PricesAscending(r))
      && (sortBy == "rating" ==> RatingsDescending(r))
      && (sortBy == "distance" ==> DistancesAscending(r))
  {
    var sel := Selected(eateries, filters, priceFilters, distFilter);
    SelectedIsOneFilter(eateries, filters, priceFilters, distFilter);
    if sortBy == "price" {
      PriceSortAscending(sel);
    } else if sortBy == "rating" {
      RatingSortDescending(sel);
    } else if sortBy == "distance" {
      DistanceSortAscending(sel);
    }
  }
}
