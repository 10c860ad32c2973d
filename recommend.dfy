/** The "Recommended" tab of the eatery list page: the choice of at most six
    eateries for a diner from the names they visited, the ids they
    blacklisted and the tags they prefer; and the page state (tab, list
    shown, page count, page) that the tab switch and the search bar drive. */
module Recommend {
  import opened Eateries
  import opened Sorting
  import opened Search

  /** How many eateries the tab recommends at most. */
  const MaxRecommended := 6

  /** How many eatery cards one page of the list holds. */
  const PageSize := 12

  // ---------------------------------------------------------------------
  // Specification
  // ---------------------------------------------------------------------

  /** The diner visited the eatery (by name) or blacklisted it (by id). */
  predicate Excluded(e: Eatery, visited: seq<string>, blacklist: seq<int>)
  {
    e.name in visited || e.id in blacklist
  }

  function NotExcluded(visited: seq<string>, blacklist: seq<int>): Eatery -> bool
  {
    e => !Excluded(e, visited, blacklist)
  }

  /** Some preferred tag is, exactly and case-sensitively, one of the eatery's tags. */
  predicate SharesTag(e: Eatery, tags: seq<string>)
  {
    exists t :: t in tags && t in TagList(e)
  }

  /** The eateries the tag step keeps when it filters at all: with no
      preferred tags, every eatery. */
  function TagKept(tags: seq<string>): Eatery -> bool
  {
    e => |tags| == 0 || SharesTag(e, tags)
  }

  /** The eateries neither visited nor blacklisted, in their order. */
  function Candidates(eateries: seq<Eatery>, visited: seq<string>, blacklist: seq<int>): seq<Eatery>
  {
    Filter(NotExcluded(visited, blacklist), eateries)
  }

  /** The advisory tag step: the candidates sharing a preferred tag when there
      is one, otherwise every candidate. */
  function TagPreferred(pool: seq<Eatery>, tags: seq<string>): seq<Eatery>
  {
    if exists e :: e in pool && TagKept(tags)(e) then Filter(TagKept(tags), pool) else pool
  }

  /** The most reviewed eateries of the pool, at most six, most reviewed first. */
  function PopularCut(pool: seq<Eatery>): (r: seq<Eatery>)
    ensures |r| == if |pool| < MaxRecommended then |pool| else MaxRecommended
    ensures multiset(r) <= multiset(pool)
    ensures ReviewsDescending(r)
  {
    var s := StableSort(ByReviews, pool);
    ReviewsSortDescending(pool);
    if |s| >= MaxRecommended then
      assert s == s[..MaxRecommended] + s[MaxRecommended..];
      s[..MaxRecommended]
    else s
  }

  /** What the tab shows: the popular cut of the preferred candidates, best rated first. */
  function Recommended(eateries: seq<Eatery>, tags: seq<string>, visited: seq<string>,
                       blacklist: seq<int>): seq<Eatery>
  {
    StableSort(ByRating, PopularCut(TagPreferred(Candidates(eateries, visited, blacklist), tags)))
  }

  /** `Math.ceil(n / 12)`: the fewest pages of twelve that hold `n` cards. */
  function PageCount(n: nat): (r: nat)
    ensures r * PageSize >= n
    ensures r == 0 || (r - 1) * PageSize < n
  {
    (n + PageSize - 1) / PageSize
  }

  // ---------------------------------------------------------------------
  // The computation as the page performs it
  // ---------------------------------------------------------------------

  /** The inner loop over the preferred tags, which stops at the first one
      the eatery carries. */
  method ShareTags(e: Eatery, tags: seq<string>) returns (share: bool)
    ensures share <==> SharesTag(e, tags)
  {
    share := false;
    var j := 0;
    while j < |tags|
      invariant 0 <= j <= |tags|
      invariant !share
      invariant forall t :: t in tags[..j] ==> t !in TagList(e)
    {
      if e.tags.Some? && tags[j] in e.tags.value {
        assert tags[j] in tags && tags[j] in TagList(e);
        share := true;
        break;
      }
      assert tags[..j + 1] == tags[..j] + [tags[j]];
      j := j + 1;
    }
    assert !share ==> tags[..j] == tags;
  }

  /** The first loop: splices the visited and blacklisted eateries out of the
      copy (stepping the index back after each splice) and collects, when
      there are preferred tags, the remaining eateries that share none. */
  method SplitCandidates(eateries: seq<Eatery>, tags: seq<string>, visited: seq<string>,
                         blacklist: seq<int>) returns (temp: seq<Eatery>, toDelete: seq<Eatery>)
    ensures temp == Candidates(eateries, visited, blacklist)
    ensures toDelete == Filter(Not(TagKept(tags)), temp)
  {
    // The deep copy: a sequence is a value, so the caller's list cannot change.
    temp := eateries;
    toDelete := [];
    ghost var k := 0;
    var i := 0;
    while i < |temp|
      invariant 0 <= i <= |temp| && 0 <= k <= |eateries|
      invariant temp[..i] == Filter(NotExcluded(visited, blacklist), eateries[..k])
      invariant temp[i..] == eateries[k..]
      invariant toDelete == Filter(Not(TagKept(tags)), temp[..i])
      decreases |temp| - i
    {
      SpliceLoopStep(NotExcluded(visited, blacklist), eateries, temp, i, k);
      var eatery := temp[i];
      if eatery.name in visited {
        SplicePrefix(temp, i);
        temp := SpliceOne(temp, i);
        i := i - 1;
      } else if eatery.id in blacklist {
        SplicePrefix(temp, i);
        temp := SpliceOne(temp, i);
        i := i - 1;
      } else {
        CollectStep(Not(TagKept(tags)), temp, i, toDelete);
        if |tags| > 0 {
          var shareTags := ShareTags(eatery, tags);
          if !shareTags {
            toDelete := toDelete + [eatery];
          }
        }
      }
      i := i + 1;
      k := k + 1;
    }
    SpliceLoopDone(NotExcluded(visited, blacklist), eateries, temp, i, k);
    assert temp[..i] == temp;
  }

  /** The second loop: splices each collected eatery out of the list at the
      position `indexOf` finds for it. */
  method DropUnshared(candidates: seq<Eatery>, toDelete: seq<Eatery>, tags: seq<string>)
    returns (temp: seq<Eatery>)
    requires toDelete == Filter(Not(TagKept(tags)), candidates)
    ensures temp == Filter(TagKept(tags), candidates)
  {
    temp := candidates;
    ghost var pos := 0;
    assert candidates[..0] == [] && candidates[0..] == candidates;
    var i := 0;
    while i < |toDelete|
      invariant 0 <= i <= |toDelete| && 0 <= pos <= |candidates|
      invariant temp == Filter(TagKept(tags), candidates[..pos]) + candidates[pos..]
      invariant toDelete[i..] == Filter(Not(TagKept(tags)), candidates[pos..])
    {
      pos := DropStep(TagKept(tags), candidates, pos, temp, toDelete, i);
      temp := SpliceOne(temp, IndexOf(temp, toDelete[i]));
      i := i + 1;
    }
    DropDone(TagKept(tags), candidates, pos);
  }

  /** `CalculateRecommended`: exclusion, the advisory tag step, the six most
      reviewed, then the order by rating. */
  method CalculateRecommended(eateries: seq<Eatery>, tags: seq<string>, visited: seq<string>,
                              blacklist: seq<int>) returns (shown: seq<Eatery>)
    ensures shown == Recommended(eateries, tags, visited, blacklist)
  {
    var temp, toDelete := SplitCandidates(eateries, tags, visited, blacklist);
    ghost var candidates := temp;
    if |toDelete| < |temp| {
      temp := DropUnshared(temp, toDelete, tags);
    }
    SomeKeptGuard(TagKept(tags), candidates);
    assert temp == TagPreferred(candidates, tags);
    temp := StableSort(ByReviews, temp);
    if |temp| >= MaxRecommended {
      temp := temp[..MaxRecommended];
    }
    temp := StableSort(ByRating, temp);
    shown := temp;
  }

  // ---------------------------------------------------------------------
  // Lemmas for the loops
  // ---------------------------------------------------------------------

  /** The first position at or after `pos` whose element fails `p`. */
  lemma {:induction false} FirstFailing(p: Eatery -> bool, c: seq<Eatery>, pos: int) returns (f: int)
    requires 0 <= pos <= |c|
    requires Filter(Not(p), c[pos..]) != []
    ensures pos <= f < |c| && !p(c[f])
    ensures forall j :: pos <= j < f ==> p(c[j])
    decreases |c| - pos
  {
    assert c[pos..][0] == c[pos] && c[pos..][1..] == c[pos + 1..];
    if !p(c[pos]) {
      f := pos;
    } else {
      f := FirstFailing(p, c, pos + 1);
    }
  }

  /** The filter of a stretch starts with its first failing element. */
  lemma DroppedHead(p: Eatery -> bool, c: seq<Eatery>, pos: int, f: int)
    requires 0 <= pos <= f < |c| && !p(c[f])
    requires forall j :: pos <= j < f ==> p(c[j])
    ensures Filter(Not(p), c[pos..]) == [c[f]] + Filter(Not(p), c[f + 1..])
    ensures Filter(p, c[..f + 1]) == Filter(p, c[..pos]) + c[pos..f]
  {
    assert c[pos..] == c[pos..f] + ([c[f]] + c[f + 1..]);
    FilterKeepsAll(p, c[pos..f]);
    FilterDropsAll(Not(p), c[pos..f]);
    FilterAppend(Not(p), c[pos..f], [c[f]] + c[f + 1..]);
    assert ([c[f]] + c[f + 1..])[1..] == c[f + 1..];
    assert c[..f + 1] == c[..pos] + c[pos..f] + [c[f]];
    FilterAppend(p, c[..pos] + c[pos..f], [c[f]]);
    FilterAppend(p, c[..pos], c[pos..f]);
    assert [c[f]][1..] == [];
  }

  /** `indexOf` in the partly filtered list lands on the first failing element. */
  lemma FoundAt(p: Eatery -> bool, c: seq<Eatery>, pos: int, f: int, temp: seq<Eatery>)
    requires 0 <= pos <= f < |c| && !p(c[f])
    requires forall j :: pos <= j < f ==> p(c[j])
    requires temp == Filter(p, c[..pos]) + c[pos..]
    ensures IndexOf(temp, c[f]) == |Filter(p, c[..pos])| + (f - pos)
  {
    var a := Filter(p, c[..pos]);
    var r := |a| + (f - pos);
    assert temp[r] == c[f];
    assert temp[..r] == a + c[pos..f];
    assert c[f] !in temp[..r];
    IndexOfFirst(temp, c[f], r);
  }

  /** One pass of the second loop: `pos` moves just past the element that
      the pass removes. */
  lemma DropStep(p: Eatery -> bool, c: seq<Eatery>, pos: int, temp: seq<Eatery>,
                 td: seq<Eatery>, i: int) returns (q: int)
    requires 0 <= pos <= |c| && 0 <= i < |td|
    requires temp == Filter(p, c[..pos]) + c[pos..]
    requires td[i..] == Filter(Not(p), c[pos..])
    ensures pos < q <= |c|
    ensures SpliceOne(temp, IndexOf(temp, td[i])) == Filter(p, c[..q]) + c[q..]
    ensures td[i + 1..] == Filter(Not(p), c[q..])
  {
    var f := FirstFailing(p, c, pos);
    q := f + 1;
    DropAt(p, c, pos, f, q, temp, td, i);
  }

  /** The same pass, once the element it removes is known to sit at `f`. */
  lemma DropAt(p: Eatery -> bool, c: seq<Eatery>, pos: int, f: int, q: int, temp: seq<Eatery>,
               td: seq<Eatery>, i: int)
    requires 0 <= pos <= f < |c| && q == f + 1 && !p(c[f]) && 0 <= i < |td|
    requires forall j :: pos <= j < f ==> p(c[j])
    requires temp == Filter(p, c[..pos]) + c[pos..]
    requires td[i..] == Filter(Not(p), c[pos..])
    ensures SpliceOne(temp, IndexOf(temp, td[i])) == Filter(p, c[..q]) + c[q..]
    ensures td[i + 1..] == Filter(Not(p), c[q..])
  {
    DroppedHead(p, c, pos, f);
    HeadAndRest(td, i, c[f], Filter(Not(p), c[f + 1..]));
    var a := Filter(p, c[..pos]);
    FoundAt(p, c, pos, f, temp);
    SpliceFound(a, c, pos, f, temp);
  }

  lemma HeadAndRest(td: seq<Eatery>, i: int, x: Eatery, rest: seq<Eatery>)
    requires 0 <= i < |td| && td[i..] == [x] + rest
    ensures td[i] == x && td[i + 1..] == rest
  {
    assert td[i..][0] == td[i] && td[i..][1..] == td[i + 1..];
  }

  lemma SpliceFound(a: seq<Eatery>, c: seq<Eatery>, pos: int, f: int, temp: seq<Eatery>)
    requires 0 <= pos <= f < |c| && temp == a + c[pos..]
    ensures SpliceOne(temp, |a| + (f - pos)) == a + c[pos..f] + c[f + 1..]
  {
    var r := |a| + (f - pos);
    assert temp[..r] == a + c[pos..f];
    assert temp[r + 1..] == c[f + 1..];
  }

  /** When nothing failing is left, the second loop has computed the filter. */
  lemma DropDone(p: Eatery -> bool, c: seq<Eatery>, pos: int)
    requires 0 <= pos <= |c|
    requires Filter(Not(p), c[pos..]) == []
    ensures Filter(p, c[..pos]) + c[pos..] == Filter(p, c)
  {
    assert forall x :: x in c[pos..] ==> p(x) by {
      forall x | x in c[pos..] ensures p(x) {
        assert x !in Filter(Not(p), c[pos..]);
      }
    }
    FilterKeepsAll(p, c[pos..]);
    assert c == c[..pos] + c[pos..];
    FilterAppend(p, c[..pos], c[pos..]);
  }

  /** The guard before the second loop: fewer collected than listed means
      that some listed eatery passes. */
  lemma SomeKeptGuard(p: Eatery -> bool, c: seq<Eatery>)
    ensures |Filter(Not(p), c)| < |c| <==> exists e :: e in c && p(e)
  {
    FilterPartition(p, c);
    if exists e :: e in c && p(e) {
      var e :| e in c && p(e);
      assert e in Filter(p, c);
    }
    if |Filter(p, c)| > 0 {
      assert Filter(p, c)[0] in Filter(p, c);
    }
  }

  // ---------------------------------------------------------------------
  // What the recommendation promises
  // ---------------------------------------------------------------------

  /** The tag step only keeps eateries of the pool. */
  lemma PreferredFromPool(pool: seq<Eatery>, tags: seq<string>)
    ensures multiset(TagPreferred(pool, tags)) <= multiset(pool)
  {
    FilterMonotone(TagKept(tags), _ => true, pool);
    FilterKeepsAll(_ => true, pool);
  }

  /** Every recommended eatery comes from the input, was not visited and is
      not blacklisted; and when some candidate shares a preferred tag, every
      recommended eatery does. */
  lemma RecommendedMembers(eateries: seq<Eatery>, tags: seq<string>, visited: seq<string>,
                           blacklist: seq<int>, x: Eatery)
    requires x in Recommended(eateries, tags, visited, blacklist)
    ensures x in eateries && x.name !in visited && x.id !in blacklist
    ensures (exists e :: e in Candidates(eateries, visited, blacklist) && SharesTag(e, tags)) ==>
              SharesTag(x, tags)
  {
    var c := Candidates(eateries, visited, blacklist);
    var p := TagPreferred(c, tags);
    PreferredFromPool(c, tags);
    assert x in multiset(PopularCut(p));
    assert x in p;
    if exists e :: e in c && SharesTag(e, tags) {
      var e :| e in c && SharesTag(e, tags);
      assert TagKept(tags)(e);
    }
  }

  /** The advisory tag step, case by case. */
  lemma SharedTagsOnly(pool: seq<Eatery>, tags: seq<string>)
    requires exists e :: e in pool && SharesTag(e, tags)
    ensures forall x :: x in TagPreferred(pool, tags) ==> SharesTag(x, tags)
  {
    var e :| e in pool && SharesTag(e, tags);
    assert TagKept(tags)(e);
    assert |tags| > 0;
  }

  lemma NoSharedTagKeepsAll(pool: seq<Eatery>, tags: seq<string>)
    requires forall e :: e in pool ==> !SharesTag(e, tags)
    ensures TagPreferred(pool, tags) == pool
  {
    if exists e :: e in pool && TagKept(tags)(e) {
      FilterKeepsAll(TagKept(tags), pool);
    }
  }

  lemma NoTagsKeepsAll(pool: seq<Eatery>, tags: seq<string>)
    requires |tags| == 0
    ensures TagPreferred(pool, tags) == pool
  {
    FilterKeepsAll(TagKept(tags), pool);
  }

  /** The tag step never empties a pool that has an eatery. */
  lemma PreferredNonEmpty(pool: seq<Eatery>, tags: seq<string>)
    requires pool != []
    ensures TagPreferred(pool, tags) != []
  {
    if exists e :: e in pool && TagKept(tags)(e) {
      var e :| e in pool && TagKept(tags)(e);
      assert e in Filter(TagKept(tags), pool);
    }
  }

  /** Six eateries are shown, or every preferred candidate when there are fewer. */
  lemma RecommendedSize(eateries: seq<Eatery>, tags: seq<string>, visited: seq<string>,
                        blacklist: seq<int>)
    ensures var n := |TagPreferred(Candidates(eateries, visited, blacklist), tags)|;
            |Recommended(eateries, tags, visited, blacklist)| == if n < MaxRecommended then n else MaxRecommended
  {
  }

  /** The cut keeps the most reviewed: a preferred candidate left out has no
      more reviews than any eatery shown. */
  lemma RecommendedTopReviews(eateries: seq<Eatery>, tags: seq<string>, visited: seq<string>,
                              blacklist: seq<int>)
    ensures var p := TagPreferred(Candidates(eateries, visited, blacklist), tags);
            var r := Recommended(eateries, tags, visited, blacklist);
            forall x, y :: x in p && x !in r && y in r ==> x.numReviews <= y.numReviews
  {
    var p := TagPreferred(Candidates(eateries, visited, blacklist), tags);
    var s := StableSort(ByReviews, p);
    var cut := PopularCut(p);
    var r := Recommended(eateries, tags, visited, blacklist);
    ReviewsSortDescending(p);
    assert multiset(r) == multiset(cut);
    forall x, y | x in p && x !in r && y in r
      ensures x.numReviews <= y.numReviews
    {
      assert x !in cut by {
        assert x !in multiset(r);
      }
      assert y in cut by {
        assert y in multiset(r);
      }
      assert x in s by {
        assert x in multiset(s);
      }
      CutKeepsMost(s, x, y);
    }
  }

  /** In a list ordered by reviews, an eatery outside the first six has no
      more reviews than one inside. */
  lemma CutKeepsMost(s: seq<Eatery>, x: Eatery, y: Eatery)
    requires ReviewsDescending(s) && x in s
    requires var cut := if |s| >= MaxRecommended then s[..MaxRecommended] else s;
             x !in cut && y in cut
    ensures x.numReviews <= y.numReviews
  {
    var a :| 0 <= a < |s| && s[a] == x;
    var b :| 0 <= b < MaxRecommended && s[b] == y;
  }

  /** The list shown is ordered by rating, best first, and holds exactly the
      eateries of the popular cut. */
  lemma RecommendedOrder(eateries: seq<Eatery>, tags: seq<string>, visited: seq<string>,
                         blacklist: seq<int>)
    ensures RatingsDescending(Recommended(eateries, tags, visited, blacklist))
    ensures multiset(Recommended(eateries, tags, visited, blacklist)) ==
            multiset(PopularCut(TagPreferred(Candidates(eateries, visited, blacklist), tags)))
  {
    RatingSortDescending(PopularCut(TagPreferred(Candidates(eateries, visited, blacklist), tags)));
  }

  /** Among eateries of equal rating the sort by rating keeps the order by
      reviews, so of two equally rated eateries the more reviewed comes first. */
  lemma RecommendedTiesByReviews(eateries: seq<Eatery>, tags: seq<string>, visited: seq<string>,
                                 blacklist: seq<int>, e: Eatery)
    ensures ReviewsDescending(Filter(SameKeyAs(ByRating, e), Recommended(eateries, tags, visited, blacklist)))
  {
    var p := TagPreferred(Candidates(eateries, visited, blacklist), tags);
    SortStable(ByRating, PopularCut(p), e);
    FilterReviewsDescending(SameKeyAs(ByRating, e), PopularCut(p));
  }

  /** A filter keeps a list ordered by reviews. */
  lemma {:induction false} FilterReviewsDescending(p: Eatery -> bool, s: seq<Eatery>)
    requires ReviewsDescending(s)
    ensures ReviewsDescending(Filter(p, s))
  {
    if s != [] {
      var t := Filter(p, s[1..]);
      assert ReviewsDescending(s[1..]) by {
        forall i, j | 0 <= i < j < |s[1..]|
          ensures s[1..][i].numReviews >= s[1..][j].numReviews
        {
          assert s[1..][i] == s[i + 1] && s[1..][j] == s[j + 1];
        }
      }
      FilterReviewsDescending(p, s[1..]);
      if p(s[0]) {
        var r := [s[0]] + t;
        forall i, j | 0 <= i < j < |r|
          ensures r[i].numReviews >= r[j].numReviews
        {
          if i == 0 {
            assert r[j] in s[1..];
            var k :| 0 <= k < |s[1..]| && s[1..][k] == r[j];
            assert s[k + 1] == r[j];
          } else {
            assert r[i] == t[i - 1] && r[j] == t[j - 1];
          }
        }
      }
    }
  }

  /** With no candidate there is nothing to recommend; with one there is
      something. */
  lemma RecommendedEmpty(eateries: seq<Eatery>, tags: seq<string>, visited: seq<string>,
                         blacklist: seq<int>)
    ensures Recommended(eateries, tags, visited, blacklist) == [] <==>
            Candidates(eateries, visited, blacklist) == []
  {
    var c := Candidates(eateries, visited, blacklist);
    RecommendedSize(eateries, tags, visited, blacklist);
    if c != [] {
      PreferredNonEmpty(c, tags);
    }
  }

  /** Every card has a page: the card at index `k` is on page `k / 12 + 1`. */
  lemma PagesCoverList(n: nat, k: nat)
    requires k < n
    ensures k / PageSize + 1 <= PageCount(n)
  {
  }

  // ---------------------------------------------------------------------
  // The page
  // ---------------------------------------------------------------------

  /** The state of the eatery list page. `showingAll` records that the list
      shown is the fetched array itself rather than a fresh array, which
      decides whether setting it again re-runs the page-count effect. */
  class EateryList {
    var eateries: seq<Eatery>
    var tab: string
    var showEateries: seq<Eatery>
    var showingAll: bool
    var pageCount: nat
    var page: int
    var tags: seq<string>
    var visited: seq<string>
    var blacklist: seq<int>

    /** The page count always matches the list shown. */
    predicate Valid()
      reads this
    {
      pageCount == PageCount(|showEateries|) && (showingAll ==> showEateries == eateries)
    }

    /** The page once the eateries and the diner's profile have been fetched:
        both lists hold the fetched eateries, the "All" tab is open and the
        page-count effect has run. */
    constructor Loaded(eateries: seq<Eatery>, tags: seq<string>, visited: seq<string>,
                       blacklist: seq<int>)
      ensures Valid()
      ensures this.eateries == eateries && this.tags == tags
      ensures this.visited == visited && this.blacklist == blacklist
      ensures tab == "1" && showEateries == eateries && showingAll && page == 1
    {
      this.eateries := eateries;
      this.tags := tags;
      this.visited := visited;
      this.blacklist := blacklist;
      tab := "1";
      showEateries := eateries;
      showingAll := true;
      pageCount := PageCount(|eateries|);
      page := 1;
    }

    /** Setting a new array to show, and the effect that this triggers:
        recount the pages and go back to the first. */
    method Show(list: seq<Eatery>, all: bool)
      requires all ==> list == eateries
      modifies this
      ensures Valid()
      ensures showEateries == list && showingAll == all && page == 1
      ensures eateries == old(eateries) && tab == old(tab) && tags == old(tags)
      ensures visited == old(visited) && blacklist == old(blacklist)
    {
      showEateries := list;
      showingAll := all;
      pageCount := PageCount(|list|);
      page := 1;
    }

    /** `handleTabChange`: tab "2" shows the recommendation, any other tab
        the fetched eateries themselves. Setting the fetched array while it
        is already shown changes nothing, so the page is kept then. */
    method HandleTabChange(newValue: string)
      requires Valid()
      modifies this
      ensures Valid()
      ensures tab == newValue
      ensures newValue == "2" ==>
                showEateries == Recommended(eateries, tags, visited, blacklist) && !showingAll && page == 1
      ensures newValue != "2" ==> showEateries == eateries && showingAll
      ensures newValue != "2" ==> page == if old(showingAll) then old(page) else 1
      ensures eateries == old(eateries) && tags == old(tags)
      ensures visited == old(visited) && blacklist == old(blacklist)
    {
      tab := newValue;
      if newValue == "2" {
        var r := CalculateRecommended(eateries, tags, visited, blacklist);
        Show(r, false);
      } else if !showingAll {
        Show(eateries, true);
      }
    }

    /** `handlePageChange`: the pagination control picks a page. */
    method HandlePageChange(value: int)
      requires Valid()
      modifies this
      ensures Valid()
      ensures page == value
      ensures eateries == old(eateries) && tab == old(tab) && showEateries == old(showEateries)
      ensures showingAll == old(showingAll) && pageCount == old(pageCount)
      ensures tags == old(tags) && visited == old(visited) && blacklist == old(blacklist)
    {
      page := value;
    }

    /** The search bar's Apply, which sets a fresh array to show. */
    method ApplySearch(filters: seq<string>, priceFilters: seq<string>, distFilter: Option<real>,
                       sortBy: string)
      requires Valid()
      modifies this
      ensures Valid()
      ensures showEateries == Searched(eateries, filters, priceFilters, distFilter, sortBy)
      ensures !showingAll && page == 1
      ensures eateries == old(eateries) && tab == old(tab) && tags == old(tags)
      ensures visited == old(visited) && blacklist == old(blacklist)
    {
      var shown := Apply(eateries, filters, priceFilters, distFilter, sortBy);
      Show(shown, false);
    }
  }
}
