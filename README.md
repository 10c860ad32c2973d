# Eatery discovery: search bar and recommendations

This project models the client-side eatery discovery of the restaurant
viewer's frontend, in Dafny, and proves properties of that model.

The model has two parts.

- **The search bar** (`frontend/src/components/SearchFilter.jsx`). Keyword
  search matches each keyword, ignoring case, against the eatery's name and
  tags; every keyword must hit. A filter then keeps the selected price tiers,
  and another drops the eateries farther than a distance threshold. Last comes
  an optional stable sort: by pricing string, by rating or by distance.
- **The "Recommended" tab** (`frontend/src/pages/EateryProfileList.jsx`). It
  drops the eateries the diner visited (by name) or blacklisted (by id). Next
  comes an advisory tag step: it keeps only the candidates that share a
  preferred tag, unless none does. Of what remains, the tab keeps the six most
  reviewed and shows them best rated first. The page state around it is modelled too:
  - the tab switch;
  - the search bar's result being set;
  - the effect that recomputes the page count `ceil(n / 12)` and resets the
    page to 1.

Modules:

- `Eateries` (`eateries.dfy`) holds the eatery record and the JavaScript array
  operations on it: `filter`, `indexOf` and `splice` of one element. It also
  holds the lemmas for loops that splice elements out while walking an index.
- `Sorting` (`sorting.dfy`) holds the comparators and `Array.prototype.sort`.
  JavaScript requires that sort to be stable, so it is a stable insertion
  sort here. `StableSortUnique` proves that any sorted, stable permutation is
  equal to it, so the choice of algorithm is immaterial.
- `Search` (`search.dfy`) is `matchSearch` and `Apply`.
- `Recommend` (`recommend.dfy`) is `CalculateRecommended`, the page count and
  the page's state (`class EateryList`).

The loops of the source are methods with loop invariants. Each is proved
equal to a specification function: `Matches`, `Filter`, `Searched`,
`Candidates`, `TagPreferred`, `Recommended`. The properties are then lemmas
about those functions.

The arrays the source splices in place are local sequences in the model.
The source works on a deep copy of its input or on a freshly built array,
and a Dafny sequence is a value, so the caller's list cannot change.

The distance sort puts an unknown distance (-1) first
(frontend/src/components/SearchFilter.jsx:71-75). An empty selection of price
tiers shows nothing (`Search.NoTierShowsNothing`).

## Model

| member | source | states |
|---|---|---|
| Eateries.Filter | frontend/src/components/SearchFilter.jsx:13 | `filter` keeps exactly the elements that pass, and never lengthens the list |
| Search.LowerChar | frontend/src/components/SearchFilter.jsx:12-13 | `toLowerCase` on one character maps an ASCII capital 32 code points down, leaves every other character alone and never yields a capital |
| Search.Lower | frontend/src/components/SearchFilter.jsx:12-13 | `toLowerCase` keeps the length, leaves no ASCII capital and changes no other character |
| Search.Includes | frontend/src/components/SearchFilter.jsx:13 | `includes` always finds the empty keyword and never finds one longer than the string |
| Sorting.StrLess | frontend/src/components/SearchFilter.jsx:62 | string `<` is never true of equal strings and puts a proper prefix first |
| Sorting.Compare | frontend/src/components/SearchFilter.jsx:60-75 | each comparator returns -1, 0 or 1 |
| Recommend.PopularCut | frontend/src/pages/EateryProfileList.jsx:52-59 | the cut has six eateries or the whole pool when smaller, all from the pool, most reviewed first |
| Eateries.IndexOf | frontend/src/pages/EateryProfileList.jsx:48 | `indexOf`: -1 exactly when the value is absent, otherwise a position holding it with no earlier occurrence |
| Eateries.SpliceOne | frontend/src/pages/EateryProfileList.jsx:24 | `splice(start, 1)`: removes the element at a valid start, the last one for start -1, nothing at or past the end |
| Eateries.SpliceLoopStep | frontend/src/components/SearchFilter.jsx:42-48 | one pass of an index loop that splices failing elements and steps back keeps "prefix = filter of the input seen, suffix = input not seen" |
| Eateries.SpliceLoopDone | frontend/src/components/SearchFilter.jsx:42-48 | when that loop's index reaches the end, the list is the filter of the whole input |
| Eateries.FilterPartition | frontend/src/pages/EateryProfileList.jsx:46 | every element is either kept by a filter or by its negation, so the two lengths add up to the input's |
| Sorting.StrLessTransitive | frontend/src/components/SearchFilter.jsx:62 | JavaScript's string `<` is transitive |
| Sorting.StrLessTotal | frontend/src/components/SearchFilter.jsx:62 | of two different strings one is `<` the other |
| Sorting.CompareTie | frontend/src/components/SearchFilter.jsx:60-63 | each comparator returns 0 exactly for equal keys |
| Sorting.CompareFlip | frontend/src/components/SearchFilter.jsx:66-69 | each comparator is antisymmetric: swapping its arguments negates it |
| Sorting.CompareTransitive | frontend/src/components/SearchFilter.jsx:72-75 | each comparator is transitive, so it is a consistent order for `sort` |
| Sorting.StableSort | frontend/src/pages/EateryProfileList.jsx:52-55 | `sort` is a permutation of its input |
| Sorting.SortSorted | frontend/src/pages/EateryProfileList.jsx:60-63 | after `sort` no later element compares below an earlier one |
| Sorting.SortStable | frontend/src/components/SearchFilter.jsx:59-76 | `sort` keeps every class of equal keys in its input order |
| Sorting.StableSortUnique | frontend/src/components/SearchFilter.jsx:59-76 | any sorted permutation that keeps ties in input order equals `StableSort` |
| Sorting.PriceSortAscending | frontend/src/components/SearchFilter.jsx:59-64 | after the price sort the pricing strings ascend in string order |
| Sorting.RatingSortDescending | frontend/src/components/SearchFilter.jsx:65-70 | after the rating sort the ratings descend |
| Sorting.DistanceSortAscending | frontend/src/components/SearchFilter.jsx:71-76 | after the distance sort the distances ascend, -1 first |
| Sorting.ReviewsSortDescending | frontend/src/pages/EateryProfileList.jsx:52-55 | after the sort by reviews the review counts descend |
| Search.IncludesOccurs | frontend/src/components/SearchFilter.jsx:13 | `includes` holds exactly when the substring occurs at some position |
| Search.MissTest | frontend/src/components/SearchFilter.jsx:13 | the source's miss test (no tag contains the keyword and the name does not) is exactly "the keyword does not hit" |
| Search.MatchSearch | frontend/src/components/SearchFilter.jsx:9-18 | `matchSearch` returns true exactly when every keyword hits the name or a tag |
| Search.KeywordHitOccurs | frontend/src/components/SearchFilter.jsx:12-13 | a keyword hits exactly when, lowercased, it occurs in the lowercased name or in some lowercased tag |
| Search.UntaggedMatchesByName | frontend/src/components/SearchFilter.jsx:13 | an eatery with no tags is found through its name alone |
| Search.KeywordCaseIgnored | frontend/src/components/SearchFilter.jsx:12-13 | the case of the keyword and of the name does not change a hit |
| Search.CollectMatches | frontend/src/components/SearchFilter.jsx:32-40 | the keyword step yields the input eateries `matchSearch` accepts, in input order |
| Search.RemoveUnselectedPrices | frontend/src/components/SearchFilter.jsx:42-48 | the price loop leaves exactly the eateries whose pricing is a selected tier, in order |
| Search.RemoveTooFar | frontend/src/components/SearchFilter.jsx:50-56 | the distance loop leaves exactly the eateries with no threshold set, unknown distance or distance within the threshold |
| Search.Apply | frontend/src/components/SearchFilter.jsx:30-77 | `Apply` computes the keyword, price and distance filters, then the chosen sort |
| Search.SelectedIsOneFilter | frontend/src/components/SearchFilter.jsx:31-56 | the three filters in a row are one filter by their conjunction |
| Search.SearchedMembers | frontend/src/components/SearchFilter.jsx:30-77 | an eatery is shown exactly when it is in the input and passes all three filters |
| Search.UnsortedIsFilter | frontend/src/components/SearchFilter.jsx:30-58 | with no sort the shown list is the input's order-preserving subsequence of passing eateries |
| Search.NoCriteriaShowsAll | frontend/src/components/SearchFilter.jsx:24-28 | no keywords, every tier of the input selected, no threshold and no sort show the input unchanged |
| Search.NoTierShowsNothing | frontend/src/components/SearchFilter.jsx:42-48 | an empty tier selection shows nothing |
| Search.NoThresholdKeepsAll | frontend/src/components/SearchFilter.jsx:52 | an empty distance entry removes nothing |
| Search.MoreKeywordsNarrow | frontend/src/components/SearchFilter.jsx:9-18 | adding keywords can only shrink the shown list |
| Search.SearchedOrder | frontend/src/components/SearchFilter.jsx:59-76 | sorting keeps exactly the filtered eateries, ordered as chosen |
| Recommend.PageCount | frontend/src/pages/EateryProfileList.jsx:98 | the page count is the fewest pages of twelve that hold the list |
| Recommend.PagesCoverList | frontend/src/pages/EateryProfileList.jsx:98 | every card's page, index / 12 + 1, is within the page count |
| Recommend.ShareTags | frontend/src/pages/EateryProfileList.jsx:33-39 | the inner loop finds a shared tag exactly when some preferred tag is one of the eatery's tags |
| Recommend.SplitCandidates | frontend/src/pages/EateryProfileList.jsx:19-44 | the first loop leaves the eateries neither visited nor blacklisted, in order, and collects those of them that share no preferred tag |
| Recommend.DropStep | frontend/src/pages/EateryProfileList.jsx:47-49 | each `indexOf`/`splice` removes the next collected eatery where it stands, and nothing else |
| Recommend.DropUnshared | frontend/src/pages/EateryProfileList.jsx:47-49 | the second loop leaves exactly the candidates that share a preferred tag, in order |
| Recommend.SomeKeptGuard | frontend/src/pages/EateryProfileList.jsx:46 | "fewer collected than candidates" holds exactly when some candidate is kept by the tag step |
| Recommend.CalculateRecommended | frontend/src/pages/EateryProfileList.jsx:18-65 | `CalculateRecommended` computes exclusion, the advisory tag step, the six most reviewed and the order by rating |
| Recommend.RecommendedMembers | frontend/src/pages/EateryProfileList.jsx:23-44 | a recommended eatery is from the input, not visited, not blacklisted, and shares a tag when some candidate does |
| Recommend.SharedTagsOnly | frontend/src/pages/EateryProfileList.jsx:32-50 | when some candidate shares a preferred tag, every eatery the tag step keeps does |
| Recommend.NoSharedTagKeepsAll | frontend/src/pages/EateryProfileList.jsx:46 | when no candidate shares a preferred tag, the tag step keeps every candidate |
| Recommend.NoTagsKeepsAll | frontend/src/pages/EateryProfileList.jsx:32 | with no preferred tags the tag step keeps every candidate |
| Recommend.PreferredNonEmpty | frontend/src/pages/EateryProfileList.jsx:46 | the tag step never empties a non-empty pool |
| Recommend.RecommendedSize | frontend/src/pages/EateryProfileList.jsx:52-59 | six eateries are shown, or every preferred candidate when there are fewer |
| Recommend.CutKeepsMost | frontend/src/pages/EateryProfileList.jsx:57-59 | in a list ordered by reviews, nothing after the first six has more reviews than anything in them |
| Recommend.RecommendedTopReviews | frontend/src/pages/EateryProfileList.jsx:52-59 | a preferred candidate left out has no more reviews than any eatery shown |
| Recommend.RecommendedOrder | frontend/src/pages/EateryProfileList.jsx:60-63 | the shown list is ordered by rating, best first, and is a permutation of the six kept |
| Recommend.RecommendedTiesByReviews | frontend/src/pages/EateryProfileList.jsx:52-63 | among equally rated eateries shown, the more reviewed comes first |
| Recommend.FilterReviewsDescending | frontend/src/pages/EateryProfileList.jsx:60-63 | taking a subsequence keeps a list ordered by reviews |
| Recommend.RecommendedEmpty | frontend/src/pages/EateryProfileList.jsx:46-59 | nothing is recommended exactly when no eatery survives the exclusion |
| Recommend.EateryList.Loaded | frontend/src/pages/EateryProfileList.jsx:71-79 | after both fetches the "All" tab shows the fetched list on one page count that fits it, at page 1 |
| Recommend.EateryList.Show | frontend/src/pages/EateryProfileList.jsx:97-100 | setting a list to show recounts the pages and returns to page 1 |
| Recommend.EateryList.HandleTabChange | frontend/src/pages/EateryProfileList.jsx:83-91 | tab "2" shows the recommendation, any other tab the fetched list; the page count always fits the list |
| Recommend.EateryList.HandlePageChange | frontend/src/pages/EateryProfileList.jsx:93-95 | choosing a page changes the page and nothing else |
| Recommend.EateryList.ApplySearch | frontend/src/components/SearchFilter.jsx:77 | the search bar's result is shown from page 1 with a fitting page count |

## Left out

- React rendering, hooks, contexts and the form widgets are not modelled. The form state of the search bar (keywords, tiers, threshold, sort) is passed in as parameters.
- The two `fetch` calls are network I/O. `EateryList.Loaded` starts from their results; a failed profile fetch (the snackbar message) is not modelled.
- A distance threshold is a form string compared with a number. The model takes the number it converts to (`Option<real>`, None for the empty entry). A non-numeric entry is not modelled; it compares as NaN and would remove nothing.
- Ratings and distances are JavaScript numbers that the code only compares, so they are reals here. NaN and floating-point rounding are not modelled.
- `toLowerCase` is modelled for ASCII letters only. Unicode case mapping is not modelled.
- Sorting.PriceKey: a null pricing would sort as the empty string. The price filter never lets one reach the price sort, so JavaScript's comparison of `null` with a string is not modelled.
- Eateries.IndexOf: the source finds an object by reference in its deep copy; the model finds it by value. All equal values get the same tag verdict, so `DropStep` proves the same position is removed.
- Recommend.EateryList.HandleTabChange: React skips the page-count effect when the array set is the one already shown, and runs it for any new array. The model reproduces this with the flag `showingAll` ("the fetched array itself is shown"), not with object identity.
- The eatery record keeps only the fields the core reads. Images, vouchers and addresses are display-only.
