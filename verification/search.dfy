/**
 * The filter engine: a case-insensitive substring search on product titles.
 */
module Search {
  import opened Products
  import opened Text
  import opened Sequences

  /** The search box's value lower-cased and then trimmed. */
  function SearchTerm(raw: string): (t: string)
    ensures t == [] || (!IsSpace(t[0]) && !IsSpace(t[|t| - 1]))
    ensures forall i :: 0 <= i < |t| ==> !IsUpper(t[i])
    ensures exists k :: TrimmedAt(Lower(raw), t, k)
  {
    var low := Lower(raw);
    var t := Trim(low);
    forall i | 0 <= i < |t| ensures !IsUpper(t[i]) {
      assert t[i] in low;
    }
    t
  }

  /** A product is kept when its lower-cased title contains the term. */
  predicate TitleMatches(p: Product, term: string) {
    Contains(Lower(p.title), term)
  }

  /** `allProducts.filter(...)` by title: keeps exactly the matching products,
      in their original order. */
  function FilterByTitle(all: seq<Product>, term: string): (r: seq<Product>)
    ensures |r| <= |all|
    ensures forall p :: p in r <==> p in all && TitleMatches(p, term)
    decreases |all|
  {
    if all == [] then []
    else
      var rest := FilterByTitle(all[1..], term);
      assert forall p :: p in all <==> p == all[0] || p in all[1..];
      if TitleMatches(all[0], term) then [all[0]] + rest else rest
  }

  /** The filter keeps the products in the order `allProducts` has them. */
  lemma {:induction false} FilterIsSubsequence(all: seq<Product>, term: string)
    ensures IsSubsequence(FilterByTitle(all, term), all)
    decreases |all|
  {
    var r := FilterByTitle(all, term);
    if all == [] {
      assert SubsequenceVia(r, all, []);
    } else {
      FilterIsSubsequence(all[1..], term);
      SubsequenceCons(FilterByTitle(all[1..], term), all, TitleMatches(all[0], term));
    }
  }

  /** The filter keeps every copy of a matching product and no copy of any
      other: so its result is a sub-multiset of its input. */
  lemma {:induction false} FilterCounts(all: seq<Product>, term: string, p: Product)
    ensures multiset(FilterByTitle(all, term))[p] ==
      if TitleMatches(p, term) then multiset(all)[p] else 0
    decreases |all|
  {
    if all != [] {
      FilterCounts(all[1..], term, p);
      assert all == [all[0]] + all[1..];
    }
  }

  lemma FilterSubMultiset(all: seq<Product>, term: string)
    ensures multiset(FilterByTitle(all, term)) <= multiset(all)
  {
    forall p ensures multiset(FilterByTitle(all, term))[p] <= multiset(all)[p] {
      FilterCounts(all, term, p);
    }
  }

  /** Every title contains the empty term, so filtering by it keeps
      everything: the source's separate branch for an empty term agrees with
      the filter. */
  lemma {:induction false} FilterEmptyTermKeepsAll(all: seq<Product>)
    ensures FilterByTitle(all, "") == all
    decreases |all|
  {
    if all != [] {
      assert OccursAt(Lower(all[0].title), "", 0);
      FilterEmptyTermKeepsAll(all[1..]);
    }
  }

  /** The list a search produces before any re-sorting. */
  function SearchResult(all: seq<Product>, raw: string): (r: seq<Product>)
    ensures r == FilterByTitle(all, SearchTerm(raw))
  {
    var term := SearchTerm(raw);
    if term == [] then
      FilterEmptyTermKeepsAll(all);
      all
    else
      FilterByTitle(all, term)
  }

  /** The search result draws only on the catalog. */
  lemma SearchResultDrawsOnAll(all: seq<Product>, raw: string)
    ensures multiset(SearchResult(all, raw)) <= multiset(all)
  {
    FilterSubMultiset(all, SearchTerm(raw));
  }
}
