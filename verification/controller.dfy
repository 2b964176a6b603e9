/**
 * The list controller: the page's state (all products, the filtered and
 * sorted view of them, the current page, the page size and the sort
 * configuration) and the handlers that change it, plus what a render shows.
 */
module Controller {
  import opened Products
  import opened Sequences
  import opened Search
  import opened Sorting
  import opened SortButtons
  import opened Paging
  import opened PageControls
  import opened Images

  /** One table row: the product and the `src` its image starts with. */
  datatype Row = Row(product: Product, image: string)

  /** What `updateDisplay` puts on screen. */
  datatype View = View(
    totalCount: nat,
    displayCount: nat,
    showTable: bool,
    rows: seq<Row>,
    controls: seq<PageItem>)

  /** The initial page size, `itemsPerPage = 10`. */
  const DefaultPageSize := 10

  /** What a search followed by the re-sort holds: exactly the matching
      products, each as often as in the catalog; in catalog order when no
      sort is active, ordered by the sort otherwise. */
  lemma SearchThenSort(all: seq<Product>, raw: string, config: SortConfig)
    ensures var r := Sorting.ApplySorting(SearchResult(all, raw), config);
      && (forall p :: p in r <==> p in all && TitleMatches(p, SearchTerm(raw)))
      && multiset(r) <= multiset(all)
      && (config.field.None? ==> IsSubsequence(r, all))
      && (config.field.Some? ==> Ordered(r, config.field.value, config.direction))
      && (SearchTerm(raw) == [] && config.field.None? ==> r == all)
  {
    var term := SearchTerm(raw);
    var f := SearchResult(all, raw);
    var r := Sorting.ApplySorting(f, config);
    FilterSubMultiset(all, term);
    FilterIsSubsequence(all, term);
    if term == [] {
      FilterEmptyTermKeepsAll(all);
    }
    assert forall p :: p in r <==> p in f by {
      forall p ensures p in r <==> p in f {
        assert p in r <==> p in multiset(r);
        assert p in f <==> p in multiset(f);
      }
    }
  }

  class ProductList {
    var allProducts: seq<Product>
    var filteredProducts: seq<Product>
    var currentPage: int
    var itemsPerPage: int
    var sortConfig: SortConfig

    /** `Math.ceil(filteredProducts.length / itemsPerPage)`. */
    function PageCount(): nat
      reads this
      requires itemsPerPage > 0
    {
      TotalPages(|filteredProducts|, itemsPerPage)
    }

    /** The page size is positive, the current page is a page of the list
        (page 1 for an empty list), and the filtered list draws only on the
        loaded products. */
    ghost predicate Valid()
      reads this
    {
      && itemsPerPage > 0
      && 1 <= currentPage
      && (currentPage == 1 || currentPage <= PageCount())
      && multiset(filteredProducts) <= multiset(allProducts)
    }

    /** The state before the catalog arrives. */
    constructor ()
      ensures allProducts == [] && filteredProducts == []
      ensures currentPage == 1 && itemsPerPage == DefaultPageSize
      ensures sortConfig == InitialConfig
      ensures Valid()
    {
      allProducts := [];
      filteredProducts := [];
      currentPage := 1;
      itemsPerPage := DefaultPageSize;
      sortConfig := InitialConfig;
    }

    /** The state effect of a successful `getAll`: the catalog becomes the
        product list and the filtered list a copy of it, on page 1. The
        sort configuration is kept but not reapplied. */
    method Load(products: seq<Product>)
      requires Valid()
      modifies this
      ensures allProducts == products && filteredProducts == products
      ensures currentPage == 1
      ensures itemsPerPage == old(itemsPerPage) && sortConfig == old(sortConfig)
      ensures Valid()
    {
      allProducts := products;
      filteredProducts := allProducts;
      currentPage := 1;
    }

    /** `applySorting`: sorts the filtered list by the configured field and
        direction; does nothing before any sort was chosen. */
    method ApplySorting()
      requires Valid()
      modifies this
      ensures filteredProducts == Sorting.ApplySorting(old(filteredProducts), sortConfig)
      ensures multiset(filteredProducts) == multiset(old(filteredProducts))
      ensures sortConfig.field.Some? ==> Ordered(filteredProducts, sortConfig.field.value, sortConfig.direction)
      ensures sortConfig.field.None? ==> filteredProducts == old(filteredProducts)
      ensures allProducts == old(allProducts) && currentPage == old(currentPage)
      ensures itemsPerPage == old(itemsPerPage) && sortConfig == old(sortConfig)
      ensures Valid()
    {
      if sortConfig.field.None? {
        return;
      }
      filteredProducts := Sorting.ApplySorting(filteredProducts, sortConfig);
    }

    /** `handleSearch`: keeps the products whose lower-cased title contains
        the lower-cased, trimmed term (all of them for an empty term), goes
        back to page 1, and re-sorts when a sort is active. What the new
        list holds is stated by `SearchThenSort`. */
    method HandleSearch(raw: string)
      requires Valid()
      modifies this
      ensures filteredProducts == Sorting.ApplySorting(SearchResult(allProducts, raw), sortConfig)
      ensures multiset(filteredProducts) <= multiset(allProducts)
      ensures currentPage == 1
      ensures allProducts == old(allProducts) && itemsPerPage == old(itemsPerPage) && sortConfig == old(sortConfig)
      ensures Valid()
    {
      var found := SearchResult(allProducts, raw);
      SearchResultDrawsOnAll(allProducts, raw);
      currentPage := 1;
      filteredProducts := found;
      if sortConfig.field.Some? {
        ApplySorting();
      }
    }

    /** `handleItemsPerPageChange`: a new page size, back on page 1. */
    method HandleItemsPerPageChange(n: int)
      requires Valid() && n > 0
      modifies this
      ensures itemsPerPage == n && currentPage == 1
      ensures allProducts == old(allProducts) && filteredProducts == old(filteredProducts)
      ensures sortConfig == old(sortConfig)
      ensures Valid()
    {
      itemsPerPage := n;
      currentPage := 1;
    }

    /** `handleSort`: records the field and direction and sorts the filtered
        list by them, staying on the same page; the matching button becomes
        the only active one. */
    method HandleSort(field: SortKey, direction: Direction)
      requires Valid()
      modifies this
      ensures sortConfig == SortConfig(Some(field), direction)
      ensures multiset(filteredProducts) == multiset(old(filteredProducts))
      ensures Ordered(filteredProducts, field, direction)
      ensures filteredProducts == SortProducts(old(filteredProducts), field, direction)
      ensures ActiveButton(sortConfig).Some? && CountActive(ButtonMarks(sortConfig)) == 1
      ensures allProducts == old(allProducts) && currentPage == old(currentPage)
      ensures itemsPerPage == old(itemsPerPage)
      ensures Valid()
    {
      sortConfig := SortConfig(Some(field), direction);
      ApplySorting();
    }

    /** The products `renderTable` shows. */
    function Visible(): (page: seq<Product>)
      reads this
      requires Valid()
      ensures |page| <= itemsPerPage
      ensures filteredProducts != [] ==> page != []
    {
      PageSliceWindow(filteredProducts, currentPage, itemsPerPage);
      if filteredProducts == [] then
        PageSlice(filteredProducts, currentPage, itemsPerPage)
      else
        PagesInRangeNonEmpty(filteredProducts, currentPage, itemsPerPage);
        PageSlice(filteredProducts, currentPage, itemsPerPage)
    }

    /** The controls `renderPagination` builds, or none when the list is
        empty and `updateDisplay` clears them. */
    function CurrentControls(): (items: seq<PageItem>)
      reads this
      requires Valid()
      ensures filteredProducts == [] <==> items == []
    {
      if filteredProducts == [] then [] else Controls(currentPage, PageCount())
    }

    /** The click handler of a page control: moves to its page. Only
        enabled controls of the row on screen can be clicked, and every
        one of them leads to a page of the list. */
    method ClickPageControl(item: PageItem)
      requires Valid() && item in CurrentControls() && Clickable(item)
      modifies this
      ensures Valid()
      ensures currentPage == Target(item)
      ensures 1 <= currentPage <= PageCount()
      ensures allProducts == old(allProducts) && filteredProducts == old(filteredProducts)
      ensures itemsPerPage == old(itemsPerPage) && sortConfig == old(sortConfig)
    {
      ClickTargetsInRange(currentPage, PageCount());
      currentPage := Target(item);
    }

    /** `updateDisplay`: the counts, the table with one row per visible
        product, and the page controls; an empty list hides the table and
        shows no controls. */
    method Render() returns (v: View)
      requires Valid()
      ensures v.totalCount == |allProducts| && v.displayCount == |filteredProducts|
      ensures v.showTable <==> filteredProducts != []
      ensures v.controls == CurrentControls()
      ensures v.showTable ==> |v.rows| == |Visible()|
      ensures v.showTable ==>
        forall i :: 0 <= i < |v.rows| ==> v.rows[i] == Row(Visible()[i], InitialSource(Visible()[i]))
      ensures v.showTable ==> 1 <= |v.rows| <= itemsPerPage
      ensures !v.showTable ==> v.rows == [] && v.controls == []
    {
      if filteredProducts == [] {
        return View(|allProducts|, 0, false, [], []);
      }
      var page := Visible();
      var rows := seq(|page|, i requires 0 <= i < |page| => Row(page[i], InitialSource(page[i])));
      var controls := BuildControls(currentPage, PageCount());
      v := View(|allProducts|, |filteredProducts|, true, rows, controls);
    }
  }
}
