# Product list controller — a verified model

`main.js` drives a browser page that lists the products of a catalog
endpoint. The products appear in a table that can be searched by title,
sorted by price or by title in either direction, and paged with a
selectable page size. Each row shows the product image, which falls back
through the remaining candidate URLs and finally to a placeholder when
loading fails.

This project models that controller's deterministic core in Dafny. The
modules follow the parts of the program:

- `Products` (products.dfy): the product record, with integer prices, an
  optional category and description, and the three shapes the `images`
  field can take.
- `Text` (text.dfy): the string operations the controller relies on.
  These are ASCII `toLowerCase`, `trim` over the JavaScript white-space set,
  `includes`, `startsWith`, the `<` order on strings, and decimal rendering
  of integers.
- `Search` (search.dfy): the title filter of `handleSearch`.
- `Sorting` (sorting.dfy): the comparator of `applySorting` and a sort of the
  working list by it.
- `SortButtons` (sort_buttons.dfy): the request each of the four sort
  buttons issues and the `active` mark `updateSortButtonStates` sets.
- `Paging` (paging.dfy): the page count and the visible slice of
  `renderTable`.
- `PageControls` (page_controls.dfy): the control row that
  `renderPagination` builds. `BuildControls` is the loop that appends the
  controls one at a time. It is proved equal to a recursive description
  (`Controls`) and to a closed form (`Layout`), and the shape lemmas are
  stated on the closed form.
- `Images` (images.dfy): `normalizeImageCandidates`, `getFallbackImage`,
  the initial `src` of a row image and the final placeholder.
- `ImageFallback` (image_fallback.dfy): a class for one image element whose
  `OnError` method is the `onerror` handler. It holds the candidate list and
  the `data-index` cursor, and it detaches after at most `max(N, 1)`
  handled errors.
- `Controller` (controller.dfy): the class `ProductList`. Its fields are the
  five module-level variables, and its methods are the handlers that
  reassign them. `Render` computes what `updateDisplay` shows.

The code renders a single hidden page between page 1 and the window, or
between the window and the last page, as an ellipsis. It does not render
that page's number. The model follows the code here, and
`SingleHiddenPagesBecomeEllipses` shows the case: with page 5 of 9 current,
pages 2 and 8 each become "...".

## Model

| member | source | states |
|---|---|---|
| Text.Lower | main.js:53 | The result has the input's length. Each character is the ASCII lower-case of the input's character. No upper-case letter remains. |
| Text.LowerIdempotent | main.js:59 | Lower-casing an already lower-cased title changes nothing. |
| Text.Trim | main.js:53 | Only white space is removed: the result is a window of the input with white space before and after it. Neither end of the result is white space. |
| Text.StartsWith | main.js:171-172 | `startsWith`: the string begins with the given prefix. A definition, used by the contracts of `Images.Upgrade`, `Images.Clean`, `Images.FallbackImage` and `Images.FinalPlaceholder`. |
| Text.TrimOfTrimmed | main.js:170 | Text whose ends are not white space is left unchanged by trimming. |
| Text.Contains | main.js:59 | `includes`: true exactly when the term occurs at some index of the text. |
| Text.OccursInTail | main.js:59 | When the text does not start with the term, the term's occurrences are exactly those in the text's tail, shifted by one. |
| Text.Less | main.js:88 | `a < b` holds exactly when `a` is a proper prefix of `b`, or when at the first differing index `a` has the smaller character. |
| Text.SameHeadShift | main.js:88 | After an equal first character, prefixes and first differences are those of the tails, shifted by one. |
| Text.LessIrreflexive | main.js:88 | No string is `<` itself. |
| Text.LessAsymmetric | main.js:88 | `a < b` excludes `b < a`. |
| Text.LessTotal | main.js:88 | Of two distinct strings, one is `<` the other. |
| Text.LessTransitive | main.js:88 | `<` on strings is transitive. |
| Text.NatToString | main.js:196 | The result is non-empty, made only of decimal digits, and denotes the number. It has no leading zero, and it is one digit long exactly for numbers below 10. |
| Text.NatToStringInjective | main.js:196 | Different numbers render as different digit strings. |
| Text.IntToString | main.js:237 | The result starts with '-' exactly for negative numbers. The digits after the sign denote the number's absolute value. |
| Text.IntToStringInjective | main.js:237 | Different integers render as different strings. |
| Search.SearchTerm | main.js:53 | The term is the lower-cased input with white space, and only white space, removed from both ends. It has no upper-case letter, and its ends are not white space. |
| Search.TitleMatches | main.js:59 | A product matches when its lower-cased title contains the term. A definition; `Search.FilterByTitle` and `Search.FilterCounts` state what the filter keeps by it. |
| Search.FilterByTitle | main.js:58-60 | A product is in the result exactly when it is in the list and its lower-cased title contains the term. The result is no longer than the list. |
| Search.FilterIsSubsequence | main.js:58-60 | The filter keeps the products in their original order. |
| Search.FilterCounts | main.js:58-60 | A matching product keeps its number of copies, and a non-matching product has none. |
| Search.FilterSubMultiset | main.js:58-60 | The filtered list is a sub-multiset of the list it came from. |
| Search.FilterEmptyTermKeepsAll | main.js:55-60 | The filter with the empty term is the identity, so the separate empty-term branch agrees with it. |
| Search.SearchResult | main.js:53-61 | The search result, with its empty-term branch, equals the filter by the cleaned term. |
| Search.SearchResultDrawsOnAll | main.js:53-61 | The search result holds each product at most as often as the catalog does. |
| Sorting.KeyCompareZero | main.js:82-88 | Two products tie exactly when their prices are equal, or their lower-cased titles are equal. |
| Sorting.KeyCompare | main.js:82-88 | The comparison is 1 when the first key is greater, -1 when it is smaller, and 0 otherwise. Prices compare by value, and titles compare lower-cased with `<`. A definition; its properties are proved by `Sorting.KeyCompareZero`, `Sorting.KeyCompareAntisymmetric` and `Sorting.KeyCompareTransitive`. |
| Sorting.Compare | main.js:89 | The comparator passed to `sort`: the key comparison for "asc", its negation for "desc". A definition; `Sorting.CompareAntisymmetric` and `Sorting.CompareTransitive` prove it a consistent comparator. |
| Sorting.KeyCompareAntisymmetric | main.js:88 | Swapping the operands negates the comparison. |
| Sorting.KeyCompareTransitive | main.js:82-88 | The comparison is transitive. |
| Sorting.CompareAntisymmetric | main.js:89 | Swapping the operands negates the comparison in both directions. |
| Sorting.CompareTransitive | main.js:89 | The directed comparison is transitive, so it is a valid sort comparator. |
| Sorting.HeadBound | main.js:81-90 | An element no greater than the head of an ordered list is no greater than any of its elements. |
| Sorting.ConsOrdered | main.js:81-90 | Putting an element that bounds every element in front keeps the list ordered. |
| Sorting.Insert | main.js:81-90 | Inserting into an ordered list adds exactly that element and keeps the list ordered. |
| Sorting.SortProducts | main.js:81-90 | The sorted list is a permutation of the input, with no pair out of order under the comparator. |
| Sorting.ApplySorting | main.js:79-91 | Without a field the list is returned as it is. With a field the result is a permutation ordered by field and direction. |
| Sorting.ReverseOfDescIsAsc | main.js:89 | A list ordered for "desc", read backwards, is ordered for "asc". |
| Sorting.HeadsAgree | main.js:81-90 | Two permutations of one list, both ordered ascending and one strictly, begin with the same product. |
| Sorting.AscendingUnique | main.js:81-90 | When keys are distinct there is only one ascending order of a list. |
| Sorting.DescIsReverseOfAsc | main.js:89 | When keys are distinct, every "desc" ordering of a list is the reverse of its strictly ascending ordering. |
| Sorting.InsertStrict | main.js:81-90 | Inserting an element whose key is new keeps the keys strictly ascending. |
| Sorting.SortStrict | main.js:81-90 | When keys are distinct, the ascending sort has strictly ascending keys. |
| Sorting.SortDescIsReverse | main.js:89 | When keys are distinct, sorting "desc" gives the reverse of sorting "asc". |
| Sorting.Ties | main.js:81-90 | The products that tie with a given product on the key, kept in list order. |
| Sorting.TiesCons | main.js:81-90 | The ties of a list with a head are the head, if it ties, followed by the ties of the tail. |
| Sorting.InsertStep | main.js:81-90 | Past a head that the new product exceeds, insertion continues in the tail. |
| Sorting.TiesExclusive | main.js:82-88 | Two products with different keys cannot both tie with a third. |
| Sorting.InsertKeepsTies | main.js:81-90 | Insertion puts the new product in front of the products it ties with and leaves their order alone. |
| Sorting.SortKeepsTies | main.js:81-90 | The sort is stable: in both directions, products with equal keys keep their input order. |
| Sorting.TitleSortIgnoresCase | main.js:84-86 | Titles compare lower-cased, so "apple" sorts before "Banana", although "Banana" comes first in raw character order. |
| Sorting.AppleBeforeBanana | main.js:84-86 | Lower-cased, "apple" compares strictly before "Banana" and not the other way round. |
| SortButtons.Request | main.js:30-33 | Every button requests a sort by some field. |
| SortButtons.ActiveButton | main.js:96-104 | No button is marked exactly when no field is set. |
| SortButtons.ActiveButtonRoundTrip | main.js:93-105 | A clicked button becomes the marked one. Clicking the marked button again requests the configuration already in force. |
| SortButtons.CountActive | main.js:93-105 | At most as many buttons are active as there are buttons. |
| SortButtons.ButtonMarks | main.js:93-105 | A button is marked exactly when it matches field and direction. Exactly one is marked once a field is set, and none before. |
| Paging.TotalPages | main.js:204 | The fewest pages of the given size that hold the list, and zero exactly for an empty list. |
| Paging.SliceIndex | main.js:125 | `slice` clamps its bounds into the list. |
| Paging.Slice | main.js:125 | `slice(start, end)`: the elements between the clamped bounds, or none when the bounds cross. A definition; `Paging.SliceIndex` and `Paging.WindowAt` state its result. |
| Paging.PageSlice | main.js:123-125 | The products of a page: `itemsPerPage` products starting at index `(page - 1) * itemsPerPage`. A definition; `Paging.PageSliceWindow` and `Paging.PagesTileList` state its result. |
| Paging.WindowAt | main.js:123-125 | A slice from a non-negative start is the window clamped to the list, and it is no longer than requested. |
| Paging.PageSliceWindow | main.js:123-125 | The visible page is `s[(p-1)*n .. min(p*n, len))`, so it holds at most `n` products. |
| Paging.PagesInRangeNonEmpty | main.js:123-125 | Every page from 1 to the page count shows at least one product. |
| Paging.FirstIndexInRange | main.js:123 | Every page up to the page count starts inside the list. |
| Paging.PagesUpToPrefix | main.js:123-125 | The first `k` pages concatenated are the first `k*n` products. |
| Paging.PagesTileList | main.js:123-125 | Pages 1 to the page count, concatenated, give back the whole list. |
| PageControls.BuildControls | main.js:220-232 | The appending loop builds exactly `Controls`: Prev, one slot per page, then Next. |
| PageControls.Shown | main.js:223 | Page 1, the last page, and every page within two of the current one get a button. A definition; `PageControls.LayoutPages` states which pages get a button. |
| PageControls.Slot | main.js:223-229 | One iteration appends a page button for a shown page, an ellipsis at `cp-3` and `cp+3` when those are hidden, and nothing otherwise. A definition; `PageControls.SegmentIsLayout` states what the slots add up to. |
| PageControls.Segment | main.js:222-230 | The iterations for pages `a` to `b` append their slots in order. A definition; `PageControls.BuildControls` is proved against it and `PageControls.SegmentIsLayout` gives its closed form. |
| PageControls.Controls | main.js:220-232 | The row is Prev targeting `cp-1` and disabled on page 1, the slots of pages 1 to `total`, then Next targeting `cp+1` and disabled on the last page. A definition; `PageControls.BuildControls` is proved equal to it and `PageControls.ControlsShape` states its shape. |
| PageControls.Layout | main.js:222-230 | The closed form of the loop's output: the left edge, the window of pages `cp-2` to `cp+2` cut to the list, and the right edge. A definition; `PageControls.LayoutPages`, `LayoutIncreasing`, `LayoutEllipses`, `LayoutAdjacentPages` and `LayoutOneActive` state its properties. |
| PageControls.Clickable | main.js:207-216 | Page buttons and enabled Prev and Next buttons react to clicks. An ellipsis is not a button. A definition; `PageControls.ClickTargetsInRange` bounds where a click can lead. |
| PageControls.Target | main.js:212-216 | The page a click moves to: the button's page number, or the target of Prev or Next. A definition; `PageControls.ClickTargetsInRange` proves every target a page of the list. |
| PageControls.Run | main.js:222-224 | The window run holds one button per page from `lo` to `hi`, and only the current one is active. |
| PageControls.SegmentSplit | main.js:222-230 | The loop's output over a range is its output over two halves, concatenated. |
| PageControls.SegmentHidden | main.js:222-230 | Pages that render nothing contribute nothing. |
| PageControls.SegmentRun | main.js:222-224 | Consecutive shown pages render as a run of page buttons. |
| PageControls.SegmentBeforeWindow | main.js:222-230 | The pages before the window render as page 1, followed by an ellipsis when pages are hidden. |
| PageControls.SegmentAfterWindow | main.js:222-230 | The pages after the window render as the last page, preceded by an ellipsis when pages are hidden. |
| PageControls.SegmentIsLayout | main.js:222-230 | The loop's output equals the closed form: left edge, window, right edge. |
| PageControls.ControlsShape | main.js:220-232 | The row is Prev targeting `cp-1` (disabled iff `cp == 1`), the layout, then Next targeting `cp+1` (disabled iff `cp == total`). |
| PageControls.LayoutPages | main.js:222-230 | Page `n` has a button exactly when it lies in `1..total` and is page 1, the last page or within two of the current page. The button is active exactly for the current page. |
| PageControls.LayoutIncreasing | main.js:222-230 | Page numbers appear in strictly increasing order. |
| PageControls.LayoutEllipses | main.js:225-229 | Each ellipsis sits between page 1 and page `cp-2`, or between page `cp+2` and the last page, with pages hidden in between. So there is at most one on each side. |
| PageControls.LayoutAdjacentPages | main.js:222-230 | Neighbouring page buttons carry consecutive numbers, so every gap is marked by an ellipsis. |
| PageControls.LayoutOneActive | main.js:224 | The current page has an active button, and no other button is active. |
| PageControls.ClickTargetsInRange | main.js:207-232 | Every enabled control of the row leads to a page from 1 to the page count. |
| PageControls.LayoutInRange | main.js:222-230 | Every item of the layout is an ellipsis or a page from 1 to the page count. |
| PageControls.TenOfTwenty | main.js:220-232 | Page 10 of 20 renders Prev, 1, …, 8–12, …, 20, Next. |
| PageControls.SingleHiddenPagesBecomeEllipses | main.js:222-230 | Page 5 of 9 renders a "..." for the single hidden page 2 and for the single hidden page 8. |
| Images.StripChars | main.js:170 | Removes every `[`, `]`, `"` and `\` and keeps only characters of the input. Input free of them is unchanged. |
| Images.IsBroken | main.js:176 | A URL is broken when it contains "3a98.png", "b7105.png" or "placeimg.com". A definition, used by `Images.Usable`. |
| Images.Usable | main.js:177 | A cleaned string passes the filter when it is non-empty, starts with "http" and is not broken. A definition; `Images.KeepUsable` and `Images.UsableCleanIsCandidate` state what the filter keeps by it. |
| Images.StripCharsAppend | main.js:170 | Stripping distributes over concatenation. |
| Images.TrimKeepsUnstripped | main.js:170 | Trimming introduces no stripped character. |
| Images.DropComma | main.js:171 | Dropping one leading comma keeps the text free of stripped characters and its last character not white space. |
| Images.Upgrade | main.js:172 | The result never starts with "http://", and its last character is the input's. A string not starting with "http://" is unchanged. |
| Images.Clean | main.js:169-173 | A cleaned entry has no stripped character, never starts with "http://", and does not end in white space. |
| Images.LaterStepsClean | main.js:170-172 | After stripping, trimming, dropping a comma and upgrading leave no stripped character, no "http://" prefix and no trailing white space. |
| Images.CleanAll | main.js:168-174 | The map step cleans each entry in place. |
| Images.KeepUsable | main.js:175-178 | Every copy of a usable string is kept, and no copy of any other string. A cleaned string is usable when it is non-empty, starts with "http" and names none of the three deny-listed images. |
| Images.KeepUsableIsSubsequence | main.js:175-178 | The filter keeps the cleaned strings in order. |
| Images.KeepUsableKeepsAll | main.js:175-178 | A list of usable strings passes the filter whole. |
| Images.KeepUsableCons | main.js:175-178 | The filter keeps the head of a list exactly when it is usable, followed by the filter of the rest. |
| Images.NormalizeList | main.js:167-178 | At most one candidate per entry. Each starts with "http", not with "http://", has no stripped character, no deny-listed name and no trailing space. |
| Images.RawEntries | main.js:163-165 | An array is taken as it is, a single string as a one-element list, and anything else as no entries. A definition, the input to `Images.NormalizeList`. |
| Images.UsableCleanIsCandidate | main.js:167-178 | A cleaned entry that passes the filter has all the candidate guarantees. |
| Images.NormalizeImageCandidates | main.js:162-179 | A string field yields at most one candidate, a field that is neither array nor string yields none, and every candidate has the guarantees above. |
| Images.NormalizeKeepsOrder | main.js:167-178 | The candidates are the cleaned entries that survive the filter, in their order. |
| Images.CleanFixesCandidate | main.js:168-174 | Cleaning a candidate returns it unchanged. |
| Images.NormalizeIdempotent | main.js:162-179 | Normalizing a list of candidates returns the same list. |
| Images.CleanAfterStrip | main.js:170-173 | An entry whose stripped form is a candidate cleans to that candidate. |
| Images.LaterStepsKeep | main.js:170-172 | Trimming, comma-dropping and upgrading leave an `https`-or-other `http` URL without trailing space unchanged. |
| Images.CleanUnquotes | main.js:170 | A quoted candidate cleans to the candidate. |
| Images.CleanDropsComma | main.js:171 | A candidate behind one leading comma cleans to the candidate. |
| Images.CleanUpgradesHttp | main.js:172 | `http://` followed by a candidate's remainder cleans to its `https://` form. |
| Images.HttpFormIsClean | main.js:170 | The `http://` form of a candidate has no stripped character and no trailing space. |
| Images.MissingCharNotContained | main.js:176 | Text lacking a character of a name does not contain the name. |
| Images.NotBroken | main.js:176 | Text without '3', '7' and 'c' names none of the deny-listed images. |
| Images.FallbackImage | main.js:235-238 | The fallback URL starts with "https://". |
| Images.FallbackImageDistinct | main.js:235-238 | Two ids share a fallback exactly when they are equal, or are 0 and 1 (a zero id defaults to 1). |
| Images.SeedOf | main.js:236 | The seed is never 0: it is the id itself for a non-zero id, and 1 for id 0. |
| Images.FallbackSeedText | main.js:237 | The seed can be read back from between the fixed prefix and suffix of the fallback URL. |
| Images.InnerPart | main.js:237 | The part of a URL between a known prefix and a known suffix is the text placed there. |
| Images.InitialSource | main.js:128-129 | The first `src` is the first candidate, or the fallback image when there is none. Either way it is a URL starting with "http" and not "http://". |
| Images.FinalPlaceholder | main.js:196 | The placeholder URL starts with "https://". |
| ImageFallback.ErrorBudget | main.js:191-197 | The handler deals with one error per candidate, and with at least one. |
| ImageFallback.SourceAfter | main.js:190-197 | After `k` errors the image shows the initial source for `k = 0`, then candidate `k`, and the placeholder once the budget is spent. |
| ImageFallback.ImageElement.constructor | main.js:128-140 | A rendered image starts at cursor 0 showing the initial source, with the handler attached. |
| ImageFallback.ImageElement.OnError | main.js:184-198 | While attached, an error advances the cursor by one to the next candidate, or shows the placeholder and detaches. It counts one handled error, and the remaining budget drops by one. A detached element changes nothing. The cursor stays below `max(N, 1)`. |
| Controller.SearchThenSort | main.js:52-64 | After a search, a product is listed exactly when it is in the catalog and matches the term. The list is a sub-multiset of the catalog. It is in catalog order without a sort and ordered with one. An empty term without a sort lists the whole catalog. |
| Controller.ProductList.constructor | main.js:3-10 | The initial state: no products, page 1, page size 10, no sort field, direction "asc". |
| Controller.ProductList.Load | main.js:41-43 | The catalog becomes the product list and its copy the filtered list, on page 1. Page size and sort configuration are kept. |
| Controller.ProductList.ApplySorting | main.js:79-91 | The filtered list becomes its sorted permutation, ordered by the configured field and unchanged without one. The rest of the state is untouched. |
| Controller.ProductList.HandleSearch | main.js:52-64 | The filtered list becomes the search result, re-sorted when a field is set, and stays within the catalog. The page resets to 1, and catalog, page size and sort are unchanged. |
| Controller.ProductList.HandleItemsPerPageChange | main.js:66-70 | The new page size is recorded, the page resets to 1, and the lists and the sort are unchanged. |
| Controller.ProductList.PageCount | main.js:204 | `Math.ceil(filteredProducts.length / itemsPerPage)`. A definition by `Paging.TotalPages`, whose contract gives the ceiling; `Controller.ProductList.Valid` keeps the current page within it. |
| Controller.ProductList.HandleSort | main.js:72-77 | The configuration becomes the request, and the filtered list becomes its permutation ordered by it. Exactly one sort button is active. Catalog, page and page size are unchanged. |
| Controller.ProductList.Visible | main.js:122-125 | The visible page holds at most a page's worth of products, and at least one when the list is non-empty. |
| Controller.ProductList.CurrentControls | main.js:110-119 | There are no page controls exactly when the filtered list is empty. |
| Controller.ProductList.ClickPageControl | main.js:212-216 | Clicking an enabled control moves to its target, which is a page from 1 to the page count, and changes nothing else. |
| Controller.ProductList.Render | main.js:107-129 | The counts, the table shown exactly for a non-empty list, one row per visible product with its initial image source, and the page controls. An empty list shows no rows and no controls. |

## Left out

- The network fetch, `response.ok`, JSON parsing and the try/catch/finally of `getAll`: `Load` takes the already-parsed product list.
- All DOM work. This covers element lookup, event wiring, the HTML template strings, `createElement`, `classList`, `style.display`, the loading and error banners, and `window.scrollTo`. Only their state-level effects are modelled: which rows and controls exist, which button is active, and whether the table shows.
- `escapeHtml`, a browser serialization call, and `Number(price).toFixed(2)`, which is floating-point formatting. Prices are whole numbers in the model.
- The 50 ms `setTimeout` that attaches the image handlers, and the `JSON.stringify`/`encodeURIComponent` round trip of the candidate list through `data-images` and `data-index`. The element holds the list and the cursor directly, so a parse failure in the handler does not arise.
- Text.Lower: folds only ASCII letters; the engine's full Unicode `toLowerCase` is not modelled.
- Text.Less: compares strings character by character as Dafny characters, not as UTF-16 code units, so strings outside the Basic Multilingual Plane may order differently.
- Sorting.SortProducts: the engine's own sort algorithm is not visible. The model sorts by insertion. It gives the guarantees a stable sort gives: a permutation, ordered, with equal-keyed products kept in input order (`Sorting.SortKeepsTies`).
- Images.Clean: an `images` entry that is a truthy non-string value (a number, an object, a nested array) is modelled as an absent entry. Its `toString()` text is not modelled; the model assumes that text never begins with "http" once cleaned.
- ImageFallback.ImageElement.constructor: the `alt` length is taken as the title's character count; HTML escaping of the title is not modelled.
- Text.IntToString: JavaScript writes a number whose magnitude is at least 1e21 in exponent notation in `${id}`. The model always writes the plain decimal digits.
- Controller.ProductList.HandleItemsPerPageChange: requires a positive page size. `parseInt` of the selector's value, and a `NaN` or zero result, are not modelled.
- Controller.ProductList.HandleSearch: its contract gives the new list as the search result re-sorted. What that list holds is proved separately by `Controller.SearchThenSort`.
- Controller.ProductList.Render: the rows of a hidden table are given as empty, because the code leaves the old rows in the hidden table body.
- Controller.ProductList.Load: the model does not re-apply an active sort after a load. The code does not either, so a later load shows the catalog order while a sort button is still marked.
