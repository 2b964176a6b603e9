/**
 * The sort engine: the comparator of `applySorting` and a sort of the working
 * list by that comparator.
 */
module Sorting {
  import opened Products
  import opened Text
  import opened Sequences

  datatype SortKey = Price | Title
  datatype Direction = Asc | Desc

  /** `sortConfig`: no field until the first sort request. */
  datatype SortConfig = SortConfig(field: Option<SortKey>, direction: Direction)

  const InitialConfig := SortConfig(None, Asc)

  /** The comparison before the direction is applied: 1 when `a > b`, -1 when
      `a < b`, 0 otherwise; titles are compared lower-cased, prices by value. */
  function KeyCompare(a: Product, b: Product, key: SortKey): int {
    match key
    case Price =>
      if a.price > b.price then 1 else if a.price < b.price then -1 else 0
    case Title =>
      var x, y := Lower(a.title), Lower(b.title);
      if Less(y, x) then 1 else if Less(x, y) then -1 else 0
  }

  /** The comparator handed to the engine: "desc" negates the comparison. */
  function Compare(a: Product, b: Product, key: SortKey, dir: Direction): int {
    var c := KeyCompare(a, b, key);
    if dir == Asc then c else -c
  }

  /** Two products tie exactly when their keys are equal. */
  lemma KeyCompareZero(a: Product, b: Product, key: SortKey)
    ensures KeyCompare(a, b, key) == 0 <==>
      match key
      case Price => a.price == b.price
      case Title => Lower(a.title) == Lower(b.title)
  {
    if key == Title {
      LessTotal(Lower(a.title), Lower(b.title));
      LessAsymmetric(Lower(a.title), Lower(b.title));
      LessIrreflexive(Lower(a.title));
    }
  }

  lemma KeyCompareAntisymmetric(a: Product, b: Product, key: SortKey)
    ensures KeyCompare(b, a, key) == -KeyCompare(a, b, key)
  {
    if key == Title {
      LessAsymmetric(Lower(a.title), Lower(b.title));
    }
  }

  lemma KeyCompareTransitive(a: Product, b: Product, c: Product, key: SortKey)
    requires KeyCompare(a, b, key) <= 0 && KeyCompare(b, c, key) <= 0
    ensures KeyCompare(a, c, key) <= 0
  {
    if key == Title {
      var x, y, z := Lower(a.title), Lower(b.title), Lower(c.title);
      LessTotal(x, y);
      LessTotal(y, z);
      LessAsymmetric(x, z);
      if Less(x, y) && Less(y, z) {
        LessTransitive(x, y, z);
      }
    }
  }

  /** The comparator in either direction is a total preorder. */
  lemma CompareAntisymmetric(a: Product, b: Product, key: SortKey, dir: Direction)
    ensures Compare(b, a, key, dir) == -Compare(a, b, key, dir)
  {
    KeyCompareAntisymmetric(a, b, key);
  }

  lemma CompareTransitive(a: Product, b: Product, c: Product, key: SortKey, dir: Direction)
    requires Compare(a, b, key, dir) <= 0 && Compare(b, c, key, dir) <= 0
    ensures Compare(a, c, key, dir) <= 0
  {
    if dir == Asc {
      KeyCompareTransitive(a, b, c, key);
    } else {
      KeyCompareAntisymmetric(a, b, key);
      KeyCompareAntisymmetric(b, c, key);
      KeyCompareAntisymmetric(a, c, key);
      KeyCompareTransitive(c, b, a, key);
    }
  }

  /** No pair of positions is out of order under the comparator. */
  ghost predicate Ordered(s: seq<Product>, key: SortKey, dir: Direction) {
    forall i, j :: 0 <= i < j < |s| ==> Compare(s[i], s[j], key, dir) <= 0
  }

  /** Strictly increasing keys. */
  ghost predicate StrictlyAscending(s: seq<Product>, key: SortKey) {
    forall i, j :: 0 <= i < j < |s| ==> KeyCompare(s[i], s[j], key) < 0
  }

  /** No two positions share a sort key. */
  ghost predicate DistinctKeys(s: seq<Product>, key: SortKey) {
    forall i, j :: 0 <= i < |s| && 0 <= j < |s| && i != j ==> KeyCompare(s[i], s[j], key) != 0
  }

  /** An element no greater than the head of an ordered list is no greater
      than any of its elements. */
  lemma HeadBound(x: Product, s: seq<Product>, key: SortKey, dir: Direction)
    requires Ordered(s, key, dir) && s != [] && Compare(x, s[0], key, dir) <= 0
    ensures forall k :: 0 <= k < |s| ==> Compare(x, s[k], key, dir) <= 0
  {
    forall k | 0 <= k < |s| ensures Compare(x, s[k], key, dir) <= 0 {
      if k > 0 { CompareTransitive(x, s[0], s[k], key, dir); }
    }
  }

  lemma ConsOrdered(h: Product, s: seq<Product>, key: SortKey, dir: Direction)
    requires Ordered(s, key, dir)
    requires forall k :: 0 <= k < |s| ==> Compare(h, s[k], key, dir) <= 0
    ensures Ordered([h] + s, key, dir)
  {
    var r := [h] + s;
    forall i, j | 0 <= i < j < |r| ensures Compare(r[i], r[j], key, dir) <= 0 {
      assert r[j] == s[j - 1];
      if i == 0 { assert r[i] == h; } else { assert r[i] == s[i - 1]; }
    }
  }

  /** Every element of `t` is bounded below by `h` when every element of the
      multiset it came from is. */
  lemma BoundFromMultiset(h: Product, t: seq<Product>, m: multiset<Product>, key: SortKey, dir: Direction)
    requires multiset(t) == m
    requires forall y :: y in m ==> Compare(h, y, key, dir) <= 0
    ensures forall k :: 0 <= k < |t| ==> Compare(h, t[k], key, dir) <= 0
  {
    forall k | 0 <= k < |t| ensures Compare(h, t[k], key, dir) <= 0 {
      assert t[k] in multiset(t);
    }
  }

  /** Puts `x` in front of the first element it does not exceed. */
  function Insert(x: Product, s: seq<Product>, key: SortKey, dir: Direction): (r: seq<Product>)
    requires Ordered(s, key, dir)
    ensures multiset(r) == multiset(s) + multiset{x}
    ensures Ordered(r, key, dir)
    decreases |s|
  {
    if s == [] then [x]
    else if Compare(x, s[0], key, dir) <= 0 then
      HeadBound(x, s, key, dir);
      ConsOrdered(x, s, key, dir);
      [x] + s
    else
      var tail := s[1..];
      assert s == [s[0]] + tail;
      assert Ordered(tail, key, dir);
      var rest := Insert(x, tail, key, dir);
      CompareAntisymmetric(x, s[0], key, dir);
      HeadBoundsTail(s, key, dir);
      BoundFromMultiset(s[0], rest, multiset(tail) + multiset{x}, key, dir);
      ConsOrdered(s[0], rest, key, dir);
      [s[0]] + rest
  }

  /** The head of an ordered list bounds every element of its tail. */
  lemma HeadBoundsTail(s: seq<Product>, key: SortKey, dir: Direction)
    requires Ordered(s, key, dir) && s != []
    ensures forall y :: y in multiset(s[1..]) ==> Compare(s[0], y, key, dir) <= 0
  {
    forall y | y in multiset(s[1..]) ensures Compare(s[0], y, key, dir) <= 0 {
      var k :| 0 <= k < |s[1..]| && s[1..][k] == y;
      assert s[k + 1] == y;
    }
  }

  /** The working list sorted by the comparator: a permutation of its input
      in which no pair is out of order. */
  function SortProducts(s: seq<Product>, key: SortKey, dir: Direction): (r: seq<Product>)
    ensures multiset(r) == multiset(s)
    ensures Ordered(r, key, dir)
    decreases |s|
  {
    if s == [] then []
    else
      assert s == [s[0]] + s[1..];
      Insert(s[0], SortProducts(s[1..], key, dir), key, dir)
  }

  /** `applySorting`: a no-op until a field has been chosen. */
  function ApplySorting(s: seq<Product>, config: SortConfig): (r: seq<Product>)
    ensures multiset(r) == multiset(s)
    ensures config.field.Some? ==> Ordered(r, config.field.value, config.direction)
    ensures config.field.None? ==> r == s
  {
    if config.field.None? then s else SortProducts(s, config.field.value, config.direction)
  }

  /** A list ordered for "desc", read backwards, is ordered for "asc". */
  lemma ReverseOfDescIsAsc(d: seq<Product>, key: SortKey)
    requires Ordered(d, key, Desc)
    ensures Ordered(Reverse(d), key, Asc)
  {
    var r := Reverse(d);
    forall i, j | 0 <= i < j < |r| ensures Compare(r[i], r[j], key, Asc) <= 0 {
      assert Compare(d[|d| - 1 - j], d[|d| - 1 - i], key, Desc) <= 0;
      KeyCompareAntisymmetric(r[i], r[j], key);
    }
  }

  /** Two ascending arrangements of the same elements, one strictly so, start
      with the same element. */
  lemma HeadsAgree(r: seq<Product>, t: seq<Product>, key: SortKey)
    requires StrictlyAscending(r, key)
    requires Ordered(t, key, Asc)
    requires multiset(r) == multiset(t) && r != []
    ensures t != [] && r[0] == t[0]
  {
    assert r[0] in multiset(t);
    var k :| 0 <= k < |t| && t[k] == r[0];
    assert t[0] in multiset(r);
    var m :| 0 <= m < |r| && r[m] == t[0];
    var r0, t0, tk, rm := r[0], t[0], t[k], r[m];
    KeyCompareAntisymmetric(r0, t0, key);
    KeyCompareZero(r0, r0, key);
    assert k == 0 || KeyCompare(t0, tk, key) <= 0;
    assert m == 0 || KeyCompare(r0, rm, key) < 0;
    if m > 0 {
      assert false;
    }
  }

  /** A strictly ascending list is the only ascending arrangement of its
      elements. */
  lemma {:induction false} AscendingUnique(r: seq<Product>, t: seq<Product>, key: SortKey)
    requires StrictlyAscending(r, key)
    requires Ordered(t, key, Asc)
    requires multiset(r) == multiset(t)
    ensures r == t
    decreases |r|
  {
    if r == [] {
      assert |t| == |multiset(t)| == 0;
    } else {
      HeadsAgree(r, t, key);
      TailMultiset(r);
      TailMultiset(t);
      AscendingUnique(r[1..], t[1..], key);
      assert r == [r[0]] + r[1..] && t == [t[0]] + t[1..];
    }
  }

  /** With distinct keys, any "desc" ordering of a list is the reverse of its
      "asc" ordering. */
  lemma DescIsReverseOfAsc(a: seq<Product>, d: seq<Product>, key: SortKey)
    requires StrictlyAscending(a, key)
    requires Ordered(d, key, Desc)
    requires multiset(d) == multiset(a)
    ensures d == Reverse(a)
  {
    ReverseOfDescIsAsc(d, key);
    ReversePermutes(d);
    AscendingUnique(a, Reverse(d), key);
    assert Reverse(Reverse(d)) == d;
  }

  lemma ConsStrict(h: Product, s: seq<Product>, key: SortKey)
    requires StrictlyAscending(s, key)
    requires forall y :: y in multiset(s) ==> KeyCompare(h, y, key) < 0
    ensures StrictlyAscending([h] + s, key)
  {
    var r := [h] + s;
    forall i, j | 0 <= i < j < |r| ensures KeyCompare(r[i], r[j], key) < 0 {
      assert r[j] == s[j - 1];
      if i > 0 { assert r[i] == s[i - 1]; } else { assert s[j - 1] in multiset(s); }
    }
  }

  /** The head of a strictly ascending list is below everything in the
      list obtained by inserting a larger `x` into its tail. */
  lemma HeadBelowInserted(x: Product, s: seq<Product>, rest: seq<Product>, key: SortKey)
    requires StrictlyAscending(s, key) && s != []
    requires KeyCompare(s[0], x, key) < 0
    requires multiset(rest) == multiset(s[1..]) + multiset{x}
    ensures forall y :: y in multiset(rest) ==> KeyCompare(s[0], y, key) < 0
  {
    forall y | y in multiset(rest) ensures KeyCompare(s[0], y, key) < 0 {
      if y != x {
        assert y in multiset(s[1..]);
        var k :| 0 <= k < |s[1..]| && s[1..][k] == y;
        assert s[k + 1] == y;
      }
    }
  }

  /** An `x` with a smaller key than the head of a strictly ascending list,
      and sharing no key with it, is below everything in it. */
  lemma BelowHead(x: Product, s: seq<Product>, key: SortKey)
    requires StrictlyAscending(s, key) && s != []
    requires KeyCompare(x, s[0], key) < 0
    requires forall y :: y in multiset(s) ==> KeyCompare(x, y, key) != 0
    ensures forall y :: y in multiset(s) ==> KeyCompare(x, y, key) < 0
  {
    forall y | y in multiset(s) ensures KeyCompare(x, y, key) < 0 {
      var k :| 0 <= k < |s| && s[k] == y;
      if k > 0 { KeyCompareTransitive(x, s[0], s[k], key); }
    }
  }

  lemma InsertAfterHead(x: Product, s: seq<Product>, key: SortKey)
    requires Ordered(s, key, Asc) && s != [] && Compare(x, s[0], key, Asc) > 0
    ensures Ordered(s[1..], key, Asc)
    ensures Insert(x, s, key, Asc) == [s[0]] + Insert(x, s[1..], key, Asc)
  {
  }

  lemma TailStrict(s: seq<Product>, key: SortKey)
    requires StrictlyAscending(s, key) && s != []
    ensures StrictlyAscending(s[1..], key)
  {
    forall i, j | 0 <= i < j < |s| - 1 ensures KeyCompare(s[1..][i], s[1..][j], key) < 0 {
      assert s[1..][i] == s[i + 1] && s[1..][j] == s[j + 1];
    }
  }

  lemma {:induction false} InsertStrict(x: Product, s: seq<Product>, key: SortKey)
    requires Ordered(s, key, Asc) && StrictlyAscending(s, key)
    requires forall y :: y in multiset(s) ==> KeyCompare(x, y, key) != 0
    ensures StrictlyAscending(Insert(x, s, key, Asc), key)
    decreases |s|
  {
    if s != [] {
      assert s[0] in multiset(s);
      if Compare(x, s[0], key, Asc) > 0 {
        var tail := s[1..];
        InsertAfterHead(x, s, key);
        TailStrict(s, key);
        TailMultiset(s);
        assert forall y :: y in multiset(tail) ==> y in multiset(s);
        InsertStrict(x, tail, key);
        var rest := Insert(x, tail, key, Asc);
        KeyCompareAntisymmetric(x, s[0], key);
        HeadBelowInserted(x, s, rest, key);
        ConsStrict(s[0], rest, key);
      } else {
        assert Insert(x, s, key, Asc) == [x] + s;
        BelowHead(x, s, key);
        ConsStrict(x, s, key);
      }
    }
  }

  /** Distinct keys sort to strictly ascending keys. */
  lemma {:induction false} SortStrict(s: seq<Product>, key: SortKey)
    requires DistinctKeys(s, key)
    ensures StrictlyAscending(SortProducts(s, key, Asc), key)
    decreases |s|
  {
    if s != [] {
      SortStrict(s[1..], key);
      var sorted := SortProducts(s[1..], key, Asc);
      forall y | y in multiset(sorted) ensures KeyCompare(s[0], y, key) != 0 {
        assert y in multiset(s[1..]);
        var k :| 0 <= k < |s[1..]| && s[1..][k] == y;
        assert s[k + 1] == y;
      }
      InsertStrict(s[0], sorted, key);
    }
  }

  /** Sorting "desc" yields exactly the reverse of sorting "asc" when no two
      products share a key. */
  lemma SortDescIsReverse(s: seq<Product>, key: SortKey)
    requires DistinctKeys(s, key)
    ensures SortProducts(s, key, Desc) == Reverse(SortProducts(s, key, Asc))
  {
    SortStrict(s, key);
    DescIsReverseOfAsc(SortProducts(s, key, Asc), SortProducts(s, key, Desc), key);
  }

  /** The products of `s` that tie with `c` on `key`, in their order in `s`. */
  function Ties(s: seq<Product>, c: Product, key: SortKey): (r: seq<Product>)
    ensures |r| <= |s|
    ensures forall p :: p in r ==> p in s && KeyCompare(p, c, key) == 0
    decreases |s|
  {
    if s == [] then []
    else (if KeyCompare(s[0], c, key) == 0 then [s[0]] else []) + Ties(s[1..], c, key)
  }

  /** `Ties` of a list with a given head. */
  lemma TiesCons(h: Product, t: seq<Product>, c: Product, key: SortKey)
    ensures Ties([h] + t, c, key) == (if KeyCompare(h, c, key) == 0 then [h] else []) + Ties(t, c, key)
  {
    assert ([h] + t)[1..] == t;
  }

  /** Past a head that `x` exceeds, insertion continues in the tail. */
  lemma InsertStep(x: Product, s: seq<Product>, key: SortKey, dir: Direction)
    requires Ordered(s, key, dir) && s != [] && Compare(x, s[0], key, dir) > 0
    ensures Ordered(s[1..], key, dir)
    ensures Insert(x, s, key, dir) == [s[0]] + Insert(x, s[1..], key, dir)
  {
    assert Ordered(s[1..], key, dir);
  }

  lemma SwapEmpty<T>(a: seq<T>, b: seq<T>, t: seq<T>)
    requires a == [] || b == []
    ensures a + (b + t) == b + (a + t)
  {
  }

  /** Inserting `x` puts it in front of the products it ties with. */
  lemma {:induction false} InsertKeepsTies(x: Product, s: seq<Product>, key: SortKey, dir: Direction, c: Product)
    requires Ordered(s, key, dir)
    ensures Ties(Insert(x, s, key, dir), c, key) ==
      (if KeyCompare(x, c, key) == 0 then [x] else []) + Ties(s, c, key)
    decreases |s|
  {
    if s == [] || Compare(x, s[0], key, dir) <= 0 {
      assert Insert(x, s, key, dir) == [x] + s;
      TiesCons(x, s, c, key);
    } else {
      var t := s[1..];
      InsertStep(x, s, key, dir);
      InsertKeepsTies(x, t, key, dir, c);
      TiesCons(s[0], Insert(x, t, key, dir), c, key);
      assert s == [s[0]] + t;
      TiesCons(s[0], t, c, key);
      TiesExclusive(x, s[0], c, key);
      SwapEmpty(if KeyCompare(s[0], c, key) == 0 then [s[0]] else [],
        if KeyCompare(x, c, key) == 0 then [x] else [], Ties(t, c, key));
    }
  }

  /** Two products with different keys cannot both tie with `c`. */
  lemma TiesExclusive(x: Product, y: Product, c: Product, key: SortKey)
    requires KeyCompare(x, y, key) != 0
    ensures KeyCompare(x, c, key) != 0 || KeyCompare(y, c, key) != 0
  {
    KeyCompareZero(x, y, key);
    KeyCompareZero(x, c, key);
    KeyCompareZero(y, c, key);
  }

  /** The sort is stable: the products that tie on the key keep the order
      they had in the input, in either direction. */
  lemma {:induction false} SortKeepsTies(s: seq<Product>, key: SortKey, dir: Direction, c: Product)
    ensures Ties(SortProducts(s, key, dir), c, key) == Ties(s, c, key)
    decreases |s|
  {
    if s != [] {
      SortKeepsTies(s[1..], key, dir, c);
      InsertKeepsTies(s[0], SortProducts(s[1..], key, dir), key, dir, c);
    }
  }

  /** Title order ignores ASCII case: "apple" sorts before "Banana",
      although 'B' comes before 'a' among the characters. */
  lemma TitleSortIgnoresCase(apple: Product, banana: Product)
    requires apple.title == "apple" && banana.title == "Banana"
    ensures Less(banana.title, apple.title)
    ensures SortProducts([banana, apple], Title, Asc) == [apple, banana]
  {
    AppleBeforeBanana();
    assert Compare(banana, apple, Title, Asc) > 0;
    assert [banana, apple][1..] == [apple];
    assert SortProducts([apple], Title, Asc) == [apple] by {
      assert [apple][1..] == [];
    }
  }

  /** Once lower-cased, "apple" comes strictly before "Banana". */
  lemma AppleBeforeBanana()
    ensures Less(Lower("apple"), Lower("Banana"))
    ensures !Less(Lower("Banana"), Lower("apple"))
  {
    assert Lower("apple") == "apple" && Lower("Banana") == "banana";
    assert Less("apple", "banana");
    assert !Less("banana", "apple");
  }
}
