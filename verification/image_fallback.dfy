/**
 * The progressive fallback of one product image: the element keeps its
 * candidate list and a cursor, moves to the next candidate on each load
 * error, and finally settles on a placeholder and stops handling errors.
 */
module ImageFallback {
  import opened Products
  import opened Text
  import opened Images

  function Max(a: int, b: int): int {
    if a >= b then a else b
  }

  /** How many load errors the handler deals with before it detaches:
      one per candidate, and one for the fallback when there is none. */
  function ErrorBudget(cands: seq<string>): (n: nat)
    ensures n >= 1 && n >= |cands|
  {
    Max(|cands|, 1)
  }

  /** The image source after `k` handled errors, starting from `first`. */
  function SourceAfter(cands: seq<string>, first: string, altLength: nat, k: nat): (src: string)
    ensures k == 0 ==> src == first
    ensures 0 < k < |cands| ==> src == cands[k]
    ensures k >= ErrorBudget(cands) ==> src == FinalPlaceholder(altLength)
  {
    if k == 0 then first
    else if k < |cands| then cands[k]
    else FinalPlaceholder(altLength)
  }

  class ImageElement {
    /** The list built by `normalizeImageCandidates` for the row. */
    const candidates: seq<string>
    /** The source the row was rendered with. */
    const initial: string
    /** Length of the `alt` text, which seeds the placeholder. */
    const altLength: nat
    /** `data-index`: the candidate currently shown. */
    var index: nat
    var src: string
    /** Whether `onerror` is still set. */
    var handling: bool
    /** How many errors the handler has dealt with. */
    ghost var errors: nat

    ghost predicate Valid()
      reads this
    {
      && errors <= ErrorBudget(candidates)
      && (handling <==> errors < ErrorBudget(candidates))
      && index == (if errors < ErrorBudget(candidates) then errors else ErrorBudget(candidates) - 1)
      && src == SourceAfter(candidates, initial, altLength, errors)
      && StartsWith(src, "http") && !StartsWith(src, "http://")
      && (forall c :: c in candidates ==> StartsWith(c, "http") && !StartsWith(c, "http://"))
      && StartsWith(initial, "http") && !StartsWith(initial, "http://")
    }

    /** Handled errors still to come before the handler detaches. */
    function Remaining(): (n: nat)
      reads this
    {
      if handling && index < ErrorBudget(candidates) then ErrorBudget(candidates) - index else 0
    }

    /** The image of a rendered row: cursor at 0, showing the first
        candidate or, with none, the product's fallback image. */
    constructor (p: Product)
      ensures candidates == NormalizeImageCandidates(p)
      ensures initial == InitialSource(p) && src == initial
      ensures altLength == |p.title|
      ensures index == 0 && handling && errors == 0
      ensures Valid()
    {
      candidates := NormalizeImageCandidates(p);
      initial := InitialSource(p);
      altLength := |p.title|;
      index := 0;
      src := InitialSource(p);
      handling := true;
      errors := 0;
      new;
      forall c | c in candidates
        ensures StartsWith(c, "http") && !StartsWith(c, "http://")
      {
        assert IsCandidate(c);
      }
    }

    /** The `onerror` handler: try the next candidate if there is one,
        otherwise show the placeholder and detach. A detached element
        ignores further errors. */
    method OnError()
      requires Valid()
      modifies this
      ensures Valid()
      ensures old(handling) ==> errors == old(errors) + 1 && Remaining() == old(Remaining()) - 1
      ensures !old(handling) ==> unchanged(this)
      ensures index < Max(|candidates|, 1)
      ensures old(handling) && |candidates| > old(index) + 1 ==>
        index == old(index) + 1 && src == candidates[index] && handling
      ensures old(handling) && |candidates| <= old(index) + 1 ==>
        index == old(index) && src == FinalPlaceholder(altLength) && !handling
    {
      if !handling {
        return;
      }
      if |candidates| > index + 1 {
        index := index + 1;
        src := candidates[index];
      } else {
        src := FinalPlaceholder(altLength);
        handling := false;
      }
      errors := errors + 1;
    }
  }
}
