/**
 * Image resolution for one table row: the candidate URLs made from a
 * product's `images` field, the image shown first, and the two fixed
 * fallback URLs.
 */
module Images {
  import opened Products
  import opened Text
  import opened Sequences

  /** Brackets, double quotes and backslashes: the characters the cleaning
      step deletes. */
  predicate IsStripped(c: char) {
    c == '[' || c == ']' || c == '"' || c == '\\'
  }

  /** No stripped character occurs in `s`. */
  predicate Unstripped(s: string) {
    forall c :: c in s ==> !IsStripped(c)
  }

  /** Deletes every stripped character and keeps the rest in order. */
  function StripChars(s: string): (r: string)
    ensures |r| <= |s|
    ensures Unstripped(r)
    ensures forall c :: c in r ==> c in s
    ensures Unstripped(s) ==> r == s
    decreases |s|
  {
    if s == [] then []
    else
      var rest := StripChars(s[1..]);
      assert forall c :: c in s[1..] ==> c in s;
      assert s == [s[0]] + s[1..];
      if IsStripped(s[0]) then rest else [s[0]] + rest
  }

  /** A URL on the deny-list of known-broken placeholder images. */
  predicate IsBroken(s: string) {
    Contains(s, "3a98.png") || Contains(s, "b7105.png") || Contains(s, "placeimg.com")
  }

  lemma TrimKeepsUnstripped(a: string)
    requires Unstripped(a)
    ensures Unstripped(Trim(a))
  {
  }

  /** Drops one leading comma. */
  function DropComma(a: string): (b: string)
    ensures Unstripped(a) ==> Unstripped(b)
    ensures (a == [] || !IsSpace(a[|a| - 1])) ==> (b == [] || !IsSpace(b[|b| - 1]))
  {
    if StartsWith(a, ",") then
      assert forall c :: c in a[1..] ==> c in a;
      a[1..]
    else a
  }

  /** Rewrites an `http://` prefix as `https://`. */
  function Upgrade(b: string): (r: string)
    ensures !StartsWith(r, "http://")
    ensures Unstripped(b) ==> Unstripped(r)
    ensures b != [] ==> r != [] && r[|r| - 1] == b[|b| - 1]
    ensures !StartsWith(b, "http://") ==> r == b
  {
    if StartsWith(b, "http://") then
      var scheme := "https://";
      var r := scheme + b[7..];
      assert r[4] == 's';
      assert Unstripped(scheme) by {
        forall c | c in scheme ensures !IsStripped(c) {
          var i :| 0 <= i < |scheme| && scheme[i] == c;
        }
      }
      assert forall c :: c in r ==> c in scheme || c in b[7..];
      assert forall c :: c in b[7..] ==> c in b;
      r
    else b
  }

  /** What the `.map` step makes of one raw entry: empty for an empty entry;
      otherwise stripped, trimmed, without one leading comma, and with an
      `http://` prefix upgraded to `https://`. */
  function Clean(raw: RawImage): (r: string)
    ensures Unstripped(r)
    ensures !StartsWith(r, "http://")
    ensures r == [] || !IsSpace(r[|r| - 1])
  {
    match raw
    case Absent => ""
    case Url(text) =>
      if text == "" then ""
      else
        var stripped := StripChars(text);
        LaterStepsClean(stripped);
        Upgrade(DropComma(Trim(stripped)))
  }

  /** The steps after stripping keep a string free of stripped characters,
      leave no `http://` prefix and end in a non-space. */
  lemma LaterStepsClean(a: string)
    requires Unstripped(a)
    ensures var r := Upgrade(DropComma(Trim(a)));
      Unstripped(r) && !StartsWith(r, "http://") && (r == [] || !IsSpace(r[|r| - 1]))
  {
    var t := Trim(a);
    TrimKeepsUnstripped(a);
    var b := DropComma(t);
    assert Unstripped(b) && (b == [] || !IsSpace(b[|b| - 1]));
  }

  /** The `.filter` step: non-empty, beginning with "http", not on the
      deny-list. */
  predicate Usable(s: string) {
    s != "" && StartsWith(s, "http") && !IsBroken(s)
  }

  function CleanAll(raws: seq<RawImage>): (r: seq<string>)
    ensures |r| == |raws|
    ensures forall i :: 0 <= i < |raws| ==> r[i] == Clean(raws[i])
  {
    seq(|raws|, i requires 0 <= i < |raws| => Clean(raws[i]))
  }

  /** What every surviving candidate satisfies. */
  predicate IsCandidate(s: string) {
    && StartsWith(s, "http")
    && !StartsWith(s, "http://")
    && Unstripped(s)
    && !IsBroken(s)
    && !IsSpace(s[|s| - 1])
  }

  /** The `.filter` step: every copy of a usable string is kept, and no
      copy of any other. */
  function KeepUsable(cleaned: seq<string>): (r: seq<string>)
    ensures |r| <= |cleaned|
    ensures forall s :: s in r <==> s in cleaned && Usable(s)
    ensures forall s :: multiset(r)[s] == if Usable(s) then multiset(cleaned)[s] else 0
    decreases |cleaned|
  {
    if cleaned == [] then []
    else
      var rest := KeepUsable(cleaned[1..]);
      assert forall s :: s in cleaned <==> s == cleaned[0] || s in cleaned[1..];
      assert cleaned == [cleaned[0]] + cleaned[1..];
      if Usable(cleaned[0]) then [cleaned[0]] + rest else rest
  }

  lemma {:induction false} KeepUsableIsSubsequence(cleaned: seq<string>)
    ensures IsSubsequence(KeepUsable(cleaned), cleaned)
    decreases |cleaned|
  {
    if cleaned == [] {
      assert SubsequenceVia([], cleaned, []);
    } else {
      KeepUsableIsSubsequence(cleaned[1..]);
      SubsequenceCons(KeepUsable(cleaned[1..]), cleaned, Usable(cleaned[0]));
    }
  }

  /** The entries of the `images` field: an array as it is, a single string
      as a one-element list, anything else as no entries. */
  function RawEntries(field: ImagesField): seq<RawImage> {
    match field
    case ImageList(entries) => entries
    case ImageText(text) => [Url(text)]
    case NoImages => []
  }

  /** `normalizeImageCandidates` on the entries of the `images` field: every
      result is a usable `https`-or-other `http...` URL free of stripped
      characters and deny-listed names, no longer than its input list. */
  function NormalizeList(raws: seq<RawImage>): (r: seq<string>)
    ensures |r| <= |raws|
    ensures forall s :: s in r ==> IsCandidate(s)
  {
    var cleaned := CleanAll(raws);
    var r := KeepUsable(cleaned);
    forall s | s in r ensures IsCandidate(s) {
      var i :| 0 <= i < |raws| && cleaned[i] == s;
      UsableCleanIsCandidate(raws[i]);
    }
    r
  }

  lemma UsableCleanIsCandidate(raw: RawImage)
    requires Usable(Clean(raw))
    ensures IsCandidate(Clean(raw))
  {
  }

  /** `normalizeImageCandidates(product)`: a single string yields at most
      one candidate, a field that is neither an array nor a string none. */
  function NormalizeImageCandidates(p: Product): (r: seq<string>)
    ensures forall s :: s in r ==> IsCandidate(s)
    ensures p.images.NoImages? ==> r == []
    ensures p.images.ImageText? ==> |r| <= 1
    ensures p.images.ImageList? ==> |r| <= |p.images.entries|
  {
    NormalizeList(RawEntries(p.images))
  }

  /** The candidates keep the order of the cleaned entries they came from. */
  lemma NormalizeKeepsOrder(raws: seq<RawImage>)
    ensures IsSubsequence(NormalizeList(raws), CleanAll(raws))
  {
    KeepUsableIsSubsequence(CleanAll(raws));
  }

  /** A candidate, cleaned again, is unchanged. */
  lemma CleanFixesCandidate(s: string)
    requires IsCandidate(s)
    ensures Clean(Url(s)) == s
  {
    assert StripChars(s) == s;
    CleanAfterStrip(s, s);
  }

  /** Candidates fed back in as raw entries. */
  function AsEntries(cands: seq<string>): (raws: seq<RawImage>)
    ensures |raws| == |cands|
    ensures forall i :: 0 <= i < |cands| ==> raws[i] == Url(cands[i])
  {
    seq(|cands|, i requires 0 <= i < |cands| => Url(cands[i]))
  }

  lemma {:induction false} KeepUsableKeepsAll(cleaned: seq<string>)
    requires forall s :: s in cleaned ==> Usable(s)
    ensures KeepUsable(cleaned) == cleaned
    decreases |cleaned|
  {
    if cleaned != [] {
      var h, t := cleaned[0], cleaned[1..];
      assert cleaned == [h] + t;
      assert Usable(h) by { assert h in cleaned; }
      forall s | s in t ensures Usable(s) { assert s in cleaned; }
      KeepUsableKeepsAll(t);
      KeepUsableCons(h, t);
    }
  }

  /** The filter on a list with a head: the head, if usable, then the filter
      on the rest. */
  lemma KeepUsableCons(h: string, t: seq<string>)
    ensures KeepUsable([h] + t) == (if Usable(h) then [h] else []) + KeepUsable(t)
  {
    assert ([h] + t)[1..] == t;
  }

  /** Normalising the candidates again gives them back unchanged. */
  lemma NormalizeIdempotent(cands: seq<string>)
    requires forall s :: s in cands ==> IsCandidate(s)
    ensures NormalizeList(AsEntries(cands)) == cands
  {
    var raws := AsEntries(cands);
    forall i | 0 <= i < |cands| ensures CleanAll(raws)[i] == cands[i] {
      assert cands[i] in cands;
      CleanFixesCandidate(cands[i]);
    }
    assert CleanAll(raws) == cands;
    KeepUsableKeepsAll(cands);
  }

  lemma {:induction false} StripCharsAppend(x: string, y: string)
    ensures StripChars(x + y) == StripChars(x) + StripChars(y)
    decreases |x|
  {
    if x == [] {
      assert x + y == y;
    } else {
      assert (x + y)[1..] == x[1..] + y;
      StripCharsAppend(x[1..], y);
    }
  }

  /** An entry whose stripped form is already a candidate cleans to it. */
  lemma CleanAfterStrip(s: string, u: string)
    requires s != "" && StripChars(s) == u && IsCandidate(u)
    ensures Clean(Url(s)) == u
  {
    assert u != [] && u[..4] == "http";
    LaterStepsKeep(u);
  }

  /** Trimming, dropping a comma and upgrading leave alone a string that
      starts with "http" but not "http://" and ends in a non-space. */
  lemma LaterStepsKeep(u: string)
    requires u != [] && |u| >= 4 && u[..4] == "http" && !StartsWith(u, "http://")
    requires !IsSpace(u[|u| - 1])
    ensures Upgrade(DropComma(Trim(u))) == u
  {
    assert u[0] == 'h';
    TrimOfTrimmed(u);
    assert DropComma(u) == u;
  }

  /** Quotes around a URL (a JSON-encoded entry) are removed. */
  lemma CleanUnquotes(u: string)
    requires IsCandidate(u)
    ensures Clean(Url("\"" + u + "\"")) == u
  {
    var q := "\"";
    assert StripChars(q) == [] by {
      assert q[1..] == [];
    }
    StripCharsAppend(q, u);
    StripCharsAppend(q + u, q);
    CleanAfterStrip(q + u + q, u);
  }

  /** A leading comma, left over from splitting a list, is removed. */
  lemma CleanDropsComma(u: string)
    requires IsCandidate(u)
    ensures Clean(Url("," + u)) == u
  {
    var s := "," + u;
    assert s[0] == ',' && s[1..] == u;
    assert StripChars(s) == s;
    TrimOfTrimmed(s);
    assert u[0] == 'h';
  }

  /** A plain `http://` URL is upgraded to `https://`. */
  lemma CleanUpgradesHttp(t: string)
    requires IsCandidate("https://" + t)
    ensures Clean(Url("http://" + t)) == "https://" + t
  {
    var u := "http://" + t;
    HttpFormIsClean(t);
    TrimOfTrimmed(u);
    assert u[0] == 'h';
    assert DropComma(u) == u;
    assert u[..7] == "http://" && u[7..] == t;
  }

  /** The `http://` form of a candidate has no stripped characters and no
      whitespace at either end. */
  lemma HttpFormIsClean(t: string)
    requires IsCandidate("https://" + t)
    ensures StripChars("http://" + t) == "http://" + t
    ensures !IsSpace(("http://" + t)[|"http://" + t| - 1])
  {
    var u, v := "http://" + t, "https://" + t;
    forall c | c in u ensures !IsStripped(c) {
      var i :| 0 <= i < |u| && u[i] == c;
      if i < 4 { assert v[i] == c; } else { assert v[i + 1] == c; }
      assert c in v;
    }
    assert v[|v| - 1] == u[|u| - 1];
  }

  /** A string that lacks a character of `t` cannot contain `t`. */
  lemma MissingCharNotContained(s: string, t: string, c: char)
    requires c in t && c !in s
    ensures !Contains(s, t)
  {
    var k :| 0 <= k < |t| && t[k] == c;
    forall i | 0 <= i <= |s| - |t| ensures !OccursAt(s, t, i) {
      assert s[i..i + |t|][k] == s[i + k];
      assert s[i + k] in s;
    }
  }

  lemma NotBroken(s: string)
    requires '3' !in s && '7' !in s && 'c' !in s
    ensures !IsBroken(s)
  {
    MissingCharNotContained(s, "3a98.png", '3');
    MissingCharNotContained(s, "b7105.png", '7');
    MissingCharNotContained(s, "placeimg.com", 'c');
  }

  /** The image shown when no candidate survives: `picsum.photos` seeded with
      the product id, or 1 when the id is 0. */
  function FallbackImage(id: int): (r: string)
    ensures StartsWith(r, "https://")
    ensures StartsWith(r, "http") && !StartsWith(r, "http://")
  {
    var scheme := "https://";
    var r := scheme + ("picsum.photos/seed/" + IntToString(SeedOf(id)) + "/80/80");
    assert r[..|scheme|] == scheme;
    assert r[..4] == "http" && r[4] == 's';
    r
  }

  /** Distinct products get distinct fallback images, except that ids 0 and 1
      share one. */
  lemma FallbackImageDistinct(a: int, b: int)
    ensures FallbackImage(a) == FallbackImage(b) <==> a == b || (a == 0 && b == 1) || (a == 1 && b == 0)
  {
    if FallbackImage(a) == FallbackImage(b) {
      var x, y := SeedOf(a), SeedOf(b);
      FallbackSeedText(a);
      FallbackSeedText(b);
      assert IntToString(x) == IntToString(y);
      IntToStringInjective(x, y);
    }
  }

  /** The seed `id || 1` of the fallback image. */
  function SeedOf(id: int): (seed: int)
    ensures seed != 0
    ensures id != 0 ==> seed == id
  {
    if id == 0 then 1 else id
  }

  /** The seed can be read back from the fallback URL. */
  lemma FallbackSeedText(id: int)
    ensures var u := FallbackImage(id);
      |u| >= 33 && u[27..|u| - 6] == IntToString(SeedOf(id))
  {
    InnerPart("https://", "picsum.photos/seed/", IntToString(SeedOf(id)), "/80/80");
  }

  /** The part between a known prefix and a known suffix. */
  lemma InnerPart(scheme: string, host: string, d: string, post: string)
    ensures var u := scheme + ((host + d) + post);
      u[|scheme| + |host|..|u| - |post|] == d
  {
    var u := scheme + ((host + d) + post);
    var k := |scheme| + |host|;
    assert forall i :: 0 <= i < |d| ==> u[k + i] == d[i];
  }

  /** `src` of the row's image: the first candidate, else the fallback. It
      is always a URL beginning with "http" and never a plain `http://` one. */
  function InitialSource(p: Product): (src: string)
    ensures StartsWith(src, "http") && !StartsWith(src, "http://")
    ensures NormalizeImageCandidates(p) == [] ==> src == FallbackImage(p.id)
    ensures NormalizeImageCandidates(p) != [] ==> src == NormalizeImageCandidates(p)[0]
  {
    var cands := NormalizeImageCandidates(p);
    if |cands| > 0 then
      assert cands[0] in cands;
      cands[0]
    else
      FallbackImage(p.id)
  }

  /** The generic placeholder used once the candidates are exhausted, locked
      to the length of the image's alt text. */
  function FinalPlaceholder(altLength: nat): (r: string)
    ensures StartsWith(r, "https://")
    ensures StartsWith(r, "http") && !StartsWith(r, "http://")
  {
    var scheme := "https://";
    var r := scheme + ("loremflickr.com/80/80/product?lock=" + NatToString(altLength));
    assert r[..|scheme|] == scheme;
    assert r[..4] == "http" && r[4] == 's';
    r
  }
}
