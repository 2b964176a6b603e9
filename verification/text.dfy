/**
 * String primitives the controller relies on: ASCII case folding (the model's
 * `toLowerCase`), the whitespace trim of `String.prototype.trim`, prefix and
 * substring tests, the relational `<` on strings, and decimal rendering of
 * integers inside template strings.
 */
module Text {

  /** The code points that `trim` removes: WhiteSpace and LineTerminator. */
  predicate IsSpace(c: char) {
    var n := c as int;
    n == 0x09 || n == 0x0A || n == 0x0B || n == 0x0C || n == 0x0D || n == 0x20
    || n == 0xA0 || n == 0x1680 || (0x2000 <= n <= 0x200A) || n == 0x2028
    || n == 0x2029 || n == 0x202F || n == 0x205F || n == 0x3000 || n == 0xFEFF
  }

  predicate IsUpper(c: char) {
    'A' <= c <= 'Z'
  }

  function LowerChar(c: char): char {
    if IsUpper(c) then (c as int + 32) as char else c
  }

  /** Case folding restricted to ASCII letters. */
  function Lower(s: string): (r: string)
    ensures |r| == |s|
    ensures forall i :: 0 <= i < |s| ==> r[i] == LowerChar(s[i])
    ensures forall i :: 0 <= i < |r| ==> !IsUpper(r[i])
  {
    seq(|s|, i requires 0 <= i < |s| => LowerChar(s[i]))
  }

  lemma LowerIdempotent(s: string)
    ensures Lower(Lower(s)) == Lower(s)
  {
  }

  /** Drops the leading whitespace: what is left starts with a non-space, and
      only spaces were removed. */
  function TrimStart(s: string): (r: string)
    ensures |r| <= |s| && r == s[|s| - |r|..]
    ensures r == [] || !IsSpace(r[0])
    ensures forall i :: 0 <= i < |s| - |r| ==> IsSpace(s[i])
    decreases |s|
  {
    if s != [] && IsSpace(s[0]) then TrimStart(s[1..]) else s
  }

  /** Drops the trailing whitespace: what is left ends with a non-space, and
      only spaces were removed. */
  function TrimEnd(s: string): (r: string)
    ensures |r| <= |s| && r == s[..|r|]
    ensures r == [] || !IsSpace(r[|r| - 1])
    ensures forall i :: |r| <= i < |s| ==> IsSpace(s[i])
    decreases |s|
  {
    if s != [] && IsSpace(s[|s| - 1]) then TrimEnd(s[..|s| - 1]) else s
  }

  /** Every character of `s` is white space. */
  predicate AllSpace(s: string) {
    forall i :: 0 <= i < |s| ==> IsSpace(s[i])
  }

  /** `r` is `s` with white space, and only white space, removed from
      before index `k` and after the window `s[k..k + |r|]`. */
  predicate TrimmedAt(s: string, r: string, k: int) {
    OccursAt(s, r, k) && AllSpace(s[..k]) && AllSpace(s[k + |r|..])
  }

  /** `trim()`: removes the white space at both ends and nothing else. */
  function Trim(s: string): (r: string)
    ensures r == [] || (!IsSpace(r[0]) && !IsSpace(r[|r| - 1]))
    ensures exists k :: OccursAt(s, r, k)
    ensures exists k :: TrimmedAt(s, r, k)
    ensures forall c :: c in r ==> c in s
  {
    var t := TrimStart(s);
    var r := TrimEnd(t);
    PrefixOfSuffix(s, t, r);
    var k := |s| - |t|;
    assert AllSpace(s[..k]);
    assert s[k + |r|..] == t[|r|..];
    assert TrimmedAt(s, r, k);
    r
  }

  /** A prefix of a suffix of `s` is a window of `s`. */
  lemma PrefixOfSuffix(s: string, t: string, r: string)
    requires |t| <= |s| && t == s[|s| - |t|..]
    requires |r| <= |t| && r == t[..|r|]
    ensures OccursAt(s, r, |s| - |t|)
    ensures forall c :: c in r ==> c in s
  {
    var off := |s| - |t|;
    assert s[off..off + |r|] == r;
    forall c | c in r ensures c in s {
      var i :| 0 <= i < |r| && r[i] == c;
      assert s[off + i] == c;
    }
  }

  /** A string with no whitespace at either end is its own trim. */
  lemma TrimOfTrimmed(s: string)
    requires s == [] || (!IsSpace(s[0]) && !IsSpace(s[|s| - 1]))
    ensures Trim(s) == s
  {
  }

  /** `s.startsWith(p)`. */
  predicate StartsWith(s: string, p: string) {
    |p| <= |s| && s[..|p|] == p
  }

  /** `t` occurs in `s` starting at index `i`. */
  predicate OccursAt(s: string, t: string, i: int) {
    0 <= i <= |s| - |t| && s[i..i + |t|] == t
  }

  /** `s.includes(t)`: some window of `s` equals `t`. */
  function Contains(s: string, t: string): (b: bool)
    ensures b <==> exists i :: OccursAt(s, t, i)
    decreases |s|
  {
    if StartsWith(s, t) then
      assert OccursAt(s, t, 0);
      true
    else if s == [] then
      false
    else
      var b := Contains(s[1..], t);
      OccursInTail(s, t);
      if b then
        var j :| OccursAt(s[1..], t, j);
        assert OccursAt(s, t, j + 1);
        true
      else
        false
  }

  /** Past index 0, an occurrence in `s` is an occurrence in `s[1..]`. */
  lemma OccursInTail(s: string, t: string)
    requires s != [] && !StartsWith(s, t)
    ensures forall i :: OccursAt(s, t, i) <==> i >= 1 && OccursAt(s[1..], t, i - 1)
  {
    forall i
      ensures OccursAt(s, t, i) <==> i >= 1 && OccursAt(s[1..], t, i - 1)
    {
      if 1 <= i <= |s| - |t| {
        assert s[1..][i - 1..i - 1 + |t|] == s[i..i + |t|];
      }
    }
  }

  /** The relational `a < b` on strings: lexicographic on characters, a proper
      prefix being the smaller. */
  function Less(a: string, b: string): (r: bool)
    ensures r <==> ProperPrefix(a, b) || exists i :: FirstDifference(a, b, i)
    decreases |a|
  {
    if b == [] then false
    else if a == [] then
      assert ProperPrefix(a, b);
      true
    else if a[0] != b[0] then
      forall i | 0 < i <= |a| && i <= |b| ensures a[..i] != b[..i] {
        assert a[..i][0] != b[..i][0];
      }
      assert a[0] < b[0] ==> FirstDifference(a, b, 0);
      assert !ProperPrefix(a, b) by {
        if |a| < |b| { assert b[..|a|][0] == b[0]; }
      }
      a[0] < b[0]
    else
      SameHeadShift(a, b);
      Less(a[1..], b[1..])
  }

  /** Past an equal first character, prefixes and first differences are
      those of the tails, shifted by one. */
  lemma SameHeadShift(a: string, b: string)
    requires a != [] && b != [] && a[0] == b[0]
    ensures ProperPrefix(a, b) <==> ProperPrefix(a[1..], b[1..])
    ensures forall i :: FirstDifference(a, b, i) <==> i >= 1 && FirstDifference(a[1..], b[1..], i - 1)
    ensures (exists i :: FirstDifference(a, b, i)) <==> exists j :: FirstDifference(a[1..], b[1..], j)
  {
    assert a == [a[0]] + a[1..] && b == [b[0]] + b[1..];
    if |a| < |b| {
      assert b[1..][..|a| - 1] == b[..|a|][1..];
    }
    forall i ensures FirstDifference(a, b, i) <==> i >= 1 && FirstDifference(a[1..], b[1..], i - 1) {
      if 1 <= i < |a| && i < |b| {
        var ta, tb := a[1..], b[1..];
        assert a[..i] == [a[0]] + ta[..i - 1];
        assert b[..i] == [b[0]] + tb[..i - 1];
        assert a[..i] == b[..i] <==> ta[..i - 1] == tb[..i - 1];
        assert a[i] == ta[i - 1] && b[i] == tb[i - 1];
      }
    }
    if exists j :: FirstDifference(a[1..], b[1..], j) {
      var j :| FirstDifference(a[1..], b[1..], j);
      assert FirstDifference(a, b, j + 1);
    }
  }

  /** `a` is a proper prefix of `b`. */
  predicate ProperPrefix(a: string, b: string) {
    |a| < |b| && a == b[..|a|]
  }

  /** `a` and `b` agree before index `i`, where `a` has the smaller
      character. */
  predicate FirstDifference(a: string, b: string, i: int) {
    0 <= i < |a| && i < |b| && a[..i] == b[..i] && a[i] < b[i]
  }

  lemma {:induction false} LessIrreflexive(a: string)
    ensures !Less(a, a)
    decreases |a|
  {
    if a != [] {
      LessIrreflexive(a[1..]);
    }
  }

  lemma {:induction false} LessAsymmetric(a: string, b: string)
    ensures Less(a, b) ==> !Less(b, a)
    decreases |a|
  {
    if a != [] && b != [] && a[0] == b[0] {
      LessAsymmetric(a[1..], b[1..]);
    }
  }

  lemma {:induction false} LessTotal(a: string, b: string)
    ensures a == b || Less(a, b) || Less(b, a)
    decreases |a|
  {
    if a != [] && b != [] && a[0] == b[0] {
      LessTotal(a[1..], b[1..]);
      if a[1..] == b[1..] {
        assert a == [a[0]] + a[1..] && b == [b[0]] + b[1..];
      }
    }
  }

  lemma {:induction false} LessTransitive(a: string, b: string, c: string)
    requires Less(a, b) && Less(b, c)
    ensures Less(a, c)
    decreases |a|
  {
    if a != [] && a[0] == b[0] && b[0] == c[0] {
      LessTransitive(a[1..], b[1..], c[1..]);
    }
  }

  function DigitChar(d: nat): (c: char)
    requires d < 10
    ensures '0' <= c <= '9'
    ensures c as int - '0' as int == d
  {
    ('0' as int + d) as char
  }

  /** The number a string of decimal digits denotes. */
  function DigitsValue(s: string): int
    decreases |s|
  {
    if s == [] then 0 else DigitsValue(s[..|s| - 1]) * 10 + (s[|s| - 1] as int - '0' as int)
  }

  /** Decimal digits of a natural number, no leading zeros. */
  function NatToString(n: nat): (s: string)
    ensures |s| >= 1 && (|s| == 1 <==> n < 10)
    ensures forall i :: 0 <= i < |s| ==> '0' <= s[i] <= '9'
    ensures DigitsValue(s) == n
    ensures n >= 1 ==> s[0] != '0'
    decreases n
  {
    if n < 10 then
      assert [DigitChar(n)][..0] == [];
      [DigitChar(n)]
    else
      var prefix := NatToString(n / 10);
      var s := prefix + [DigitChar(n % 10)];
      assert s[..|s| - 1] == prefix;
      s
  }

  lemma DigitCharInjective(a: nat, b: nat)
    requires a < 10 && b < 10 && DigitChar(a) == DigitChar(b)
    ensures a == b
  {
  }

  /** Different numbers print differently. */
  lemma {:induction false} NatToStringInjective(a: nat, b: nat)
    requires NatToString(a) == NatToString(b)
    ensures a == b
    decreases a
  {
    var s := NatToString(a);
    if a < 10 || b < 10 {
      DigitCharInjective(a % 10, b % 10);
    } else {
      var k := |s| - 1;
      assert NatToString(a / 10) == s[..k] == NatToString(b / 10);
      NatToStringInjective(a / 10, b / 10);
      DigitCharInjective(a % 10, b % 10);
    }
  }

  /** `${n}` for an integer. */
  function IntToString(n: int): (s: string)
    ensures |s| >= 1
    ensures s[0] == '-' <==> n < 0
    ensures n >= 0 ==> DigitsValue(s) == n
    ensures n < 0 ==> |s| >= 2 && DigitsValue(s[1..]) == -n
    ensures forall i :: (if n < 0 then 1 else 0) <= i < |s| ==> '0' <= s[i] <= '9'
  {
    if n < 0 then
      DropSign(NatToString(-n));
      "-" + NatToString(-n)
    else NatToString(n)
  }

  lemma IntToStringInjective(a: int, b: int)
    requires IntToString(a) == IntToString(b)
    ensures a == b
  {
    var x, y := IntToString(a), IntToString(b);
    if a < 0 && b < 0 {
      DropSign(NatToString(-a));
      DropSign(NatToString(-b));
      NatToStringInjective(-a, -b);
    } else if a >= 0 && b >= 0 {
      NatToStringInjective(a, b);
    }
  }

  lemma DropSign(digits: string)
    ensures ("-" + digits)[1..] == digits
  {
  }
}
