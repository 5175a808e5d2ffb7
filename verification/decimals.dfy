/**
 * Decimal literals as the dimension parser's fallback pattern `[+-]?\d*\.?\d+`
 * matches them: an optional sign, then digits, or digits, a point and at least one
 * digit. Positions are indices into the text rather than slices of it.
 */
module Decimals {
  import opened Wrappers
  import opened Strings

  predicate IsDigit(c: char) {
    '0' <= c <= '9'
  }

  /** Length of the run of digits that starts at index `a` of `s`. */
  function DigitRunAt(s: string, a: nat): (n: nat)
    requires a <= |s|
    decreases |s| - a
    ensures a + n <= |s|
    ensures forall i :: a <= i < a + n ==> IsDigit(s[i])
    ensures a + n == |s| || !IsDigit(s[a + n])
  {
    if a == |s| || !IsDigit(s[a]) then 0 else 1 + DigitRunAt(s, a + 1)
  }

  /** A run is determined by its digits and the non-digit (or the end) that stops it. */
  lemma {:induction false} DigitRunUnique(s: string, a: nat, n: nat)
    requires a + n <= |s|
    requires forall i :: a <= i < a + n ==> IsDigit(s[i])
    requires a + n == |s| || !IsDigit(s[a + n])
    ensures DigitRunAt(s, a) == n
  {
  }

  /** Cutting `s` at `m` cuts every run at `m`. */
  lemma {:induction false} DigitRunPrefix(s: string, a: nat, m: nat)
    requires a <= m <= |s|
    ensures DigitRunAt(s[..m], a) == if a + DigitRunAt(s, a) < m then DigitRunAt(s, a) else m - a
  {
    var d := DigitRunAt(s, a);
    var n := if a + d < m then d else m - a;
    var q := s[..m];
    assert forall i :: a <= i < a + n ==> q[i] == s[i];
    if a + n < m {
      assert q[a + n] == s[a + d];
    }
    DigitRunUnique(q, a, n);
  }

  /** 1 when `s` starts with a sign, else 0. */
  function SignLen(s: string): (n: nat)
    ensures n <= |s|
  {
    if |s| > 0 && (s[0] == '+' || s[0] == '-') then 1 else 0
  }

  /** Where the point would be: after the sign and the leading digits. */
  function PointAt(p: string): (k: nat)
    ensures k <= |p|
  {
    SignLen(p) + DigitRunAt(p, SignLen(p))
  }

  predicate IsDecimal(p: string) {
    var k := PointAt(p);
    (k == |p| && k > SignLen(p)) ||
    (k + 1 < |p| && p[k] == '.' && DigitRunAt(p, k + 1) == |p| - k - 1)
  }

  /** Where the digits after a point at `PointAt(s)` end. */
  function FractionEnd(s: string): (e: nat)
    requires PointAt(s) < |s|
    ensures e <= |s|
  {
    PointAt(s) + 1 + DigitRunAt(s, PointAt(s) + 1)
  }

  /** The prefix `re.match(r'([+-]?\d*\.?\d+)', s)` captures, if any. */
  function NumericPrefix(s: string): Option<string> {
    var k := PointAt(s);
    if k + 1 < |s| && s[k] == '.' && IsDigit(s[k + 1]) then Some(s[..FractionEnd(s)])
    else if k > SignLen(s) then Some(s[..k])
    else None
  }

  lemma {:induction false} SignLenPrefix(s: string, m: nat)
    requires 0 < m <= |s|
    ensures SignLen(s[..m]) == SignLen(s)
  {
    assert s[..m][0] == s[0];
  }

  /** The captured prefix is a decimal literal at the start of `s`. */
  lemma {:induction false} NumericPrefixSound(s: string)
    ensures NumericPrefix(s).Some? ==> IsDecimal(NumericPrefix(s).value) && StartsWith(s, NumericPrefix(s).value)
  {
    var k := PointAt(s);
    if k + 1 < |s| && s[k] == '.' && IsDigit(s[k + 1]) {
      FractionPrefixSound(s);
    } else if k > SignLen(s) {
      SignLenPrefix(s, k);
      DigitRunPrefix(s, SignLen(s), k);
    }
  }

  lemma {:induction false} FractionPrefixSound(s: string)
    requires PointAt(s) + 1 < |s| && s[PointAt(s)] == '.' && IsDigit(s[PointAt(s) + 1])
    ensures IsDecimal(s[..FractionEnd(s)])
  {
    var sl := SignLen(s);
    var k := PointAt(s);
    var f := DigitRunAt(s, k + 1);
    assert f >= 1;
    var m := FractionEnd(s);
    var p := s[..m];
    assert SignLen(p) == sl by { SignLenPrefix(s, m); }
    assert DigitRunAt(p, sl) == k - sl by { DigitRunPrefix(s, sl, m); }
    assert DigitRunAt(p, k + 1) == f by { DigitRunPrefix(s, k + 1, m); }
    DecimalFromParts(p, sl, k);
  }

  lemma {:induction false} DecimalFromParts(p: string, sl: nat, k: nat)
    requires SignLen(p) == sl <= k
    requires DigitRunAt(p, sl) == k - sl
    requires k + 1 < |p| && p[k] == '.' && DigitRunAt(p, k + 1) == |p| - k - 1
    ensures IsDecimal(p)
  {
  }

  /** Every decimal literal at the start of `s` is captured, and none is longer than the capture. */
  lemma {:induction false} NumericPrefixLongest(s: string, m: nat)
    requires m <= |s| && IsDecimal(s[..m])
    ensures NumericPrefix(s).Some? && m <= |NumericPrefix(s).value|
  {
    var q := s[..m];
    var sl := SignLen(s);
    var k := PointAt(s);
    SignLenPrefix(s, m);
    DigitRunPrefix(s, sl, m);
    var kq := PointAt(q);
    if kq + 1 < m && q[kq] == '.' && DigitRunAt(q, kq + 1) == m - kq - 1 {
      assert kq == k;
      assert s[k] == q[k];
      assert IsDigit(q[k + 1]);
      DigitRunPrefix(s, k + 1, m);
    }
  }

  function Pow10(n: nat): (r: nat)
    ensures r > 0
  {
    if n == 0 then 1 else 10 * Pow10(n - 1)
  }

  /** The number the digits `s[a..b]` spell. */
  function NatValue(s: string, a: nat, b: nat): nat
    requires a <= b <= |s|
    requires forall i :: a <= i < b ==> IsDigit(s[i])
    decreases b - a
  {
    if a == b then 0
    else
      assert IsDigit(s[b - 1]);
      10 * NatValue(s, a, b - 1) + (s[b - 1] as int - '0' as int)
  }

  /** The exact value a decimal literal denotes. */
  function DecimalValue(p: string): real
    requires IsDecimal(p)
  {
    var sl := SignLen(p);
    var k := PointAt(p);
    var magnitude :=
      if k == |p| then NatValue(p, sl, k) as real
      else NatValue(p, sl, k) as real + NatValue(p, k + 1, |p|) as real / Pow10(|p| - k - 1) as real;
    if sl == 1 && p[0] == '-' then -magnitude else magnitude
  }

  /** A decimal literal is a single word that ends in a digit. */
  lemma {:induction false} DecimalShape(p: string)
    requires IsDecimal(p)
    ensures IsWord(p) && IsDigit(p[|p| - 1])
  {
    var sl := SignLen(p);
    var k := PointAt(p);
    forall i | 0 <= i < |p| ensures !IsWhitespace(p[i]) {
      if sl <= i < k {
        assert IsDigit(p[i]);
      } else if k < i {
        assert IsDigit(p[i]);
      }
    }
  }

  lemma {:induction false} ZeroIsDecimal()
    ensures IsDecimal("0") && DecimalValue("0") == 0.0
  {
    DigitRunUnique("0", 0, 1);
  }
}
