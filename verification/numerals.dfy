/**
 * How the writers turn numbers into text: Python's `str()` of an integer, written out
 * in full, and `str()` of a float, which stays an abstract formatter.
 */
module Numerals {
  import opened Strings
  import opened Decimals

  function DigitChar(d: nat): (c: char)
    requires d < 10
    ensures IsDigit(c) && c as int - '0' as int == d
  {
    ('0' as int + d) as char
  }

  /** `str(n)` for a natural number: its decimal digits, without leading zeros. */
  function NatToString(n: nat): (s: string)
    ensures |s| > 0
    ensures forall i :: 0 <= i < |s| ==> IsDigit(s[i])
    ensures |s| > 1 ==> s[0] != '0'
  {
    if n < 10 then [DigitChar(n)]
    else
      var init := NatToString(n / 10);
      assert (init + [DigitChar(n % 10)])[0] == init[0];
      init + [DigitChar(n % 10)]
  }

  /** The digits before `b` are all the value of `s[a..b]` depends on. */
  lemma {:induction false} NatValuePrefix(s: string, t: string, a: nat, b: nat)
    requires a <= b <= |s|
    requires forall i :: a <= i < b ==> IsDigit(s[i])
    ensures forall i :: a <= i < b ==> IsDigit((s + t)[i])
    ensures NatValue(s + t, a, b) == NatValue(s, a, b)
    decreases b - a
  {
    assert forall i :: a <= i < b ==> (s + t)[i] == s[i];
    if a < b {
      NatValuePrefix(s, t, a, b - 1);
    }
  }

  /** Reading the digits back gives the number: `int(str(n)) == n`. */
  lemma {:induction false} NatToStringValue(n: nat)
    ensures NatValue(NatToString(n), 0, |NatToString(n)|) == n
  {
    var s := NatToString(n);
    if n >= 10 {
      var init := NatToString(n / 10);
      NatToStringValue(n / 10);
      NatValuePrefix(init, [DigitChar(n % 10)], 0, |init|);
      assert s == init + [DigitChar(n % 10)];
      assert NatValue(s, 0, |s|) == 10 * NatValue(s, 0, |init|) + n % 10;
    } else {
      assert NatValue(s, 0, 1) == 10 * NatValue(s, 0, 0) + n;
    }
  }

  /** Different numbers are written differently. */
  lemma {:induction false} NatToStringInjective(m: nat, n: nat)
    requires NatToString(m) == NatToString(n)
    ensures m == n
  {
    NatToStringValue(m);
    NatToStringValue(n);
  }

  /** `str(i)` for any integer: a minus sign before the digits of a negative one. */
  function IntToString(i: int): (s: string)
    ensures |s| > 0
    ensures i >= 0 ==> s == NatToString(i)
    ensures i < 0 ==> s == "-" + NatToString(-i)
  {
    if i < 0 then "-" + NatToString(-i) else NatToString(i)
  }

  /** Different integers are written differently. */
  lemma {:induction false} IntToStringInjective(i: int, j: int)
    requires IntToString(i) == IntToString(j)
    ensures i == j
  {
    var a := NatToString(if i < 0 then -i else i);
    var b := NatToString(if j < 0 then -j else j);
    if i < 0 && j < 0 {
      assert a == IntToString(i)[1..] == IntToString(j)[1..] == b;
      NatToStringInjective(-i, -j);
    } else if i >= 0 && j >= 0 {
      NatToStringInjective(i, j);
    }
  }

  /** A written integer is one word: no whitespace, so no line break either. */
  lemma {:induction false} IntToStringIsWord(i: int)
    ensures IsWord(IntToString(i))
    ensures '\n' !in IntToString(i)
  {
    var s := IntToString(i);
    var d := NatToString(if i < 0 then -i else i);
    forall k | 0 <= k < |s| ensures !IsWhitespace(s[k]) {
      if i < 0 && k > 0 {
        assert s[k] == d[k - 1];
      }
    }
  }

  /** Python's `str()` (or an f-string field) applied to a float; left abstract. */
  type Formatter = real -> string

  /** A formatter whose every output is a single word. */
  ghost predicate WordFormatter(fmt: Formatter) {
    forall x :: IsWord(fmt(x))
  }

  function HexDigit(d: nat): (c: char)
    requires d < 16
  {
    if d < 10 then ('0' as int + d) as char else ('A' as int + d - 10) as char
  }

  /** The value of an upper-case hexadecimal digit. */
  function HexDigitValue(c: char): nat {
    if '0' <= c <= '9' then c as int - '0' as int
    else if 'A' <= c <= 'F' then c as int - 'A' as int + 10
    else 0
  }

  function Pow16(k: nat): (p: nat)
    ensures p > 0
  {
    if k == 0 then 1 else 16 * Pow16(k - 1)
  }

  /** `'%0*X' % (width, n)`: the last `width` upper-case hexadecimal digits of `n`, zero-padded. */
  function HexDigits(n: nat, width: nat): (s: string)
    ensures |s| == width
    ensures forall i :: 0 <= i < |s| ==> '0' <= s[i] <= '9' || 'A' <= s[i] <= 'F'
  {
    if width == 0 then "" else HexDigits(n / 16, width - 1) + [HexDigit(n % 16)]
  }

  /** The number a string of hexadecimal digits denotes. */
  function HexValue(s: string): nat {
    if |s| == 0 then 0 else 16 * HexValue(s[..|s| - 1]) + HexDigitValue(s[|s| - 1])
  }

  /** Reading the digits back gives the number, when it fits in the width. */
  lemma {:induction false} HexDigitsValue(n: nat, width: nat)
    requires n < Pow16(width)
    ensures HexValue(HexDigits(n, width)) == n
  {
    if width > 0 {
      var s := HexDigits(n, width);
      HexDigitsValue(n / 16, width - 1);
      assert s[..|s| - 1] == HexDigits(n / 16, width - 1);
      assert HexDigitValue(s[|s| - 1]) == n % 16;
    }
  }

  /** `'#%06X' % n`: a colour written as six hexadecimal digits. */
  function HexColour(n: nat): (s: string)
    requires n <= 0xFFFFFF
    ensures |s| == 7 && s[0] == '#'
    ensures HexValue(s[1..]) == n
  {
    assert Pow16(6) == 0x1000000;
    HexDigitsValue(n, 6);
    "#" + HexDigits(n, 6)
  }
}
