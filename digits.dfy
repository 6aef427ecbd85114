/**
  Decimal numerals over ASCII: digit values, the value of a digit string, the text of a
  number (what `int.ToString()` and string interpolation produce), zero padding (`PadLeft`
  and the `D<n>` format) and `int.TryParse` restricted to digit strings.
 */
module Digits {
  import opened Wrappers

  /** Largest value of a .NET `int`. */
  const Int32Max: int := 0x7FFF_FFFF

  predicate IsDigit(c: char) {
    '0' <= c <= '9'
  }

  predicate AllDigits(s: string) {
    forall i :: 0 <= i < |s| ==> IsDigit(s[i])
  }

  function DigitValue(c: char): (d: nat)
    requires IsDigit(c)
    ensures d < 10
  {
    c as int - '0' as int
  }

  function DigitChar(d: nat): (c: char)
    requires d < 10
    ensures IsDigit(c) && DigitValue(c) == d
  {
    ('0' as int + d) as char
  }

  function Pow10(k: nat): (p: nat)
    ensures p >= 1
  {
    if k == 0 then 1 else 10 * Pow10(k - 1)
  }

  /** The number a string of decimal digits denotes, most significant digit first. */
  function Value(s: string): (n: nat)
    requires AllDigits(s)
    ensures n < Pow10(|s|)
  {
    if |s| == 0 then 0
    else
      var m := Value(s[..|s| - 1]);
      m * 10 + DigitValue(s[|s| - 1])
  }

  /** The shortest decimal text of a natural number (no sign, no leading zeros). */
  function Text(n: nat): (r: string)
    ensures 1 <= |r| && AllDigits(r) && Value(r) == n
    ensures |r| > 1 ==> r[0] != '0'
    decreases n
  {
    if n < 10 then
      var r := [DigitChar(n)];
      assert r[..0] == [];
      r
    else
      var t := Text(n / 10);
      var r := t + [DigitChar(n % 10)];
      assert r[..|r| - 1] == t;
      assert |t| == 1 ==> t[..0] == [] && Value(t) == DigitValue(t[0]);
      r
  }

  /** `String.PadLeft(width, pad)`: prepend `pad` until the string is `width` long; never truncates. */
  function PadLeft(s: string, width: nat, pad: char): (r: string)
    ensures |r| == if |s| < width then width else |s|
    ensures r[|r| - |s|..] == s
    ensures forall i :: 0 <= i < |r| - |s| ==> r[i] == pad
  {
    if |s| < width then seq(width - |s|, _ => pad) + s else s
  }

  /** The `D<width>` format of a natural number: its text, zero-padded on the left to `width` digits. */
  function Format(n: nat, width: nat): (r: string)
    ensures AllDigits(r) && Value(r) == n
    ensures 0 < width && n < Pow10(width) ==> |r| == width
  {
    var t := Text(n);
    TextLength(n, width);
    ZerosKeepValue(t, width);
    PadLeft(t, width, '0')
  }

  /** `int.TryParse` on a string of ASCII digits: fails on the empty string and beyond `Int32Max`. */
  function TryParse(s: string): (r: Option<nat>)
    ensures r.Some? <==> |s| > 0 && AllDigits(s) && Value(s) <= Int32Max
    ensures r.Some? ==> r.value == Value(s)
  {
    if |s| == 0 || !AllDigits(s) then None
    else if Value(s) > Int32Max then None
    else Some(Value(s))
  }

  /** `int.ToString()`: a minus sign for negative numbers, then the decimal text. */
  function IntToString(k: int): (r: string)
    ensures 0 <= k ==> AllDigits(r) && Value(r) == k && (|r| > 1 ==> r[0] != '0')
    ensures k < 0 ==> |r| > 1 && r[0] == '-' && AllDigits(r[1..]) && Value(r[1..]) == -k && (|r| > 2 ==> r[1] != '0')
  {
    if k < 0 then
      var t := Text(-k);
      var r := "-" + t;
      assert r[1..] == t;
      r
    else Text(k)
  }

  lemma {:induction false} TextLength(n: nat, k: nat)
    ensures n < Pow10(k) ==> |Text(n)| <= k || k == 0
    decreases n
  {
    if n >= 10 && k > 0 && n < Pow10(k) {
      assert k >= 2;
      TextLength(n / 10, k - 1);
    }
  }

  /** A number of at least `10^k` takes more than `k` digits. */
  lemma {:induction false} TextLonger(n: nat, k: nat)
    requires Pow10(k) <= n
    ensures k < |Text(n)|
    decreases k
  {
    if k > 0 {
      var p := Pow10(k - 1);
      assert 10 * p <= n;
      assert p <= n / 10;
      TextLonger(n / 10, k - 1);
    }
  }

  /** Leading zeros do not change the value of a digit string. */
  lemma {:induction false} ZerosKeepValue(s: string, width: nat)
    requires AllDigits(s)
    ensures AllDigits(PadLeft(s, width, '0')) && Value(PadLeft(s, width, '0')) == Value(s)
    decreases |s|
  {
    var r := PadLeft(s, width, '0');
    assert AllDigits(r) by {
      forall i | 0 <= i < |r| ensures IsDigit(r[i]) {
        if i >= |r| - |s| {
          assert r[i] == r[|r| - |s|..][i - (|r| - |s|)];
        }
      }
    }
    if |s| < width {
      var z := |r| - |s|;
      if |s| == 0 {
        ZerosValue(r);
      } else {
        var s' := s[..|s| - 1];
        ZerosKeepValue(s', width - 1);
        assert r[..|r| - 1] == PadLeft(s', width - 1, '0');
        assert r[|r| - 1] == s[|s| - 1];
      }
    }
  }

  lemma {:induction false} ZerosValue(z: string)
    requires forall i :: 0 <= i < |z| ==> z[i] == '0'
    ensures AllDigits(z) && Value(z) == 0
  {
    if |z| > 0 {
      ZerosValue(z[..|z| - 1]);
    }
  }

  lemma ScaleByTen(m: int, e: int, p: int)
    ensures (m + e * p) * 10 == m * 10 + e * (10 * p)
  {
  }

  /**
    Replacing the digit at position `j` by `c` changes the value by the difference of the two
    digits times the weight of position `j`.
   */
  lemma {:induction false} ValueUpdate(s: string, j: nat, c: char)
    requires AllDigits(s) && j < |s| && IsDigit(c)
    ensures AllDigits(s[j := c])
    ensures Value(s[j := c]) == Value(s) + (DigitValue(c) - DigitValue(s[j])) * Pow10(|s| - 1 - j)
    decreases |s|
  {
    var t := s[j := c];
    var n := |s|;
    UpdateKeepsDigits(s, j, c);
    if j == n - 1 {
      assert t[..n - 1] == s[..n - 1];
    } else {
      ValueUpdate(s[..n - 1], j, c);
      assert t[..n - 1] == s[..n - 1][j := c];
      assert t[n - 1] == s[n - 1];
      var p := Pow10(n - 2 - j);
      assert Pow10(n - 1 - j) == 10 * p;
      ScaleByTen(Value(s[..n - 1]), DigitValue(c) - DigitValue(s[j]), p);
    }
  }

  lemma UpdateKeepsDigits(s: string, j: nat, c: char)
    requires AllDigits(s) && j < |s| && IsDigit(c)
    ensures AllDigits(s[j := c])
  {
    var t := s[j := c];
    forall i | 0 <= i < |t| ensures IsDigit(t[i]) {
      if i != j { assert t[i] == s[i]; }
    }
  }

  /** Appending a digit: the value of the first `k + 1` digits from that of the first `k`. */
  lemma ValueStep(s: string, k: nat)
    requires AllDigits(s) && k < |s|
    ensures Value(s[..k + 1]) == Value(s[..k]) * 10 + DigitValue(s[k])
  {
    assert s[..k + 1][..k] == s[..k];
  }
}
