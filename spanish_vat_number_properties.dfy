/**
  What the validator guarantees beyond single calls: validation sees only the normal form, and
  replacing any one digit of a valid identifier by another digit makes it invalid. The latter rests
  on two facts: 23 divides no number of the form e * 10^k with 0 < |e| <= 9, and the CIF
  contribution of a digit is a one-to-one function of the digit.
 */
module SpanishVatNumberProperties {
  import opened Digits
  import opened SpanishVatNumberValidator

  // ---------------------------------------------------------------------------------------
  // Normal form
  // ---------------------------------------------------------------------------------------

  /** With the default `normalize = true`, every validator depends on the normal form only. */
  lemma ValidationSeesNormalForm(s: string)
    ensures Validate(s) == Validate(Normalize(s), false)
    ensures ValidateDni(s) == ValidateDni(Normalize(s), false)
    ensures ValidateNie(s) == ValidateNie(Normalize(s), false)
    ensures ValidateCif(s) == ValidateCif(Normalize(s), false)
  {
  }

  /** Only strings that normalise to 9 characters can be valid. */
  lemma ValidNormalFormHasNineCharacters(s: string)
    requires Validate(s)
    ensures |Normalize(s)| == 9
    ensures ValidateDni(s) || ValidateNie(s) || ValidateCif(s)
  {
    ValidationSeesNormalForm(s);
    DispatchByShape(Normalize(s));
  }

  /** Two inputs with the same normal form get the same verdict from every validator. */
  lemma SameNormalFormSameVerdict(s: string, s': string)
    requires Normalize(s) == Normalize(s')
    ensures Validate(s) == Validate(s') && ValidateDni(s) == ValidateDni(s')
    ensures ValidateNie(s) == ValidateNie(s') && ValidateCif(s) == ValidateCif(s')
  {
    ValidationSeesNormalForm(s);
    ValidationSeesNormalForm(s');
  }

  /** Punctuation does not matter: a separator anywhere in the input leaves every verdict unchanged. */
  lemma SeparatorIgnoredByValidators(a: string, x: char, b: string)
    requires !IsAlphanumeric(x)
    ensures Validate(a + [x] + b) == Validate(a + b) && ValidateDni(a + [x] + b) == ValidateDni(a + b)
    ensures ValidateNie(a + [x] + b) == ValidateNie(a + b) && ValidateCif(a + [x] + b) == ValidateCif(a + b)
  {
    SeparatorIgnored(a, x, b);
    SameNormalFormSameVerdict(a + [x] + b, a + b);
  }

  /** Case does not matter: changing the case of one letter leaves every verdict unchanged. */
  lemma CaseIgnoredByValidators(s: string, i: nat, c: char)
    requires i < |s| && UpperChar(c) == UpperChar(s[i])
    ensures Validate(s[i := c]) == Validate(s) && ValidateDni(s[i := c]) == ValidateDni(s)
    ensures ValidateNie(s[i := c]) == ValidateNie(s) && ValidateCif(s[i := c]) == ValidateCif(s)
  {
    CaseIgnored(s, i, c);
    SameNormalFormSameVerdict(s[i := c], s);
  }

  // ---------------------------------------------------------------------------------------
  // Residues modulo 23
  // ---------------------------------------------------------------------------------------

  /** 23 divides no power of ten. */
  lemma {:induction false} Pow10Residue(k: nat)
    ensures Pow10(k) % 23 != 0
  {
    if k > 0 {
      Pow10Residue(k - 1);
      ScaledResidue(10, Pow10(k - 1));
    }
  }

  /** 23 is prime, so it divides no product of two smaller positive numbers. */
  lemma NoSmallMultipleOf23(e: int, r: int)
    requires 0 < e < 23 && 0 < r < 23
    ensures (e * r) % 23 != 0
  {
    if e == 1 {} else if e == 2 {} else if e == 3 {} else if e == 4 {} else if e == 5 {}
    else if e == 6 {} else if e == 7 {} else if e == 8 {} else if e == 9 {} else if e == 10 {}
    else if e == 11 {} else if e == 12 {} else if e == 13 {} else if e == 14 {} else if e == 15 {}
    else if e == 16 {} else if e == 17 {} else if e == 18 {} else if e == 19 {} else if e == 20 {}
    else if e == 21 {} else {}
  }

  /** Adding e * 10^k, for a nonzero digit difference e, always changes the residue modulo 23. */
  lemma DigitChangeMovesResidue(n: int, e: int, k: nat)
    requires e != 0 && -9 <= e <= 9
    ensures (n + e * Pow10(k)) % 23 != n % 23
  {
    var p := Pow10(k);
    Pow10Residue(k);
    var a := if e > 0 then e else -e;
    ScaledResidue(a, p);
    NegatedResidue(a * p);
    assert e * p == a * p || e * p == -(a * p);
    ResidueOfDifference(n, e * p);
  }

  /** A non-multiple of 23 times a number between 1 and 22 is still not a multiple of 23. */
  lemma ScaledResidue(a: int, p: int)
    requires 0 < a < 23 && p % 23 != 0
    ensures (a * p) % 23 != 0
  {
    var q, r := p / 23, p % 23;
    Distribute(a, q, r, p);
    ShiftKeepsResidue(a * q, a * r);
    NoSmallMultipleOf23(a, r);
  }

  lemma NegatedResidue(y: int)
    ensures y % 23 == 0 <==> (-y) % 23 == 0
  {
  }

  lemma Distribute(a: int, q: int, r: int, p: int)
    requires p == 23 * q + r
    ensures a * p == 23 * (a * q) + a * r
  {
  }

  lemma ShiftKeepsResidue(y: int, z: int)
    ensures (23 * y + z) % 23 == z % 23
  {
  }

  lemma ResidueOfDifference(n: int, x: int)
    ensures (n + x) % 23 == n % 23 ==> x % 23 == 0
  {
  }

  // ---------------------------------------------------------------------------------------
  // DNI and NIE
  // ---------------------------------------------------------------------------------------

  /** Replacing one of the eight digits of a valid DNI by another digit makes it invalid. */
  lemma DniDigitSubstitution(v: string, j: nat, c: char)
    requires ValidateDni(v, false) && j < 8 && IsDigit(c) && c != v[j]
    ensures IsDni(v[j := c]) && !ValidateDni(v[j := c], false)
  {
    var w := v[j := c];
    var p := v[..8];
    assert w[..8] == p[j := c];
    assert p[j] == v[j];
    ValueUpdate(p, j, c);
    var e := DigitValue(c) - DigitValue(p[j]);
    DigitChangeMovesResidue(Value(p), e, 7 - j);
    DniLettersDistinct(Value(p) % 23, Value(w[..8]) % 23);
  }

  /** Replacing one of the seven digits of a valid NIE by another digit makes it invalid. */
  lemma NieDigitSubstitution(v: string, j: nat, c: char)
    requires ValidateNie(v, false) && 1 <= j < 8 && IsDigit(c) && c != v[j]
    ensures IsNie(v[j := c]) && !ValidateNie(v[j := c], false)
  {
    var d := NieAsDni(v);
    assert ValidateDni(d, false);
    NieAsDniUpdate(v, j, c);
    DniDigitSubstitution(d, j, c);
  }

  /** Replacing one of the seven digits of a NIE replaces the same digit of its DNI form. */
  lemma NieAsDniUpdate(v: string, j: nat, c: char)
    requires IsNie(v) && 1 <= j < 8 && IsDigit(c)
    ensures IsNie(v[j := c]) && NieAsDni(v)[j] == v[j]
    ensures NieAsDni(v[j := c]) == NieAsDni(v)[j := c]
  {
    var w, d := v[j := c], NieAsDni(v);
    assert IsNie(w) by {
      LetterLeadingCanonical(v);
      forall m | 1 <= m < 8 ensures IsDigit(w[m]) {
        if m != j { assert w[m] == v[m]; }
      }
    }
    assert d[j] == d[1..][j - 1] == v[1..][j - 1];
    var e := NieAsDni(w);
    assert e[1..] == w[1..] == v[1..][j - 1 := c] == d[1..][j - 1 := c];
    assert e[0] == d[0];
    assert e == [e[0]] + e[1..];
    assert d[j := c] == [d[0]] + d[1..][j - 1 := c];
  }

  // ---------------------------------------------------------------------------------------
  // CIF
  // ---------------------------------------------------------------------------------------

  /** Different digits contribute differently: doubling then adding digits permutes 0..9. */
  lemma CifContributionInjective(a: nat, b: nat, i: nat)
    requires a < 10 && b < 10 && a != b
    ensures CifContribution(a, i) != CifContribution(b, i)
  {
    if i % 2 == 0 {
      DoubledContribution(a, i);
      DoubledContribution(b, i);
    }
  }

  /** At an even position a digit contributes `2d` below 5 and `2d - 9` from 5 on. */
  lemma DoubledContribution(d: nat, i: nat)
    requires d < 10 && i % 2 == 0
    ensures CifContribution(d, i) == if d < 5 then 2 * d else 2 * d - 9
  {
    var x := d * 2;
    if d < 5 {
      assert x / 10 == 0 && x % 10 == x;
    } else {
      assert x / 10 == 1 && x % 10 == x - 10;
    }
  }

  /** Replacing one digit changes the weighted sum by the difference of the two contributions. */
  lemma {:induction false} CifDigitSumUpdate(ds: string, k: nat, c: char)
    requires AllDigits(ds) && k < |ds| && IsDigit(c)
    ensures AllDigits(ds[k := c])
    ensures CifDigitSum(ds[k := c])
         == CifDigitSum(ds) - CifContribution(DigitValue(ds[k]), k) + CifContribution(DigitValue(c), k)
    decreases |ds|
  {
    var es := ds[k := c];
    ValueUpdate(ds, k, c);
    var n := |ds|;
    if k == n - 1 {
      assert es[..n - 1] == ds[..n - 1];
    } else {
      CifDigitSumUpdate(ds[..n - 1], k, c);
      assert es[..n - 1] == ds[..n - 1][k := c];
    }
  }

  /** Replacing one digit by another moves the CIF check position. */
  lemma CifCheckPositionMoves(ds: string, k: nat, c: char)
    requires AllDigits(ds) && k < |ds| && IsDigit(c) && c != ds[k]
    ensures AllDigits(ds[k := c]) && CifCheckPosition(ds[k := c]) != CifCheckPosition(ds)
  {
    CifDigitSumUpdate(ds, k, c);
    var a, b := CifContribution(DigitValue(ds[k]), k), CifContribution(DigitValue(c), k);
    CifContributionInjective(DigitValue(ds[k]), DigitValue(c), k);
    DifferentCompletion(CifDigitSum(ds), CifDigitSum(ds[k := c]), a, b,
      CifCheckPosition(ds), CifCheckPosition(ds[k := c]));
  }

  /** Sums that differ by less than 10 have different completions to a multiple of 10. */
  lemma DifferentCompletion(t: int, t': int, a: int, b: int, p: int, p': int)
    requires 0 <= a < 10 && 0 <= b < 10 && a != b && t' == t - a + b
    requires (t + p) % 10 == 0 && (t' + p') % 10 == 0 && 0 <= p < 10 && 0 <= p' < 10
    ensures p != p'
  {
  }

  /** The ten CIF control letters are pairwise distinct. */
  lemma CifControlLettersDistinct(i: nat, j: nat)
    requires i < 10 && j < 10 && i != j
    ensures CifControlLetters[i] != CifControlLetters[j]
  {
  }

  /** Replacing a digit of a valid CIF, the control digit included, by another digit makes it invalid. */
  lemma CifDigitSubstitution(v: string, j: nat, c: char)
    requires ValidateCif(v, false) && 1 <= j < 9 && IsDigit(v[j]) && IsDigit(c) && c != v[j]
    ensures IsCif(v[j := c]) && !ValidateCif(v[j := c], false)
  {
    var w := v[j := c];
    var ds := v[1..8];
    if j == 8 {
      assert w[1..8] == ds;
    } else {
      assert w[1..8] == ds[j - 1 := c];
      assert ds[j - 1] == v[j];
      CifCheckPositionMoves(ds, j - 1, c);
      var p, p' := CifCheckPosition(ds), CifCheckPosition(w[1..8]);
      if !IsDigit(v[8]) {
        CifControlLettersDistinct(p, p');
      }
    }
  }

  // ---------------------------------------------------------------------------------------
  // Substitution before normalisation
  // ---------------------------------------------------------------------------------------

  /** Replacing a kept character replaces the matching character of the cleaned string. */
  lemma RemoveSeparatorsUpdate(u: string, i: nat, c: char)
    requires i < |u| && IsAlphanumeric(u[i]) && IsAlphanumeric(c)
    ensures var k := |RemoveSeparators(u[..i])|;
      && k < |RemoveSeparators(u)| && RemoveSeparators(u)[k] == u[i]
      && RemoveSeparators(u[i := c]) == RemoveSeparators(u)[k := c]
  {
    var a, b := u[..i], u[i + 1..];
    assert u == a + [u[i]] + b;
    assert u[i := c] == a + [c] + b;
    KeptCharacter(a, u[i], b);
    KeptCharacter(a, c, b);
    UpdateBetween(RemoveSeparators(a), u[i], c, RemoveSeparators(b));
  }

  /** A letter or digit survives separator removal in place. */
  lemma KeptCharacter(a: string, x: char, b: string)
    requires IsAlphanumeric(x)
    ensures RemoveSeparators(a + [x] + b) == RemoveSeparators(a) + [x] + RemoveSeparators(b)
  {
    var y := [x];
    assert AllAlphanumeric(y);
    RemoveSeparatorsConcat(a, y);
    RemoveSeparatorsConcat(a + y, b);
  }

  /** Replacing the character between two strings. */
  lemma UpdateBetween(h: string, x: char, c: char, r: string)
    ensures (h + [x] + r)[|h|] == x && (h + [x] + r)[|h| := c] == h + [c] + r
  {
  }

  /** Where the character at position `i` of the raw input lands in the normal form. */
  function NormalizedPosition(s: string, i: nat): nat
    requires i < |s|
  {
    var t := RemoveSeparators(ToUpperInvariant(s));
    var pad := if 0 < |t| < 9 && IsDigit(t[0]) then 9 - |t| else 0;
    pad + |RemoveSeparators(ToUpperInvariant(s)[..i])|
  }

  /** Replacing a digit of the raw input by a digit replaces one digit of the normal form. */
  lemma NormalizeDigitSubstitution(s: string, i: nat, c: char)
    requires i < |s| && IsDigit(s[i]) && IsDigit(c)
    ensures var j := NormalizedPosition(s, i);
      && j < |Normalize(s)| && Normalize(s)[j] == s[i]
      && Normalize(s[i := c]) == Normalize(s)[j := c]
  {
    CleanedDigitSubstitution(s, i, c);
    var t := RemoveSeparators(ToUpperInvariant(s));
    var t' := RemoveSeparators(ToUpperInvariant(s[i := c]));
    var k := |RemoveSeparators(ToUpperInvariant(s)[..i])|;
    NormalizeVia(s, t);
    NormalizeVia(s[i := c], t');
    PaddedUpdate(t, k, c, Normalize(s), Normalize(s[i := c]), NormalizedPosition(s, i));
  }

  /** The padding step maps a substitution at `k` to one at the padded position. */
  lemma PaddedUpdate(t: string, k: nat, c: char, r: string, r': string, j: nat)
    requires k < |t| && (IsDigit(t[k := c][0]) <==> IsDigit(t[0]))
    requires var pad := 0 < |t| < 9 && IsDigit(t[0]);
      && r == (if pad then PadLeft(t, 9, '0') else t)
      && r' == (if pad then PadLeft(t[k := c], 9, '0') else t[k := c])
      && j == (if pad then 9 - |t| else 0) + k
    ensures j < |r| && r[j] == t[k] && r' == r[j := c]
  {
    if 0 < |t| < 9 && IsDigit(t[0]) {
      PadLeftUpdate(t, k, c, 9);
    }
  }

  /** The same substitution, before the padding step. */
  lemma CleanedDigitSubstitution(s: string, i: nat, c: char)
    requires i < |s| && IsDigit(s[i]) && IsDigit(c)
    ensures var t, k := RemoveSeparators(ToUpperInvariant(s)), |RemoveSeparators(ToUpperInvariant(s)[..i])|;
      && k < |t| && t[k] == s[i]
      && RemoveSeparators(ToUpperInvariant(s[i := c])) == t[k := c]
      && (IsDigit(t[k := c][0]) <==> IsDigit(t[0]))
  {
    var u := ToUpperInvariant(s);
    assert ToUpperInvariant(s[i := c]) == u[i := c];
    assert u[i] == s[i];
    RemoveSeparatorsUpdate(u, i, c);
  }

  /** Replacing a character of a padded string replaces the matching character of the result. */
  lemma PadLeftUpdate(t: string, k: nat, c: char, width: nat)
    requires k < |t| <= width
    ensures var j := width - |t| + k;
      && PadLeft(t, width, '0')[j] == t[k]
      && PadLeft(t[k := c], width, '0') == PadLeft(t, width, '0')[j := c]
  {
    var r, r' := PadLeft(t, width, '0'), PadLeft(t[k := c], width, '0');
    var z := width - |t|;
    assert r[z + k] == r[z..][k];
    forall m | 0 <= m < width ensures r'[m] == r[z + k := c][m] {
      if m >= z {
        assert r'[m] == r'[z..][m - z];
        assert r[m] == r[z..][m - z];
      }
    }
  }

  /** Replacing any digit of a valid raw DNI by another digit makes `ValidateDni` refuse it. */
  lemma DniRawDigitSubstitution(s: string, i: nat, c: char)
    requires ValidateDni(s) && i < |s| && IsDigit(s[i]) && IsDigit(c) && c != s[i]
    ensures !ValidateDni(s[i := c])
  {
    NormalizeDigitSubstitution(s, i, c);
    ValidationSeesNormalForm(s);
    ValidationSeesNormalForm(s[i := c]);
    DniNormalRejection(Normalize(s), Normalize(s[i := c]), NormalizedPosition(s, i), c);
  }

  /** Replacing any digit of a valid raw NIE by another digit makes `ValidateNie` refuse it. */
  lemma NieRawDigitSubstitution(s: string, i: nat, c: char)
    requires ValidateNie(s) && i < |s| && IsDigit(s[i]) && IsDigit(c) && c != s[i]
    ensures !ValidateNie(s[i := c])
  {
    NormalizeDigitSubstitution(s, i, c);
    ValidationSeesNormalForm(s);
    ValidationSeesNormalForm(s[i := c]);
    NieNormalRejection(Normalize(s), Normalize(s[i := c]), NormalizedPosition(s, i), c);
  }

  /** Replacing any digit of a valid raw CIF by another digit makes `ValidateCif` refuse it. */
  lemma CifRawDigitSubstitution(s: string, i: nat, c: char)
    requires ValidateCif(s) && i < |s| && IsDigit(s[i]) && IsDigit(c) && c != s[i]
    ensures !ValidateCif(s[i := c])
  {
    NormalizeDigitSubstitution(s, i, c);
    ValidationSeesNormalForm(s);
    ValidationSeesNormalForm(s[i := c]);
    CifNormalRejection(Normalize(s), Normalize(s[i := c]), NormalizedPosition(s, i), c);
  }

  /** Replacing any digit of a valid raw identifier by another digit makes `Validate` refuse it. */
  lemma DigitSubstitutionRejected(s: string, i: nat, c: char)
    requires Validate(s) && i < |s| && IsDigit(s[i]) && IsDigit(c) && c != s[i]
    ensures !Validate(s[i := c])
  {
    NormalizeDigitSubstitution(s, i, c);
    ValidationSeesNormalForm(s);
    ValidationSeesNormalForm(s[i := c]);
    ShapeRejection(Normalize(s), Normalize(s[i := c]), NormalizedPosition(s, i), c);
  }

  /** The normal-form half of `DigitSubstitutionRejected`. */
  lemma ShapeRejection(v: string, w: string, j: nat, c: char)
    requires Validate(v, false) && j < |v| && IsDigit(v[j]) && IsDigit(c) && c != v[j] && w == v[j := c]
    ensures !Validate(w, false)
  {
    DispatchByShape(v);
    if IsDni(v) {
      DniNormalRejection(v, w, j, c);
    } else if IsNie(v) {
      NieNormalRejection(v, w, j, c);
    } else {
      CifNormalRejection(v, w, j, c);
    }
  }

  /** A valid DNI with one digit replaced is refused by `ValidateDni` and by `Validate`. */
  lemma DniNormalRejection(v: string, w: string, j: nat, c: char)
    requires ValidateDni(v, false) && j < |v| && IsDigit(v[j]) && IsDigit(c) && c != v[j] && w == v[j := c]
    ensures !ValidateDni(w, false) && !Validate(w, false)
  {
    assert IsUpper(v[8]);
    DniDigitSubstitution(v, j, c);
    DispatchByShape(w);
  }

  /** A valid NIE with one digit replaced is refused by `ValidateNie` and by `Validate`. */
  lemma NieNormalRejection(v: string, w: string, j: nat, c: char)
    requires ValidateNie(v, false) && j < |v| && IsDigit(v[j]) && IsDigit(c) && c != v[j] && w == v[j := c]
    ensures !ValidateNie(w, false) && !Validate(w, false)
  {
    NieDigitPosition(v, j);
    NieDigitSubstitution(v, j, c);
    NieRefused(w);
  }

  /** The digits of a NIE sit at positions 1 to 7. */
  lemma NieDigitPosition(v: string, j: nat)
    requires IsNie(v) && j < |v| && IsDigit(v[j])
    ensures 1 <= j < 8
  {
    LetterLeadingCanonical(v);
  }

  lemma NieRefused(w: string)
    requires IsNie(w) && !ValidateNie(w, false)
    ensures !Validate(w, false)
  {
    DispatchByShape(w);
  }

  /** A valid CIF with one digit replaced is refused by `ValidateCif` and by `Validate`. */
  lemma CifNormalRejection(v: string, w: string, j: nat, c: char)
    requires ValidateCif(v, false) && j < |v| && IsDigit(v[j]) && IsDigit(c) && c != v[j] && w == v[j := c]
    ensures !ValidateCif(w, false) && !Validate(w, false)
  {
    LetterLeadingCanonical(v);
    CifDigitSubstitution(v, j, c);
    DispatchByShape(w);
  }
}
