/**
  The Spanish tax-identifier validator: normalisation of the raw text, the three shapes (DNI for
  individuals, NIE for foreign residents, CIF for legal entities), the check character of each,
  and the dispatcher that routes a normalised identifier to the validator of its shape.
  Every operation is a total function of its string argument; the `normalize` flag keeps the
  default value `true` it has in the .NET interface.
 */
module SpanishVatNumberValidator {
  import opened Wrappers
  import opened Digits

  /** DNI check letters, indexed by the 8-digit number modulo 23. */
  const DniLetters: string := "TRWAGMYFPDXBNJZSQVHLCKE"
  /** NIE prefixes; each stands for its own position as a leading digit. */
  const NiePrefixes: string := "XYZ"
  /** The class letters a CIF may start with. */
  const CifClassLetters: string := "ABCDEFGHJKLMNPQRSUVW"
  /** Letter form of the CIF control character, indexed by the check position. */
  const CifControlLetters: string := "JABCDEFGHI"
  /** CIF classes whose control character must be a letter. */
  const LetterControlClasses: string := "PQRSW"

  // ---------------------------------------------------------------------------------------
  // Characters (ASCII)
  // ---------------------------------------------------------------------------------------

  predicate IsUpper(c: char) {
    'A' <= c <= 'Z'
  }

  predicate IsLower(c: char) {
    'a' <= c <= 'z'
  }

  /** `char.IsLetter` on the ASCII alphabet. */
  predicate IsLetter(c: char) {
    IsUpper(c) || IsLower(c)
  }

  /** The characters that survive `[\W_]+` removal: letters and digits (the underscore goes). */
  predicate IsAlphanumeric(c: char) {
    IsLetter(c) || IsDigit(c)
  }

  /** Letters and digits only: what separator removal keeps. */
  predicate AllAlphanumeric(s: string) {
    forall i :: 0 <= i < |s| ==> IsAlphanumeric(s[i])
  }

  /** Upper-case ASCII letters and digits only: what normalisation produces. */
  predicate IsCanonical(s: string) {
    forall i :: 0 <= i < |s| ==> IsUpper(s[i]) || IsDigit(s[i])
  }

  /** `char.ToUpperInvariant` on ASCII. */
  function UpperChar(c: char): (u: char)
    ensures IsLetter(c) ==> IsUpper(u)
    ensures IsLower(c) ==> u as int == c as int - 32
    ensures !IsLower(c) ==> u == c
    ensures !IsLower(u)
  {
    if IsLower(c) then (c as int - 32) as char else c
  }

  function ToUpperInvariant(s: string): (r: string)
    ensures |r| == |s|
    ensures forall i :: 0 <= i < |s| ==> r[i] == UpperChar(s[i])
  {
    seq(|s|, i requires 0 <= i < |s| => UpperChar(s[i]))
  }

  /** `Regex.Replace(s, @"[\W_]+", "")`: keeps exactly the letters and digits, in order. */
  function RemoveSeparators(s: string): (r: string)
    ensures |r| <= |s|
    ensures forall i :: 0 <= i < |r| ==> IsAlphanumeric(r[i]) && r[i] in s
    ensures AllAlphanumeric(s) ==> r == s
  {
    if s == [] then []
    else
      assert forall i :: 0 <= i < |s| - 1 ==> s[1..][i] == s[i + 1];
      (if IsAlphanumeric(s[0]) then [s[0]] else []) + RemoveSeparators(s[1..])
  }

  // ---------------------------------------------------------------------------------------
  // Normalizer
  // ---------------------------------------------------------------------------------------

  /**
    Upper-cases, removes everything but letters and digits, and left-pads a digit-leading result
    shorter than 9 characters with '0' up to 9. A letter-leading or long result is returned as it
    is, and so is an empty one.
   */
  function Normalize(vatNumber: string): (r: string)
    ensures IsCanonical(r)
    ensures var t := RemoveSeparators(ToUpperInvariant(vatNumber));
      if 0 < |t| < 9 && IsDigit(t[0]) then
        |r| == 9 && r[9 - |t|..] == t && forall i :: 0 <= i < 9 - |t| ==> r[i] == '0'
      else
        r == t
  {
    var t := RemoveSeparators(ToUpperInvariant(vatNumber));
    CanonicalAfterRemoval(vatNumber);
    if |t| < 1 then t
    else if !IsLetter(t[0]) && |t| < 9 then PadLeft(t, 9, '0')
    else t
  }

  /** What `Normalize` returns, given what removing the separators leaves. */
  lemma NormalizeVia(s: string, t: string)
    requires RemoveSeparators(ToUpperInvariant(s)) == t
    ensures Normalize(s) == if 0 < |t| < 9 && IsDigit(t[0]) then PadLeft(t, 9, '0') else t
  {
  }

  lemma CanonicalAfterRemoval(s: string)
    ensures IsCanonical(RemoveSeparators(ToUpperInvariant(s)))
  {
    var u := ToUpperInvariant(s);
    var t := RemoveSeparators(u);
    forall i | 0 <= i < |t| ensures IsUpper(t[i]) || IsDigit(t[i]) {
      assert t[i] in u;
    }
  }

  /** Normalisation removes nothing from a canonical string, before the padding step. */
  lemma CanonicalKept(s: string)
    requires IsCanonical(s)
    ensures ToUpperInvariant(s) == s && RemoveSeparators(s) == s
  {
    assert ToUpperInvariant(s) == s;
    assert AllAlphanumeric(s);
  }

  /** Removing separators distributes over concatenation. */
  lemma {:induction false} RemoveSeparatorsConcat(a: string, b: string)
    ensures RemoveSeparators(a + b) == RemoveSeparators(a) + RemoveSeparators(b)
    decreases |a|
  {
    if a == [] {
      assert a + b == b;
    } else {
      assert (a + b)[0] == a[0] && (a + b)[1..] == a[1..] + b;
      RemoveSeparatorsConcat(a[1..], b);
    }
  }

  /** A separator contributes nothing: removing it first or with the rest gives the same string. */
  lemma RemoveOneSeparator(a: string, sep: char, b: string)
    requires !IsAlphanumeric(sep)
    ensures RemoveSeparators(a + [sep] + b) == RemoveSeparators(a) + RemoveSeparators(b)
  {
    var x := [sep];
    assert RemoveSeparators(x) == [] by { assert x[1..] == []; }
    RemoveSeparatorsConcat(a, x);
    assert RemoveSeparators(a + x) == RemoveSeparators(a);
    RemoveSeparatorsConcat(a + x, b);
  }

  /** Upper-casing distributes over concatenation. */
  lemma ToUpperConcat(a: string, b: string)
    ensures ToUpperInvariant(a + b) == ToUpperInvariant(a) + ToUpperInvariant(b)
  {
    var l, r := ToUpperInvariant(a + b), ToUpperInvariant(a) + ToUpperInvariant(b);
    forall i | 0 <= i < |l| ensures l[i] == r[i] {
      if i < |a| { assert (a + b)[i] == a[i]; } else { assert (a + b)[i] == b[i - |a|]; }
    }
  }

  /** A canonical string that is empty, letter-leading or at least 9 long is its own normal form. */
  lemma NormalFormFixed(s: string)
    requires IsCanonical(s)
    requires |s| == 0 || |s| >= 9 || IsUpper(s[0])
    ensures Normalize(s) == s
  {
    CanonicalKept(s);
  }

  /** Normalisation is idempotent. */
  lemma NormalizeIdempotent(s: string)
    ensures Normalize(Normalize(s)) == Normalize(s)
  {
    NormalFormFixed(Normalize(s));
  }

  /** A separator anywhere in the input does not change the normal form. */
  lemma SeparatorIgnored(a: string, x: char, b: string)
    requires !IsAlphanumeric(x)
    ensures Normalize(a + [x] + b) == Normalize(a + b)
  {
    var ua, ub := ToUpperInvariant(a), ToUpperInvariant(b);
    ToUpperConcat(a + [x], b);
    ToUpperConcat(a, [x]);
    ToUpperConcat(a, b);
    assert ToUpperInvariant([x]) == [x];
    RemoveOneSeparator(ua, x, ub);
    RemoveSeparatorsConcat(ua, ub);
    var t := RemoveSeparators(ua + ub);
    NormalizeVia(a + [x] + b, t);
    NormalizeVia(a + b, t);
  }

  /** Two separators, wherever they stand, leave the normal form unchanged. */
  lemma TwoSeparatorsIgnored(a: string, x: char, b: string, y: char, c: string)
    requires !IsAlphanumeric(x) && !IsAlphanumeric(y)
    ensures Normalize(a + [x] + b + [y] + c) == Normalize(a + b + c)
  {
    assert a + [x] + b + [y] + c == a + [x] + (b + [y] + c);
    SeparatorIgnored(a, x, b + [y] + c);
    assert a + (b + [y] + c) == (a + b) + [y] + c;
    SeparatorIgnored(a + b, y, c);
  }

  /** Changing the case of one letter does not change the normal form. */
  lemma CaseIgnored(s: string, i: nat, c: char)
    requires i < |s| && UpperChar(c) == UpperChar(s[i])
    ensures Normalize(s[i := c]) == Normalize(s)
  {
    assert ToUpperInvariant(s[i := c]) == ToUpperInvariant(s);
  }

  /** Upper-casing the whole input first does not change the normal form. */
  lemma UpperCaseIgnored(s: string)
    ensures Normalize(ToUpperInvariant(s)) == Normalize(s)
  {
    assert ToUpperInvariant(ToUpperInvariant(s)) == ToUpperInvariant(s);
  }

  // ---------------------------------------------------------------------------------------
  // Shapes (the three anchored regular expressions)
  // ---------------------------------------------------------------------------------------

  /** `^(\d{8})([A-Z])$` */
  predicate IsDni(vatNumber: string) {
    |vatNumber| == 9 && AllDigits(vatNumber[..8]) && IsUpper(vatNumber[8])
  }

  /** `^[XYZ]\d{7}[A-Z]$` */
  predicate IsNie(vatNumber: string) {
    |vatNumber| == 9 && vatNumber[0] in NiePrefixes && AllDigits(vatNumber[1..8]) && IsUpper(vatNumber[8])
  }

  /** `^([ABCDEFGHJKLMNPQRSUVW])(\d{7})([0-9A-J])$` */
  predicate IsCif(vatNumber: string) {
    |vatNumber| == 9 && vatNumber[0] in CifClassLetters && AllDigits(vatNumber[1..8])
    && (IsDigit(vatNumber[8]) || 'A' <= vatNumber[8] <= 'J')
  }

  /** No string has two shapes: their first characters are digits, `XYZ` and the CIF classes. */
  lemma ShapesDisjoint(v: string)
    ensures !(IsDni(v) && IsNie(v))
    ensures !(IsDni(v) && IsCif(v))
    ensures !(IsNie(v) && IsCif(v))
  {
    if IsDni(v) {
      assert IsDigit(v[..8][0]);
    }
  }

  /** Every shaped string is already normalised. */
  lemma ShapedIsNormal(v: string)
    requires IsDni(v) || IsNie(v) || IsCif(v)
    ensures Normalize(v) == v
  {
    if IsDni(v) {
      assert forall i :: 0 <= i < 8 ==> IsDigit(v[..8][i]);
    } else {
      LetterLeadingCanonical(v);
    }
    NormalFormFixed(v);
  }

  /** A NIE or CIF shape is canonical: its seven middle characters are digits. */
  lemma LetterLeadingCanonical(v: string)
    requires IsNie(v) || IsCif(v)
    ensures IsCanonical(v) && IsUpper(v[0])
  {
    forall i | 1 <= i < 8 ensures IsDigit(v[i]) {
      assert v[i] == v[1..8][i - 1];
    }
  }

  // ---------------------------------------------------------------------------------------
  // DNI
  // ---------------------------------------------------------------------------------------

  /** The check letter of an 8-digit DNI number. */
  function DniLetter(payload: string): (c: char)
    requires |payload| == 8 && AllDigits(payload)
    ensures IsUpper(c)
  {
    DniLettersUpper();
    DniLetters[Value(payload) % 23]
  }

  lemma DniLettersUpper()
    ensures forall i :: 0 <= i < |DniLetters| ==> IsUpper(DniLetters[i])
  {
  }

  /**
    A DNI is 8 digits and a letter, and the letter is the one the number selects. The `int.TryParse`
    of the source cannot fail: eight digits are below 10^8.
   */
  function ValidateDni(vatNumber: string, normalize: bool := true): (ok: bool)
    ensures var v := if normalize then Normalize(vatNumber) else vatNumber;
      ok <==> IsDni(v) && v[8] == DniLetter(v[..8])
  {
    var v := if normalize then Normalize(vatNumber) else vatNumber;
    if |v| != 9 then false
    else if !IsDni(v) then false
    else
      assert Pow10(8) == 100000000;
      match TryParse(v[..8])
      case None => false
      case Some(n) => [v[8]] == [DniLetters[n % 23]]
  }

  /** Exactly one letter completes a given 8-digit number to a valid DNI. */
  lemma DniLetterUnique(payload: string, c: char)
    requires |payload| == 8 && AllDigits(payload)
    ensures ValidateDni(payload + [c], false) <==> c == DniLetter(payload)
  {
    assert (payload + [c])[..8] == payload;
  }

  /** The 23 DNI letters are pairwise distinct. */
  lemma DniLettersDistinct(i: nat, j: nat)
    requires i < 23 && j < 23 && i != j
    ensures DniLetters[i] != DniLetters[j]
  {
  }

  // ---------------------------------------------------------------------------------------
  // NIE
  // ---------------------------------------------------------------------------------------

  /** `String.IndexOf(char)`: the first position of `c` in `s`, or -1. */
  function IndexOf(s: string, c: char): (k: int)
    ensures -1 <= k < |s|
    ensures k == -1 <==> c !in s
    ensures 0 <= k ==> s[k] == c && c !in s[..k]
  {
    if s == [] then -1
    else if s[0] == c then 0
    else
      var k := IndexOf(s[1..], c);
      assert s[1..][..k + 1] == s[1..k + 2] by { if k >= 0 { assert s[..k + 1] == [s[0]] + s[1..][..k]; } }
      if k < 0 then -1 else k + 1
  }

  /** The NIE with its prefix letter replaced by the prefix's position: X by 0, Y by 1, Z by 2. */
  function NieAsDni(vatNumber: string): (r: string)
    requires IsNie(vatNumber)
    ensures IsCanonical(r) && |r| == 9 && r[1..] == vatNumber[1..]
    ensures r[0] == if vatNumber[0] == 'X' then '0' else if vatNumber[0] == 'Y' then '1' else '2'
  {
    LetterLeadingCanonical(vatNumber);
    [DigitChar(IndexOf(NiePrefixes, vatNumber[0]))] + vatNumber[1..]
  }

  /**
    A NIE is validated as the DNI it becomes when its prefix is replaced by a digit. The source
    re-normalises that string (the call keeps the default `normalize = true`); the string is its
    own normal form, so this changes nothing.
   */
  function ValidateNie(vatNumber: string, normalize: bool := true): (ok: bool)
    ensures var v := if normalize then Normalize(vatNumber) else vatNumber;
      ok <==> IsNie(v) && ValidateDni(NieAsDni(v), false)
  {
    var v := if normalize then Normalize(vatNumber) else vatNumber;
    if |v| != 9 then false
    else if !IsNie(v) then false
    else
      var prefix := IntToString(IndexOf(NiePrefixes, v[0]));
      assert prefix + v[1..] == NieAsDni(v) by {
        assert IntToString(IndexOf(NiePrefixes, v[0])) == Text(IndexOf(NiePrefixes, v[0]));
      }
      NormalFormFixed(NieAsDni(v));
      ValidateDni(prefix + v[1..])
  }

  /** The 8-digit number a NIE stands for: its prefix's position, then its seven digits. */
  function NieNumber(v: string): (n: nat)
    requires IsNie(v)
    ensures n < 30000000
  {
    var k := IndexOf(NiePrefixes, v[0]);
    assert |v[1..8]| == 7 && Pow10(7) == 10000000;
    k * 10000000 + Value(v[1..8])
  }

  /** The NIE check letter is the DNI letter of the number the NIE stands for. */
  lemma NieCheckLetter(v: string)
    requires IsNie(v)
    ensures ValidateNie(v, false) <==> v[8] == DniLetters[NieNumber(v) % 23]
  {
    var d := NieAsDni(v);
    NieAsDniValue(v);
    assert d[8] == v[8];
  }

  lemma NieAsDniValue(v: string)
    requires IsNie(v)
    ensures AllDigits(NieAsDni(v)[..8]) && Value(NieAsDni(v)[..8]) == NieNumber(v)
  {
    var d := NieAsDni(v);
    var k := IndexOf(NiePrefixes, v[0]);
    assert d[..8] == [d[0]] + v[1..8];
    assert [d[0]][..0] == [];
    assert Value([d[0]]) == k;
    ZerosPrefixValue([d[0]], v[1..8]);
    assert Pow10(7) == 10000000;
  }

  /** The value of `a + b` for digit strings: `a` shifted left by the length of `b`. */
  lemma {:induction false} ZerosPrefixValue(a: string, b: string)
    requires AllDigits(a) && AllDigits(b)
    ensures AllDigits(a + b) && Value(a + b) == Value(a) * Pow10(|b|) + Value(b)
    decreases |b|
  {
    assert AllDigits(a + b) by {
      forall i | 0 <= i < |a + b| ensures IsDigit((a + b)[i]) {
        if i >= |a| { assert (a + b)[i] == b[i - |a|]; }
      }
    }
    if |b| == 0 {
      assert a + b == a;
    } else {
      var b' := b[..|b| - 1];
      ZerosPrefixValue(a, b');
      assert (a + b)[..|a + b| - 1] == a + b';
      assert Pow10(|b|) == 10 * Pow10(|b'|);
      ScaleByTen(Value(b'), Value(a), Pow10(|b'|));
    }
  }

  // ---------------------------------------------------------------------------------------
  // CIF
  // ---------------------------------------------------------------------------------------

  /** One digit's share of the CIF sum: doubled at even positions, then its two digits added. */
  function CifContribution(d: nat, i: nat): (r: nat)
    requires d < 10
    ensures r < 10
    ensures i % 2 == 1 ==> r == d
  {
    var x := d * (if i % 2 == 0 then 2 else 1);
    x / 10 + x % 10
  }

  /** The weighted digit sum over the seven CIF digits (`Select` then `Sum`). */
  function CifDigitSum(digits: string): (t: nat)
    requires AllDigits(digits)
    ensures t <= 9 * |digits|
  {
    if |digits| == 0 then 0
    else CifDigitSum(digits[..|digits| - 1]) + CifContribution(DigitValue(digits[|digits| - 1]), |digits| - 1)
  }

  /** The check position: the amount that completes the weighted sum to a multiple of 10. */
  function CifCheckPosition(digits: string): (p: nat)
    requires AllDigits(digits)
    ensures p < 10
    ensures (CifDigitSum(digits) + p) % 10 == 0
  {
    var cPos := CifDigitSum(digits) % 10;
    if cPos != 0 then 10 - cPos else cPos
  }

  /**
    A CIF is a class letter, seven digits and a control character. A digit control must equal the
    check position and is refused for the classes `PQRSW`; a letter control must be the check
    position's letter in `JABCDEFGHI`, whatever the class.
   */
  function ValidateCif(vatNumber: string, normalize: bool := true): (ok: bool)
    ensures var v := if normalize then Normalize(vatNumber) else vatNumber;
      ok <==> (IsCif(v) &&
        var p := CifCheckPosition(v[1..8]);
        if IsDigit(v[8]) then v[0] !in LetterControlClasses && DigitValue(v[8]) == p
        else v[8] == CifControlLetters[p])
  {
    var v := if normalize then Normalize(vatNumber) else vatNumber;
    if |v| != 9 then false
    else if !IsCif(v) then false
    else CifControlMatches(v)
  }

  /** The control test of `ValidateCif`, on a string of the CIF shape. */
  function CifControlMatches(v: string): (ok: bool)
    requires IsCif(v)
    ensures ok <==>
      var p := CifCheckPosition(v[1..8]);
      if IsDigit(v[8]) then v[0] !in LetterControlClasses && DigitValue(v[8]) == p
      else v[8] == CifControlLetters[p]
  {
    var digits := v[1..8];
    var lastDigit := v[8..9];
    var cPos := CifCheckPosition(digits);
    assert lastDigit == [v[8]];
    SingleCharParse(v[8]);
    match TryParse(lastDigit)
    case Some(lastNumber) => v[0] !in LetterControlClasses && lastNumber == cPos
    case None => lastDigit == [CifControlLetters[cPos]]
  }

  /** `int.TryParse` of a one-character string succeeds exactly on a digit. */
  lemma SingleCharParse(c: char)
    ensures TryParse([c]) == if IsDigit(c) then Some(DigitValue(c)) else None
  {
    assert [c][..0] == [];
    if IsDigit(c) {
      assert Value([c]) == DigitValue(c);
    }
  }

  // ---------------------------------------------------------------------------------------
  // Dispatcher
  // ---------------------------------------------------------------------------------------

  /**
    Normalises (by default), refuses anything not 9 long, and hands a DNI, NIE or CIF shape to
    its validator; an unshaped string is refused.
   */
  function Validate(vatNumber: string, normalize: bool := true): (ok: bool)
    ensures var v := if normalize then Normalize(vatNumber) else vatNumber;
      && (ok ==> |v| == 9)
      && (ok <==> ((IsDni(v) && ValidateDni(v, false))
                || (IsNie(v) && ValidateNie(v, false))
                || (IsCif(v) && ValidateCif(v, false))))
  {
    var v := if normalize then Normalize(vatNumber) else vatNumber;
    ShapesDisjoint(v);
    if |v| != 9 then false
    else if IsDni(v) then ShapedIsNormal(v); ValidateDni(v)
    else if IsNie(v) then ShapedIsNormal(v); ValidateNie(v)
    else if IsCif(v) then ShapedIsNormal(v); ValidateCif(v)
    else false
  }

  /** A shaped string goes to its own validator, whose verdict `Validate` returns; an unshaped one is refused. */
  lemma DispatchByShape(v: string)
    ensures IsDni(v) ==> (Validate(v, false) <==> ValidateDni(v, false))
    ensures IsNie(v) ==> (Validate(v, false) <==> ValidateNie(v, false))
    ensures IsCif(v) ==> (Validate(v, false) <==> ValidateCif(v, false))
    ensures !IsDni(v) && !IsNie(v) && !IsCif(v) ==> !Validate(v, false)
  {
    ShapesDisjoint(v);
  }
}
