/**
  The test data of the repository: one item of each random generator, as a function of its random
  draws; the corruption the negative tests apply; and fixtures from its literal lists. The lemmas
  state what the tests assert of these: every generated identifier is accepted, and every
  corrupted one is refused.
 */
module SpanishTestData {
  import opened Wrappers
  import opened Digits
  import opened SpanishVatNumberValidator
  import opened SpanishVatNumberProperties

  /** The generators' letter table: the 23 DNI letters and a 24th entry that no residue reaches. */
  const GeneratorLetters: string := "TRWAGMYFPDXBNJZSQVHLCKET"
  /** The class letters the CIF generator draws from. */
  const GeneratedCifClasses: string := "ABCDEFGHJNPQRSUVW"
  /** Classes the CIF generator gives a letter control. */
  const LetterControlCodes: string := "PQRSW"
  /** Classes the CIF generator gives a digit control (unless the resident code is 0). */
  const DigitControlCodes: string := "ABEH"

  // ---------------------------------------------------------------------------------------
  // Generators
  // ---------------------------------------------------------------------------------------

  /** One item of `RandomValidDni`, for the draw `numDni = random.Next(1000, 100000000)`. */
  function RandomValidDniItem(numDni: int): (r: string)
    requires 1000 <= numDni < 100000000
    ensures 5 <= |r| <= 9 && AllDigits(r[..|r| - 1]) && Value(r[..|r| - 1]) == numDni
    ensures r[..|r| - 1] == Text(numDni) && r[|r| - 1] == GeneratorLetters[numDni % 23]
  {
    var t := Text(numDni);
    TextLength(numDni, 8);
    assert Pow10(8) == 100000000;
    var r := t + [GeneratorLetters[numDni % 23]];
    assert r[..|r| - 1] == t;
    assert Pow10(3) == 1000;
    TextLonger(numDni, 3);
    r
  }

  /**
    One item of `RandomValidNie`, for the draws `numNie = random.Next(1000, 10000000)` and
    `nieLetter = random.Next(3)`. The letter index is `int.Parse` of the prefix digit followed by
    the 7-digit number, which cannot fail on that digit string.
   */
  function RandomValidNieItem(nieLetter: int, numNie: int): (r: string)
    requires 0 <= nieLetter < 3 && 1000 <= numNie < 10000000
    ensures |r| == 9 && r[0] == NiePrefixes[nieLetter]
  {
    var digits7 := Format(numNie, 7);
    assert Pow10(7) == 10000000;
    ZerosPrefixValue(IntToString(nieLetter), digits7);
    var letterIndex := Value(IntToString(nieLetter) + digits7) % 23;
    [NiePrefixes[nieLetter]] + digits7 + [GeneratorLetters[letterIndex]]
  }

  /**
    One item of `RandomValidCif`, for the draws of the class letter's index, the resident code
    (`random.Next(0, 100)`), the inscription code (`random.Next(0, 100000)`) and, when the class
    leaves the choice open, `coin = random.Next(2)`. The weighted sum is the validator's
    `CifCheckPosition`: the generator's sum is the same expression.
   */
  function RandomValidCifItem(letterIndex: int, residentCode: int, inscriptionCode: int, coin: int): (r: string)
    requires 0 <= letterIndex < |GeneratedCifClasses|
    requires 0 <= residentCode < 100 && 0 <= inscriptionCode < 100000 && 0 <= coin < 2
    ensures |r| == 9 && r[0] == GeneratedCifClasses[letterIndex]
    ensures r[0] in LetterControlCodes || residentCode == 0 ==> !IsDigit(r[8])
    ensures r[0] in DigitControlCodes && residentCode != 0 ==> IsDigit(r[8])
  {
    var letter := GeneratedCifClasses[letterIndex];
    var ccIsLetter := ControlIsLetter(letter, residentCode, coin);
    var cifString := CifDigits(residentCode, inscriptionCode);
    CifOfParts(letter, cifString, ccIsLetter)
  }

  /** The seven digits `{residentCode:D2}{inscriptionCode:D5}`. */
  function CifDigits(residentCode: int, inscriptionCode: int): (r: string)
    requires 0 <= residentCode < 100 && 0 <= inscriptionCode < 100000
    ensures |r| == 7 && AllDigits(r)
    ensures Value(r) == residentCode * 100000 + inscriptionCode
  {
    assert Pow10(2) == 100 && Pow10(5) == 100000;
    var resident, inscription := Format(residentCode, 2), Format(inscriptionCode, 5);
    assert |resident| == 2 && |inscription| == 5;
    ZerosPrefixValue(resident, inscription);
    resident + inscription
  }

  /** The class letter, the seven digits and the control character for their check position. */
  function CifOfParts(letter: char, digits7: string, asLetter: bool): (r: string)
    requires |digits7| == 7 && AllDigits(digits7)
    ensures |r| == 9 && r[0] == letter && r[1..8] == digits7
    ensures asLetter <==> !IsDigit(r[8])
    ensures asLetter ==> r[8] == CifControlLetters[CifCheckPosition(digits7)]
    ensures !asLetter ==> DigitValue(r[8]) == CifCheckPosition(digits7)
  {
    var controlDigit := ControlCharacter(CifCheckPosition(digits7), asLetter);
    var r := [letter] + digits7 + [controlDigit];
    assert r[0] == letter && r[8] == controlDigit && r[1..8] == digits7;
    r
  }

  /**
    Whether the generated control character is a letter: always for the classes PQRSW and for
    resident code 0, never otherwise for ABEH, and by the coin for the remaining classes.
   */
  function ControlIsLetter(letter: char, residentCode: int, coin: int): (b: bool)
    ensures letter in LetterControlCodes || residentCode == 0 ==> b
    ensures letter in DigitControlCodes && residentCode != 0 ==> !b
    ensures letter !in LetterControlCodes && letter !in DigitControlCodes && residentCode != 0 ==> (b <==> coin == 0)
  {
    ControlCodesDisjoint(letter);
    var ccIsLetter := letter in LetterControlCodes || residentCode == 0;
    if !ccIsLetter && letter !in DigitControlCodes then coin == 0 else ccIsLetter
  }

  /** The control character for check position `p`: a letter of JABCDEFGHI, or the digit itself. */
  function ControlCharacter(p: nat, asLetter: bool): (ch: char)
    requires p < 10
    ensures asLetter <==> !IsDigit(ch)
    ensures asLetter ==> ch == CifControlLetters[p]
    ensures !asLetter ==> DigitValue(ch) == p
  {
    CifControlLettersAreLetters();
    if asLetter then CifControlLetters[p] else DigitChar(p)
  }

  /** No class is given both kinds of control. */
  lemma ControlCodesDisjoint(c: char)
    ensures c in DigitControlCodes ==> c !in LetterControlCodes
  {
  }

  lemma CifControlLettersAreLetters()
    ensures forall i :: 0 <= i < |CifControlLetters| ==> 'A' <= CifControlLetters[i] <= 'J'
  {
  }

  // ---------------------------------------------------------------------------------------
  // Corruption
  // ---------------------------------------------------------------------------------------

  /** `char.GetNumericValue` on ASCII: the value of a digit, -1 for any other character. */
  function NumericValue(c: char): (v: int)
    ensures -1 <= v < 10
    ensures IsDigit(c) <==> v >= 0
    ensures IsDigit(c) ==> v == DigitValue(c)
  {
    if IsDigit(c) then DigitValue(c) else -1
  }

  /**
    Replaces the character at index 5 by the next digit, cyclically; a character that is not a
    digit counts as -1 and becomes '0'. Strings of 5 characters or fewer have no index 5: the
    source throws, the model returns `None`.
   */
  function MakeInvalid(vatNumber: string): (r: Option<string>)
    ensures r.Some? <==> |vatNumber| > 5
    ensures r.Some? ==> (|r.value| == |vatNumber|
      && (forall i :: 0 <= i < |vatNumber| && i != 5 ==> r.value[i] == vatNumber[i])
      && IsDigit(r.value[5])
      && DigitValue(r.value[5]) == (NumericValue(vatNumber[5]) + 1) % 10)
    ensures r.Some? && IsDigit(vatNumber[5]) ==> r.value[5] != vatNumber[5]
  {
    if |vatNumber| <= 5 then None
    else Some(vatNumber[5 := DigitChar((NumericValue(vatNumber[5]) + 1) % 10)])
  }

  // ---------------------------------------------------------------------------------------
  // What the tests assert
  // ---------------------------------------------------------------------------------------

  /** The generator's table agrees with the validator's on every residue modulo 23. */
  lemma GeneratorLettersAgree(i: nat)
    requires i < 23
    ensures GeneratorLetters[i] == DniLetters[i]
  {
  }

  /** Every generated DNI is accepted, the short ones thanks to the zero padding. */
  lemma RandomValidDniAccepted(numDni: int)
    requires 1000 <= numDni < 100000000
    ensures ValidateDni(RandomValidDniItem(numDni)) && Validate(RandomValidDniItem(numDni))
  {
    var r := RandomValidDniItem(numDni);
    RandomValidDniItemCanonical(numDni);
    ShortDniPadded(r);
    var v := PadLeft(r, 9, '0');
    RandomValidDniItemPadded(numDni);
    DniAccepted(v);
    AcceptedVia(r, v);
  }

  lemma RandomValidDniItemCanonical(numDni: int)
    requires 1000 <= numDni < 100000000
    ensures var r := RandomValidDniItem(numDni);
      IsCanonical(r) && IsDigit(r[0]) && IsUpper(r[|r| - 1])
      && r[|r| - 1] == DniLetters[numDni % 23]
  {
    var r := RandomValidDniItem(numDni);
    var t := r[..|r| - 1];
    assert r == t + [r[|r| - 1]];
    GeneratorLettersAgree(numDni % 23);
    DniLettersUpper();
    forall i | 0 <= i < |r| ensures IsUpper(r[i]) || IsDigit(r[i]) {
      if i < |t| { assert r[i] == t[i]; }
    }
    assert r[0] == t[0];
  }

  /** The padded item is a DNI whose first eight characters are the number, zero-padded. */
  lemma RandomValidDniItemPadded(numDni: int)
    requires 1000 <= numDni < 100000000
    ensures var v := PadLeft(RandomValidDniItem(numDni), 9, '0');
      IsDni(v) && v[8] == DniLetter(v[..8])
  {
    var r := RandomValidDniItem(numDni);
    RandomValidDniItemCanonical(numDni);
    PaddedDni(r[..|r| - 1], r[|r| - 1]);
    assert r[..|r| - 1] + [r[|r| - 1]] == r;
  }

  /** Zero-padding up to 8 digits and a check letter gives a DNI, with the number unchanged. */
  lemma PaddedDni(t: string, x: char)
    requires 0 < |t| <= 8 && AllDigits(t) && x == DniLetters[Value(t) % 23]
    ensures var v := PadLeft(t + [x], 9, '0');
      IsDni(v) && v[8] == DniLetter(v[..8]) && Value(v[..8]) == Value(t)
  {
    PadLeftAppend(t, x, 8);
    ZerosKeepValue(t, 8);
    DniWithLetter(PadLeft(t, 8, '0'), x);
  }

  /** Eight digits followed by their check letter make a DNI. */
  lemma DniWithLetter(p: string, x: char)
    requires |p| == 8 && AllDigits(p) && x == DniLetters[Value(p) % 23]
    ensures IsDni(p + [x]) && (p + [x])[8] == DniLetter((p + [x])[..8])
  {
    var v := p + [x];
    assert v[..8] == p;
    DniLettersUpper();
    assert IsDni(v) by {
      forall i | 0 <= i < 8 ensures IsDigit(v[i]) { assert v[i] == p[i]; }
    }
  }

  /** Padding a string and a last character is padding the string one position shorter. */
  lemma PadLeftAppend(t: string, x: char, width: nat)
    requires |t| <= width
    ensures PadLeft(t + [x], width + 1, '0') == PadLeft(t, width, '0') + [x]
  {
    var a, b := PadLeft(t + [x], width + 1, '0'), PadLeft(t, width, '0') + [x];
    assert |a| == |b| == width + 1;
    forall i | 0 <= i <= width ensures a[i] == b[i] {
      var z := width - |t|;
      if i == width {
        assert a[i] == a[z..][|t|];
      } else if i >= z {
        assert a[i] == a[z..][i - z];
        assert b[i] == PadLeft(t, width, '0')[z..][i - z];
      }
    }
  }

  /** Every generated NIE is accepted. */
  lemma RandomValidNieAccepted(nieLetter: int, numNie: int)
    requires 0 <= nieLetter < 3 && 1000 <= numNie < 10000000
    ensures ValidateNie(RandomValidNieItem(nieLetter, numNie)) && Validate(RandomValidNieItem(nieLetter, numNie))
  {
    var r := RandomValidNieItem(nieLetter, numNie);
    RandomValidNieItemLetter(nieLetter, numNie);
    NieCheckLetter(r);
    ShapedIsNormal(r);
    DispatchByShape(r);
  }

  /** A generated NIE has the NIE shape and the check letter of the number it stands for. */
  lemma RandomValidNieItemLetter(nieLetter: int, numNie: int)
    requires 0 <= nieLetter < 3 && 1000 <= numNie < 10000000
    ensures var r := RandomValidNieItem(nieLetter, numNie);
      IsNie(r) && r[8] == DniLetters[NieNumber(r) % 23]
  {
    assert Pow10(7) == 10000000;
    NieFromDigits(nieLetter, Format(numNie, 7));
  }

  /** The generator's construction, for any prefix position and any seven digits. */
  lemma NieFromDigits(k: int, digits7: string)
    requires 0 <= k < 3 && |digits7| == 7 && AllDigits(digits7)
    ensures var r := [NiePrefixes[k]] + digits7 + [GeneratorLetters[Value(IntToString(k) + digits7) % 23]];
      IsNie(r) && r[8] == DniLetters[NieNumber(r) % 23]
  {
    var prefix := IntToString(k);
    ZerosPrefixValue(prefix, digits7);
    var letterIndex := Value(prefix + digits7) % 23;
    var r := [NiePrefixes[k]] + digits7 + [GeneratorLetters[letterIndex]];
    assert r[1..8] == digits7;
    GeneratorLettersAgree(letterIndex);
    DniLettersUpper();
    assert IsNie(r) by {
      forall i | 1 <= i < 8 ensures IsDigit(r[i]) { assert r[i] == digits7[i - 1]; }
    }
    PrefixPosition(k);
    assert Pow10(7) == 10000000;
    assert NieNumber(r) == Value(prefix + digits7);
  }

  lemma PrefixPosition(k: int)
    requires 0 <= k < 3
    ensures IndexOf(NiePrefixes, NiePrefixes[k]) == k
  {
  }

  /** Every generated CIF is accepted, with a letter control or a digit control. */
  lemma RandomValidCifAccepted(letterIndex: int, residentCode: int, inscriptionCode: int, coin: int)
    requires 0 <= letterIndex < |GeneratedCifClasses|
    requires 0 <= residentCode < 100 && 0 <= inscriptionCode < 100000 && 0 <= coin < 2
    ensures ValidateCif(RandomValidCifItem(letterIndex, residentCode, inscriptionCode, coin))
    ensures Validate(RandomValidCifItem(letterIndex, residentCode, inscriptionCode, coin))
  {
    var letter := GeneratedCifClasses[letterIndex];
    GeneratedClassAccepted(letterIndex);
    assert LetterControlCodes == LetterControlClasses;
    CifOfPartsAccepted(letter, CifDigits(residentCode, inscriptionCode), ControlIsLetter(letter, residentCode, coin));
  }

  /** Every class the generator draws is a class the validator accepts. */
  lemma GeneratedClassAccepted(i: nat)
    requires i < |GeneratedCifClasses|
    ensures GeneratedCifClasses[i] in CifClassLetters
  {
  }

  /** The construction is accepted unless it puts a digit control on a class that forbids one. */
  lemma CifOfPartsAccepted(letter: char, digits7: string, asLetter: bool)
    requires |digits7| == 7 && AllDigits(digits7) && letter in CifClassLetters
    requires !asLetter ==> letter !in LetterControlClasses
    ensures ValidateCif(CifOfParts(letter, digits7, asLetter)) && Validate(CifOfParts(letter, digits7, asLetter))
  {
    var r := CifOfParts(letter, digits7, asLetter);
    CifControlLettersAreLetters();
    assert IsCif(r) by {
      forall i | 1 <= i < 8 ensures IsDigit(r[i]) { assert r[i] == digits7[i - 1]; }
    }
    ShapedIsNormal(r);
    DispatchByShape(r);
  }

  /**
    `MakeInvalid` applied to an identifier whose index 5 is a digit yields a string every
    validator that accepted the original refuses.
   */
  lemma MakeInvalidRejected(s: string)
    requires |s| > 5 && IsDigit(s[5])
    ensures MakeInvalid(s).Some?
    ensures Validate(s) ==> !Validate(MakeInvalid(s).value)
    ensures ValidateDni(s) ==> !ValidateDni(MakeInvalid(s).value)
    ensures ValidateNie(s) ==> !ValidateNie(MakeInvalid(s).value)
    ensures ValidateCif(s) ==> !ValidateCif(MakeInvalid(s).value)
  {
    var m := MakeInvalid(s).value;
    var c := m[5];
    assert m == s[5 := c];
    if Validate(s) { DigitSubstitutionRejected(s, 5, c); }
    if ValidateDni(s) { DniRawDigitSubstitution(s, 5, c); }
    if ValidateNie(s) { NieRawDigitSubstitution(s, 5, c); }
    if ValidateCif(s) { CifRawDigitSubstitution(s, 5, c); }
  }

  // ---------------------------------------------------------------------------------------
  // Fixtures
  // ---------------------------------------------------------------------------------------

  lemma ValueOfSeven(s: string)
    requires |s| == 7 && AllDigits(s)
    ensures Value(s) == ((((((DigitValue(s[0])) * 10 + DigitValue(s[1])) * 10 + DigitValue(s[2])) * 10
      + DigitValue(s[3])) * 10 + DigitValue(s[4])) * 10 + DigitValue(s[5])) * 10 + DigitValue(s[6])
  {
    assert s[..0] == [];
    ValueStep(s, 0); ValueStep(s, 1); ValueStep(s, 2); ValueStep(s, 3);
    ValueStep(s, 4); ValueStep(s, 5); ValueStep(s, 6);
    assert s[..7] == s;
  }

  lemma ValueOfEight(s: string)
    requires |s| == 8 && AllDigits(s)
    ensures Value(s) == Value(s[..7]) * 10 + DigitValue(s[7])
    ensures Value(s[..7]) == ((((((DigitValue(s[0])) * 10 + DigitValue(s[1])) * 10 + DigitValue(s[2])) * 10
      + DigitValue(s[3])) * 10 + DigitValue(s[4])) * 10 + DigitValue(s[5])) * 10 + DigitValue(s[6])
  {
    ValueStep(s, 7);
    assert s[..8] == s;
    ValueOfSeven(s[..7]);
  }

  lemma CifDigitSumStep(ds: string, k: nat)
    requires AllDigits(ds) && k < |ds|
    ensures CifDigitSum(ds[..k + 1]) == CifDigitSum(ds[..k]) + CifContribution(DigitValue(ds[k]), k)
  {
    assert ds[..k + 1][..k] == ds[..k];
  }

  lemma CifDigitSumOfSeven(ds: string)
    requires |ds| == 7 && AllDigits(ds)
    ensures CifDigitSum(ds) == CifContribution(DigitValue(ds[0]), 0) + CifContribution(DigitValue(ds[1]), 1)
      + CifContribution(DigitValue(ds[2]), 2) + CifContribution(DigitValue(ds[3]), 3)
      + CifContribution(DigitValue(ds[4]), 4) + CifContribution(DigitValue(ds[5]), 5)
      + CifContribution(DigitValue(ds[6]), 6)
  {
    assert ds[..0] == [];
    CifDigitSumStep(ds, 0); CifDigitSumStep(ds, 1); CifDigitSumStep(ds, 2); CifDigitSumStep(ds, 3);
    CifDigitSumStep(ds, 4); CifDigitSumStep(ds, 5); CifDigitSumStep(ds, 6);
    assert ds[..7] == ds;
  }

  /** A DNI-shaped string with the right letter is accepted, by `ValidateDni` and by `Validate`. */
  lemma DniAccepted(v: string)
    requires IsDni(v) && v[8] == DniLetter(v[..8])
    ensures ValidateDni(v) && Validate(v)
  {
    ShapedIsNormal(v);
    DispatchByShape(v);
  }

  /** Acceptance depends on the normal form only. */
  lemma AcceptedVia(s: string, v: string)
    requires Normalize(s) == v && ValidateDni(v) && Validate(v)
    ensures ValidateDni(s) && Validate(s)
  {
    ValidationSeesNormalForm(s);
    ValidationSeesNormalForm(v);
    NormalizeIdempotent(s);
  }

  /** A short canonical digit-leading string is padded with zeros to 9 characters. */
  lemma ShortDniPadded(s: string)
    requires IsCanonical(s) && 0 < |s| <= 9 && IsDigit(s[0])
    ensures Normalize(s) == PadLeft(s, 9, '0')
  {
    CanonicalKept(s);
  }

  lemma NieAccepted(v: string)
    requires IsNie(v) && v[8] == DniLetters[NieNumber(v) % 23]
    ensures ValidateNie(v) && Validate(v)
  {
    NieCheckLetter(v);
    ShapedIsNormal(v);
    DispatchByShape(v);
  }

  /** A DNI fixture. */
  lemma DniFixtureAccepted()
    ensures Validate("90275465M") && ValidateDni("90275465M")
  {
    var v := "90275465M";
    assert IsDni(v);
    ValueOfEight(v[..8]);
    DniAccepted(v);
  }

  /** A short DNI fixture, which only the zero padding makes 9 long. */
  lemma ShortDniFixtureAccepted()
    ensures Normalize("6752999S") == "06752999S"
    ensures Validate("6752999S") && ValidateDni("6752999S")
  {
    ShortDniFixturePadded();
    PaddedDniFixtureAccepted();
    AcceptedVia("6752999S", "06752999S");
  }

  lemma PaddedDniFixtureAccepted()
    ensures Validate("06752999S") && ValidateDni("06752999S")
  {
    var w := "06752999S";
    assert IsDni(w);
    ValueOfEight(w[..8]);
    DniAccepted(w);
  }

  lemma ShortDniFixturePadded()
    ensures Normalize("6752999S") == "06752999S"
  {
    ShortDniFixtureShape();
    ShortDniPadded("6752999S");
  }

  lemma ShortDniFixtureShape()
    ensures IsCanonical("6752999S") && PadLeft("6752999S", 9, '0') == "06752999S"
  {
  }

  /** A NIE fixture with the prefix X. */
  lemma NieFixtureAccepted()
    ensures Validate("X3675428M") && ValidateNie("X3675428M")
  {
    var v := "X3675428M";
    assert IsNie(v);
    PrefixPosition(0);
    ValueOfSeven(v[1..8]);
    NieAccepted(v);
  }

  /** A CIF fixture with a digit control. */
  lemma CifFixtureAccepted()
    ensures Validate("B63520670") && ValidateCif("B63520670")
  {
    CifFixtureSum();
    CifFixtureParts();
    CifOfPartsAccepted('B', "6352067", false);
  }

  lemma CifFixtureParts()
    ensures CifOfParts('B', "6352067", false) == "B63520670"
    ensures AllDigits("6352067") && 'B' in CifClassLetters && 'B' !in LetterControlClasses
  {
    CifFixtureSum();
    var r := CifOfParts('B', "6352067", false);
    assert r == [r[0]] + r[1..8] + [r[8]];
    assert r[8] == '0';
  }

  lemma CifFixtureSum()
    ensures AllDigits("6352067") && CifCheckPosition("6352067") == 0
  {
    CifFixtureDigitValues();
    CifSumOfDigits("6352067", 6, 3, 5, 2, 0, 6, 7);
    assert CifContribution(6, 0) + CifContribution(3, 1) + CifContribution(5, 2) + CifContribution(2, 3)
      + CifContribution(0, 4) + CifContribution(6, 5) + CifContribution(7, 6) == 20;
  }

  lemma CifFixtureDigitValues()
    ensures var ds := "6352067";
      |ds| == 7 && AllDigits(ds)
      && DigitValue(ds[0]) == 6 && DigitValue(ds[1]) == 3 && DigitValue(ds[2]) == 5 && DigitValue(ds[3]) == 2
      && DigitValue(ds[4]) == 0 && DigitValue(ds[5]) == 6 && DigitValue(ds[6]) == 7
  {
  }

  /** A CIF fixture of class A, which takes a digit control. */
  lemma ClassACifFixtureAccepted()
    ensures Validate("A30339220") && ValidateCif("A30339220")
  {
    ClassACifFixtureSum();
    ClassACifFixtureParts();
    CifOfPartsAccepted('A', "3033922", false);
  }

  lemma ClassACifFixtureParts()
    ensures CifOfParts('A', "3033922", false) == "A30339220"
    ensures AllDigits("3033922") && 'A' in CifClassLetters && 'A' !in LetterControlClasses
  {
    ClassACifFixtureSum();
    var r := CifOfParts('A', "3033922", false);
    assert r == [r[0]] + r[1..8] + [r[8]];
    assert r[8] == '0';
  }

  lemma ClassACifFixtureSum()
    ensures AllDigits("3033922") && CifCheckPosition("3033922") == 0
  {
    ClassACifFixtureDigitValues();
    CifSumOfDigits("3033922", 3, 0, 3, 3, 9, 2, 2);
    assert CifContribution(3, 0) + CifContribution(0, 1) + CifContribution(3, 2) + CifContribution(3, 3)
      + CifContribution(9, 4) + CifContribution(2, 5) + CifContribution(2, 6) == 30;
  }

  lemma ClassACifFixtureDigitValues()
    ensures var ds := "3033922";
      |ds| == 7 && AllDigits(ds)
      && DigitValue(ds[0]) == 3 && DigitValue(ds[1]) == 0 && DigitValue(ds[2]) == 3 && DigitValue(ds[3]) == 3
      && DigitValue(ds[4]) == 9 && DigitValue(ds[5]) == 2 && DigitValue(ds[6]) == 2
  {
  }

  /** The weighted sum of seven given digits. */
  lemma CifSumOfDigits(ds: string, a0: nat, a1: nat, a2: nat, a3: nat, a4: nat, a5: nat, a6: nat)
    requires |ds| == 7 && AllDigits(ds)
    requires DigitValue(ds[0]) == a0 && DigitValue(ds[1]) == a1 && DigitValue(ds[2]) == a2
    requires DigitValue(ds[3]) == a3 && DigitValue(ds[4]) == a4 && DigitValue(ds[5]) == a5
    requires DigitValue(ds[6]) == a6
    ensures CifDigitSum(ds) == CifContribution(a0, 0) + CifContribution(a1, 1) + CifContribution(a2, 2)
      + CifContribution(a3, 3) + CifContribution(a4, 4) + CifContribution(a5, 5) + CifContribution(a6, 6)
  {
    CifDigitSumOfSeven(ds);
  }

  /** The lower-case spelling differs from the fixture in the case of its letter only. */
  lemma LowerCaseFixtureNormalised()
    ensures Normalize("90275465m") == "90275465M"
  {
    LowerCaseSpelling();
    CaseIgnored("90275465M", 8, 'm');
    FixtureIsNormal();
  }

  lemma LowerCaseSpelling()
    ensures |"90275465M"| == 9 && "90275465M"[8 := 'm'] == "90275465m"
    ensures UpperChar('m') == UpperChar("90275465M"[8])
  {
  }

  lemma FixtureIsNormal()
    ensures Normalize("90275465M") == "90275465M"
  {
    assert IsCanonical("90275465M");
    NormalFormFixed("90275465M");
  }

  /** The punctuated spelling is the fixture with a '.' and a '-' inserted. */
  lemma PunctuatedFixtureNormalised()
    ensures Normalize("90.275465-M") == "90275465M"
  {
    PunctuatedPieces();
    TwoSeparatorsIgnored("90", '.', "275465", '-', "M");
    FixtureIsNormal();
  }

  lemma PunctuatedPieces()
    ensures "90" + ['.'] + "275465" + ['-'] + "M" == "90.275465-M"
    ensures "90" + "275465" + "M" == "90275465M"
  {
  }

  /** Case and punctuation do not matter: these spellings normalise to the same DNI. */
  lemma CaseAndPunctuationIgnored()
    ensures Normalize("90275465m") == "90275465M" && Normalize("90.275465-M") == "90275465M"
    ensures Validate("90275465m") && Validate("90.275465-M")
  {
    LowerCaseFixtureNormalised();
    PunctuatedFixtureNormalised();
    DniFixtureAccepted();
    AcceptedVia("90275465m", "90275465M");
    AcceptedVia("90.275465-M", "90275465M");
  }

  /** A corrupted digit, the empty string and a word are refused. */
  lemma KnownRejections()
    ensures !Validate("90275464M")
    ensures !Validate("") && !Validate("NOTANID")
    ensures MakeInvalid("90275465M") == Some("90275565M") && !Validate("90275565M")
  {
    CorruptedFixtureRefused();
    MadeInvalidFixtureRefused();
    EmptyAndWordRefused();
  }

  lemma CorruptedFixtureRefused()
    ensures !Validate("90275464M")
  {
    DniFixtureAccepted();
    CorruptedFixtures();
    DigitSubstitutionRejected("90275465M", 7, '4');
  }

  lemma MadeInvalidFixtureRefused()
    ensures MakeInvalid("90275465M") == Some("90275565M") && !Validate("90275565M")
  {
    DniFixtureAccepted();
    CorruptedFixtures();
    MakeInvalidRejected("90275465M");
  }

  lemma CorruptedFixtures()
    ensures |"90275465M"| == 9 && IsDigit("90275465M"[5]) && IsDigit("90275465M"[7]) && "90275465M"[7] == '5'
    ensures "90275465M"[7 := '4'] == "90275464M"
    ensures MakeInvalid("90275465M") == Some("90275565M")
  {
    assert "90275465M"[5 := '5'] == "90275565M";
  }

  lemma EmptyAndWordRefused()
    ensures !Validate("") && !Validate("NOTANID")
  {
    NormalizeVia("", "");
    WordCanonical();
    CanonicalKept("NOTANID");
    NormalizeVia("NOTANID", "NOTANID");
  }

  lemma WordCanonical()
    ensures IsCanonical("NOTANID") && ToUpperInvariant("") == "" && RemoveSeparators("") == ""
  {
  }
}
