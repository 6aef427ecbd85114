# Spanish VAT number validator, modelled in Dafny

This project models the Spanish tax-identifier validator of `Jcl.VatNumberValidator` and proves what
its tests claim. The validator handles three formats:

- the DNI of individuals: eight digits and a check letter;
- the NIE of foreign residents: a prefix X, Y or Z, seven digits and a check letter;
- the CIF of legal entities: a class letter, seven digits and a control character.

It has four parts, each written as a Dafny function over `string`:

- **Normalizer** (`Normalize`). It upper-cases, removes everything but letters and digits, and
  zero-pads a short digit-leading result to 9 characters.
- **Shape predicates** (`IsDni`, `IsNie`, `IsCif`). These are the three anchored regular
  expressions, written as exact 9-character shapes.
- **Checksum validators** (`ValidateDni`, `ValidateNie`, `ValidateCif`).
  - DNI: the 8-digit number modulo 23 selects a letter of `TRWAGMYFPDXBNJZSQVHLCKE`.
  - NIE: the prefix is replaced by its position 0, 1 or 2, and the result is checked as a DNI.
  - CIF: a weighted digit sum gives a check position 0..9. The control is either that digit or
    the letter at that position of `JABCDEFGHI`. A digit control is refused for the classes `PQRSW`.
- **Dispatcher** (`Validate`). It normalises the input, sends each shape to its own validator,
  and refuses anything else.

From the repository's test data, the model also covers:

- the construction of one generated DNI, NIE and CIF, as functions of the random draws;
- the `MakeInvalid` corruption;
- a few of the literal fixtures.

Modules:

- `Wrappers` (wrappers.dfy): `Option`.
- `Digits` (digits.dfy): ASCII digits, the value of a digit string, decimal text, `PadLeft`, the
  `D<n>` format, `int.TryParse` and `int.ToString`.
- `SpanishVatNumberValidator` (spanish_vat_number_validator.dfy): the validator.
- `SpanishVatNumberProperties` (spanish_vat_number_properties.dfy): properties relating several
  calls. Validation sees only the normal form, so neither the case of a letter nor a separator
  anywhere in the input changes a verdict. Replacing any one digit of a valid identifier
  by another digit makes it invalid. That last property rests on two facts:
  - 23 divides no `e * 10^k` with `0 < |e| <= 9`;
  - the CIF contribution of a digit is one-to-one.
- `SpanishTestData` (spanish_test_data.dfy): the generators, `MakeInvalid`, and the fixtures.
  Its lemmas state what the tests assert: generated identifiers are accepted, and corrupted ones
  are refused.

All source paths below are relative to the repository root.

## Model

| member | source | states |
|---|---|---|
| Digits.TryParse | dotnet/Jcl.VatNumberValidator.Spanish/SpanishVatNumberValidator.cs:59-60 | parsing succeeds exactly on a non-empty digit string whose value fits in an Int32, and then yields that value |
| Digits.Text | dotnet/Jcl.VatNumberValidator.Tests/SpanishTestData.cs:26 | the `{numDni}` interpolation: a non-empty digit string denoting the number, with no leading zero |
| Digits.PadLeft | dotnet/Jcl.VatNumberValidator.Spanish/SpanishVatNumberValidator.cs:24 | `PadLeft(9, '0')`: never truncates; a shorter string gets pad characters in front up to the width, and the original string is its suffix |
| Digits.Format | dotnet/Jcl.VatNumberValidator.Tests/SpanishTestData.cs:37-38 | the `D<width>` text is all digits, denotes the number, and is exactly `width` long when the number has at most `width` digits |
| Digits.IntToString | dotnet/Jcl.VatNumberValidator.Spanish/SpanishVatNumberValidator.cs:72 | the shortest decimal text: a non-negative number prints as digits denoting it with no leading zero; a negative one as '-' and the digits of its absolute value, again with no leading zero |
| SpanishVatNumberValidator.ToUpperInvariant | dotnet/Jcl.VatNumberValidator.Spanish/SpanishVatNumberValidator.cs:19 | same length, each character upper-cased, letters become upper-case letters |
| SpanishVatNumberValidator.UpperChar | dotnet/Jcl.VatNumberValidator.Spanish/SpanishVatNumberValidator.cs:19 | a lower-case ASCII letter becomes the upper-case letter 32 code points below it; every other character is unchanged |
| SpanishVatNumberValidator.RemoveSeparators | dotnet/Jcl.VatNumberValidator.Spanish/SpanishVatNumberValidator.cs:19 | the `[\W_]+` removal keeps only letters and digits of the input, never lengthens it, and leaves a string of letters and digits unchanged |
| SpanishVatNumberValidator.RemoveSeparatorsConcat | dotnet/Jcl.VatNumberValidator.Spanish/SpanishVatNumberValidator.cs:19 | separator removal distributes over concatenation, so together with the previous row the result is exactly the letters and digits of the input, in order |
| SpanishVatNumberValidator.RemoveOneSeparator | dotnet/Jcl.VatNumberValidator.Spanish/SpanishVatNumberValidator.cs:19 | a separator character contributes nothing to the cleaned string, wherever it stands |
| SpanishVatNumberValidator.Normalize | dotnet/Jcl.VatNumberValidator.Spanish/SpanishVatNumberValidator.cs:16-28 | the result is upper-case letters and digits only; a digit-leading stripped string shorter than 9 becomes exactly 9 long, zeros then the stripped string; anything else (empty, letter-first, 9 or longer) is returned unchanged, without truncation |
| SpanishVatNumberValidator.CanonicalKept | dotnet/Jcl.VatNumberValidator.Spanish/SpanishVatNumberValidator.cs:19 | upper-casing and separator removal leave a canonical string unchanged |
| SpanishVatNumberValidator.NormalFormFixed | dotnet/Jcl.VatNumberValidator.Spanish/SpanishVatNumberValidator.cs:20-27 | a canonical string that is empty, letter-leading or at least 9 long is its own normal form |
| SpanishVatNumberValidator.NormalizeIdempotent | dotnet/Jcl.VatNumberValidator.Spanish/SpanishVatNumberValidator.cs:16-28 | `Normalize(Normalize(s)) == Normalize(s)` for every string |
| SpanishVatNumberValidator.SeparatorIgnored | dotnet/Jcl.VatNumberValidator.Spanish/SpanishVatNumberValidator.cs:19 | inserting a character other than a letter or digit anywhere in the input leaves the normal form unchanged |
| SpanishVatNumberValidator.TwoSeparatorsIgnored | dotnet/Jcl.VatNumberValidator.Spanish/SpanishVatNumberValidator.cs:19 | the same for two inserted separators |
| SpanishVatNumberValidator.CaseIgnored | dotnet/Jcl.VatNumberValidator.Spanish/SpanishVatNumberValidator.cs:19 | changing the case of one character leaves the normal form unchanged |
| SpanishVatNumberValidator.UpperCaseIgnored | dotnet/Jcl.VatNumberValidator.Spanish/SpanishVatNumberValidator.cs:19 | upper-casing the whole input first leaves the normal form unchanged |
| SpanishVatNumberValidator.IsDni | dotnet/Jcl.VatNumberValidator.Spanish/SpanishVatNumberValidator.cs:9 | `^(\d{8})([A-Z])$` as a predicate: 9 characters, eight digits, then an upper-case letter |
| SpanishVatNumberValidator.IsNie | dotnet/Jcl.VatNumberValidator.Spanish/SpanishVatNumberValidator.cs:11 | `^[XYZ]\d{7}[A-Z]$`: 9 characters, a prefix X, Y or Z, seven digits, then an upper-case letter |
| SpanishVatNumberValidator.IsCif | dotnet/Jcl.VatNumberValidator.Spanish/SpanishVatNumberValidator.cs:10 | `^([ABCDEFGHJKLMNPQRSUVW])(\d{7})([0-9A-J])$`: 9 characters, a class letter, seven digits, then a digit or a letter A to J |
| SpanishVatNumberValidator.ShapesDisjoint | dotnet/Jcl.VatNumberValidator.Spanish/SpanishVatNumberValidator.cs:9-11 | no string has two of the DNI, NIE and CIF shapes |
| SpanishVatNumberValidator.ShapedIsNormal | dotnet/Jcl.VatNumberValidator.Spanish/SpanishVatNumberValidator.cs:45-47 | every DNI-, NIE- or CIF-shaped string is already in normal form, so re-normalising it changes nothing |
| SpanishVatNumberValidator.DniLetter | dotnet/Jcl.VatNumberValidator.Spanish/SpanishVatNumberValidator.cs:51 | the letter that the number modulo 23 selects is an upper-case letter |
| SpanishVatNumberValidator.ValidateDni | dotnet/Jcl.VatNumberValidator.Spanish/SpanishVatNumberValidator.cs:49-62 | true exactly when the (normalised) string is 8 digits and the letter that their value modulo 23 selects; the parse of 8 digits never fails |
| SpanishVatNumberValidator.DniLetterUnique | dotnet/Jcl.VatNumberValidator.Spanish/SpanishVatNumberValidator.cs:59-61 | for every 8-digit payload exactly one letter completes it to a valid DNI |
| SpanishVatNumberValidator.DniLettersDistinct | dotnet/Jcl.VatNumberValidator.Spanish/SpanishVatNumberValidator.cs:51 | the 23 DNI letters are pairwise distinct |
| SpanishVatNumberValidator.IndexOf | dotnet/Jcl.VatNumberValidator.Spanish/SpanishVatNumberValidator.cs:72 | the first position of the character, or -1 exactly when it does not occur |
| SpanishVatNumberValidator.NieAsDni | dotnet/Jcl.VatNumberValidator.Spanish/SpanishVatNumberValidator.cs:71-73 | the NIE with X, Y, Z replaced by 0, 1, 2 is a canonical 9-character string with the same tail |
| SpanishVatNumberValidator.ValidateNie | dotnet/Jcl.VatNumberValidator.Spanish/SpanishVatNumberValidator.cs:64-74 | true exactly when the (normalised) string is NIE-shaped and its prefix-substituted form is a valid DNI; the default re-normalisation of that form changes nothing |
| SpanishVatNumberValidator.NieNumber | dotnet/Jcl.VatNumberValidator.Spanish/SpanishVatNumberValidator.cs:71-73 | the number a NIE stands for is below 3 * 10^7 |
| SpanishVatNumberValidator.NieCheckLetter | dotnet/Jcl.VatNumberValidator.Spanish/SpanishVatNumberValidator.cs:64-74 | a NIE is valid exactly when its letter is the DNI letter of prefix position * 10^7 + its seven digits |
| SpanishVatNumberValidator.CifContribution | dotnet/Jcl.VatNumberValidator.Spanish/SpanishVatNumberValidator.cs:88-90 | each digit contributes below 10, and at odd positions it contributes itself |
| SpanishVatNumberValidator.CifDigitSum | dotnet/Jcl.VatNumberValidator.Spanish/SpanishVatNumberValidator.cs:88-90 | the sum of the contributions of the digits at their positions, at most 9 per digit |
| SpanishVatNumberValidator.CifCheckPosition | dotnet/Jcl.VatNumberValidator.Spanish/SpanishVatNumberValidator.cs:91-92 | the check position is in 0..9, so the letter index is in bounds, and it completes the weighted sum to a multiple of 10 |
| SpanishVatNumberValidator.ValidateCif | dotnet/Jcl.VatNumberValidator.Spanish/SpanishVatNumberValidator.cs:76-96 | true exactly when the (normalised) string is CIF-shaped and either its control is a digit equal to the check position with the class outside PQRSW, or its control is the letter of JABCDEFGHI at the check position, whatever the class |
| SpanishVatNumberValidator.CifControlMatches | dotnet/Jcl.VatNumberValidator.Spanish/SpanishVatNumberValidator.cs:86-95 | on a CIF shape, the parse-or-letter test of the control character is the digit/letter rule above |
| SpanishVatNumberValidator.SingleCharParse | dotnet/Jcl.VatNumberValidator.Spanish/SpanishVatNumberValidator.cs:93 | parsing the one-character control succeeds exactly on a digit |
| SpanishVatNumberValidator.Validate | dotnet/Jcl.VatNumberValidator.Spanish/SpanishVatNumberValidator.cs:30-43 | true only for a 9-character normal form, and exactly when that form has a shape whose validator accepts it |
| SpanishVatNumberValidator.DispatchByShape | dotnet/Jcl.VatNumberValidator.Spanish/SpanishVatNumberValidator.cs:34-42 | on each shape `Validate` returns that shape's validator's verdict; with no shape it is false |
| SpanishVatNumberProperties.ValidationSeesNormalForm | dotnet/Jcl.VatNumberValidator.Spanish/SpanishVatNumberValidator.cs:30-43 | with the default `normalize`, each of the four validators gives on `s` the same verdict as on `Normalize(s)` without normalisation |
| SpanishVatNumberProperties.ValidNormalFormHasNineCharacters | dotnet/Jcl.VatNumberValidator.Spanish/SpanishVatNumberValidator.cs:33-41 | an accepted input normalises to 9 characters and is accepted by one of the three specific validators |
| SpanishVatNumberProperties.SameNormalFormSameVerdict | dotnet/Jcl.VatNumberValidator.Spanish/SpanishVatNumberValidator.cs:30-96 | two inputs with the same normal form get the same verdict from each of the four validators |
| SpanishVatNumberProperties.SeparatorIgnoredByValidators | dotnet/Jcl.VatNumberValidator.Spanish/SpanishVatNumberValidator.cs:19 | inserting a separator anywhere in the input leaves the verdict of each of the four validators unchanged |
| SpanishVatNumberProperties.CaseIgnoredByValidators | dotnet/Jcl.VatNumberValidator.Spanish/SpanishVatNumberValidator.cs:19 | changing the case of one character leaves the verdict of each of the four validators unchanged |
| SpanishVatNumberProperties.Pow10Residue | dotnet/Jcl.VatNumberValidator.Spanish/SpanishVatNumberValidator.cs:61 | 23 divides no power of ten |
| SpanishVatNumberProperties.NoSmallMultipleOf23 | dotnet/Jcl.VatNumberValidator.Spanish/SpanishVatNumberValidator.cs:61 | 23 divides no product of two numbers in 1..22 |
| SpanishVatNumberProperties.DigitChangeMovesResidue | dotnet/Jcl.VatNumberValidator.Spanish/SpanishVatNumberValidator.cs:61 | adding `e * 10^k` with `0 < abs(e) <= 9` always changes the residue modulo 23 |
| SpanishVatNumberProperties.DniDigitSubstitution | dotnet/Jcl.VatNumberValidator.Spanish/SpanishVatNumberValidator.cs:49-62 | replacing any of the eight digits of a valid DNI by a different digit keeps the shape and makes it invalid |
| SpanishVatNumberProperties.NieAsDniUpdate | dotnet/Jcl.VatNumberValidator.Spanish/SpanishVatNumberValidator.cs:71-73 | replacing a digit of a NIE replaces the same digit of its prefix-substituted form |
| SpanishVatNumberProperties.NieDigitSubstitution | dotnet/Jcl.VatNumberValidator.Spanish/SpanishVatNumberValidator.cs:64-74 | replacing any of the seven digits of a valid NIE by a different digit keeps the shape and makes it invalid |
| SpanishVatNumberProperties.CifContributionInjective | dotnet/Jcl.VatNumberValidator.Spanish/SpanishVatNumberValidator.cs:88-90 | different digits contribute differently at every position (doubling then adding digits permutes 0..9) |
| SpanishVatNumberProperties.DoubledContribution | dotnet/Jcl.VatNumberValidator.Spanish/SpanishVatNumberValidator.cs:89-90 | at an even position a digit contributes `2d` below 5 and `2d - 9` from 5 on |
| SpanishVatNumberProperties.CifDigitSumUpdate | dotnet/Jcl.VatNumberValidator.Spanish/SpanishVatNumberValidator.cs:88-90 | replacing one digit changes the weighted sum by the difference of the two contributions |
| SpanishVatNumberProperties.CifCheckPositionMoves | dotnet/Jcl.VatNumberValidator.Spanish/SpanishVatNumberValidator.cs:88-92 | replacing one digit by a different digit changes the check position |
| SpanishVatNumberProperties.CifControlLettersDistinct | dotnet/Jcl.VatNumberValidator.Spanish/SpanishVatNumberValidator.cs:78 | the ten CIF control letters are pairwise distinct |
| SpanishVatNumberProperties.CifDigitSubstitution | dotnet/Jcl.VatNumberValidator.Spanish/SpanishVatNumberValidator.cs:76-96 | replacing any digit of a valid CIF after the class letter, the control digit included, by a different digit keeps the shape and makes it invalid |
| SpanishVatNumberProperties.RemoveSeparatorsUpdate | dotnet/Jcl.VatNumberValidator.Spanish/SpanishVatNumberValidator.cs:19 | replacing a kept character of the input replaces exactly one character of the stripped string |
| SpanishVatNumberProperties.KeptCharacter | dotnet/Jcl.VatNumberValidator.Spanish/SpanishVatNumberValidator.cs:19 | a letter or digit survives separator removal in place, between the cleaned text before it and the cleaned text after it |
| SpanishVatNumberProperties.PadLeftUpdate | dotnet/Jcl.VatNumberValidator.Spanish/SpanishVatNumberValidator.cs:24 | replacing a character before padding replaces the matching character after padding |
| SpanishVatNumberProperties.NormalizeDigitSubstitution | dotnet/Jcl.VatNumberValidator.Spanish/SpanishVatNumberValidator.cs:16-28 | replacing a digit of the raw input by a digit replaces exactly one digit of the normal form |
| SpanishVatNumberProperties.DniRawDigitSubstitution | dotnet/Jcl.VatNumberValidator.Tests/SpanishVatNumberValidatorMusts.cs:96-100 | replacing any digit of an input `ValidateDni` accepts by a different digit makes `ValidateDni` refuse it |
| SpanishVatNumberProperties.NieRawDigitSubstitution | dotnet/Jcl.VatNumberValidator.Tests/SpanishVatNumberValidatorMusts.cs:102-106 | the same for `ValidateNie` |
| SpanishVatNumberProperties.CifRawDigitSubstitution | dotnet/Jcl.VatNumberValidator.Tests/SpanishVatNumberValidatorMusts.cs:108-112 | the same for `ValidateCif` |
| SpanishVatNumberProperties.DigitSubstitutionRejected | dotnet/Jcl.VatNumberValidator.Tests/SpanishVatNumberValidatorMusts.cs:61-72 | the same for `Validate` |
| SpanishVatNumberProperties.ShapeRejection | dotnet/Jcl.VatNumberValidator.Spanish/SpanishVatNumberValidator.cs:34-42 | on normal forms: a digit substitution in an accepted string is refused by `Validate` |
| SpanishTestData.RandomValidDniItem | dotnet/Jcl.VatNumberValidator.Tests/SpanishTestData.cs:25-26 | the generated text is 5 to 9 characters: the shortest decimal text of the drawn number, then the letter of the 24-letter table at the number modulo 23 |
| SpanishTestData.RandomValidNieItem | dotnet/Jcl.VatNumberValidator.Tests/SpanishTestData.cs:35-38 | the generated NIE is 9 characters and starts with the drawn prefix |
| SpanishTestData.RandomValidCifItem | dotnet/Jcl.VatNumberValidator.Tests/SpanishTestData.cs:52-68 | the generated CIF is 9 characters and starts with the drawn class; the control is a letter for PQRSW and for resident code 0, and a digit for ABEH otherwise |
| SpanishTestData.CifDigits | dotnet/Jcl.VatNumberValidator.Tests/SpanishTestData.cs:61 | the seven digits denote `residentCode * 100000 + inscriptionCode` |
| SpanishTestData.CifOfParts | dotnet/Jcl.VatNumberValidator.Tests/SpanishTestData.cs:65-68 | class letter, the seven digits, then the check position's letter or the check digit itself |
| SpanishTestData.ControlIsLetter | dotnet/Jcl.VatNumberValidator.Tests/SpanishTestData.cs:55-59 | a letter control for PQRSW or resident code 0, a digit control for ABEH otherwise, the coin's choice for the other classes |
| SpanishTestData.ControlCharacter | dotnet/Jcl.VatNumberValidator.Tests/SpanishTestData.cs:67 | the control is a non-digit exactly when a letter is asked for, and otherwise the digit of the check position |
| SpanishTestData.NumericValue | dotnet/Jcl.VatNumberValidator.Tests/SpanishTestData.cs:77 | `GetNumericValue` is the digit's value on a digit and -1 otherwise |
| SpanishTestData.MakeInvalid | dotnet/Jcl.VatNumberValidator.Tests/SpanishTestData.cs:73-80 | only index 5 changes, to the digit `(value + 1) % 10`; the length and every other character stay; a digit always changes |
| SpanishTestData.GeneratorLettersAgree | dotnet/Jcl.VatNumberValidator.Tests/SpanishTestData.cs:26 | the generators' 24-letter table agrees with the validator's on every residue modulo 23 |
| SpanishTestData.RandomValidDniAccepted | dotnet/Jcl.VatNumberValidator.Tests/SpanishTestData.cs:20-28 | every generated DNI, short ones included, is accepted by `ValidateDni` and `Validate` |
| SpanishTestData.RandomValidDniItemPadded | dotnet/Jcl.VatNumberValidator.Tests/SpanishTestData.cs:26 | the zero-padded generated DNI has the DNI shape and the right letter |
| SpanishTestData.PaddedDni | dotnet/Jcl.VatNumberValidator.Spanish/SpanishVatNumberValidator.cs:23-24 | zero-padding 1 to 8 digits and their check letter to 9 characters gives a DNI shape with the right letter, whose 8-digit number is the original number |
| SpanishTestData.RandomValidNieAccepted | dotnet/Jcl.VatNumberValidator.Tests/SpanishTestData.cs:30-40 | every generated NIE is accepted by `ValidateNie` and `Validate` |
| SpanishTestData.NieFromDigits | dotnet/Jcl.VatNumberValidator.Tests/SpanishTestData.cs:37-38 | for any prefix position and seven digits, the generator's letter is the check letter of the number the NIE stands for |
| SpanishTestData.RandomValidCifAccepted | dotnet/Jcl.VatNumberValidator.Tests/SpanishTestData.cs:42-71 | every generated CIF, with a letter or a digit control, is accepted by `ValidateCif` and `Validate` |
| SpanishTestData.CifOfPartsAccepted | dotnet/Jcl.VatNumberValidator.Tests/SpanishTestData.cs:61-68 | the construction is accepted unless it puts a digit control on a PQRSW class |
| SpanishTestData.GeneratedClassAccepted | dotnet/Jcl.VatNumberValidator.Tests/SpanishTestData.cs:44 | every class the generator draws is a class the validator accepts |
| SpanishTestData.MakeInvalidRejected | dotnet/Jcl.VatNumberValidator.Tests/SpanishTestData.cs:73-80 | when index 5 is a digit, the corrupted string is refused by every validator that accepted the original |
| SpanishTestData.DniFixtureAccepted | dotnet/Jcl.VatNumberValidator.Tests/SpanishTestData.cs:84 | "90275465M" is accepted |
| SpanishTestData.ShortDniFixtureAccepted | dotnet/Jcl.VatNumberValidator.Tests/SpanishTestData.cs:84 | "6752999S" normalises to "06752999S" and is accepted |
| SpanishTestData.NieFixtureAccepted | dotnet/Jcl.VatNumberValidator.Tests/SpanishTestData.cs:101 | "X3675428M" is accepted |
| SpanishTestData.CifFixtureAccepted | dotnet/Jcl.VatNumberValidator.Tests/SpanishTestData.cs:118 | "B63520670" is accepted |
| SpanishTestData.ClassACifFixtureAccepted | dotnet/Jcl.VatNumberValidator.Tests/SpanishTestData.cs:118 | "A30339220" is accepted |
| SpanishTestData.CaseAndPunctuationIgnored | dotnet/Jcl.VatNumberValidator.Spanish/SpanishVatNumberValidator.cs:19 | "90275465m" and "90.275465-M" normalise to "90275465M" and are accepted, as instances of the general lemmas `CaseIgnored` and `TwoSeparatorsIgnored` |
| SpanishTestData.KnownRejections | dotnet/Jcl.VatNumberValidator.Tests/SpanishVatNumberValidatorMusts.cs:61-72 | the `MakeInvalid` image "90275565M" of the first DNI fixture, which the test checks, is refused; so are three added cases: the corruption "90275464M", the empty string and "NOTANID" |

## Left out

- Null arguments: the `ArgumentNullException` checks are not modelled, since Dafny strings cannot be null.
- `Name` and `Description`: constant strings with no logic.
- Unicode: the model's alphabet is ASCII.
  - Letters are `A-Z`/`a-z`, digits are `0-9`, and `ToUpperInvariant` maps only `a-z`.
  - Every other character counts as a separator and is removed. .NET would keep non-ASCII letters and digits.
  - `int.TryParse` and `char.GetNumericValue` on non-ASCII digits are not modelled.
- Digits.TryParse: models `int.TryParse` on strings of ASCII digits only. Signs and surrounding white space never reach it here, because parsing happens after a shape check.
- The .NET `$` anchor, which also matches before a trailing newline: the shapes are exact 9-character predicates. The length check in `Validate` guards the same inputs.
- `System.Random` and the `for`/`yield` loops of the three generators. One generated item is a function of its draws. The draw ranges become preconditions.
- SpanishTestData.RandomValidCifItem: the generator's weighted sum is the same expression as the validator's. The model reuses `CifCheckPosition` instead of writing it a second time.
- SpanishTestData.MakeInvalid: the source throws on strings of 5 characters or fewer; the model returns `None`. It writes a copy of the string, where the source writes a `StringBuilder` in place.
- The `Dnis`, `Nies` and `Cifs` arrays and the `Invalid*` collections are not modelled in full. Only five of their strings are: the DNIs "90275465M" and "6752999S", the NIE "X3675428M" and the CIFs "B63520670" and "A30339220", plus the `MakeInvalid` image of the first DNI. The other modelled strings (two spellings of a DNI, a corrupted DNI, the empty string and a word) are added cases.
- The xUnit harness (`AssertCollection*`) and `RandomString`, which is test plumbing.
- The interfaces `IVatNumberValidator` and `ISpanishVatNumberValidator`: declarations only.
