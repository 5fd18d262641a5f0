/** The VIN engine of app/routes.py: the constant tables, the check digit of 49 CFR Part 565
    (section 565.15) over the ISO 3779 layout, model-year resolution, decoding against the
    reference tables and generation of a random VIN. The wall clock and the random source are
    parameters: `currentYear` and the sampled values. */
module Vin {
  import opened Wrappers
  import opened Text
  import opened Tables

  const VinLength: nat := 17
  /** Letters refused before the alphabet test, in the order they are checked. */
  const InvalidChars: seq<char> := ['I', 'O', 'Q']
  /** The 33 VIN symbols in the decoder's order ('0' before '1'). */
  const VinCharacters: string := "ABCDEFGHJKLMNPRSTUVWXYZ0123456789"
  const Digits: string := "0123456789"
  const Weights: seq<int> := [8, 7, 6, 5, 4, 3, 2, 10, 0, 9, 8, 7, 6, 5, 4, 3, 2]
  /** The keys of `MODEL_YEARS` in the order the dictionary was written (its iteration order). */
  const ModelYearOrder: string := "ABCDEFGHJKLMNPRSTVWXY123456789"

  /** Fallback flags as the source spells them (a mis-decoded emoji). */
  const UnknownFlag: string := "\U{F0}\U{178}\U{B3}"
  const FactoryFlag: string := "\U{F0}\U{178}\U{AD}"

  predicate AllIn(s: string, alphabet: string) {
    forall i :: 0 <= i < |s| ==> s[i] in alphabet
  }

  /** `TRANSLITERATION.get(c, 0)`: the letter values of the transliteration table, the digits as
      themselves, and 0 for a character outside the table. */
  function TransliterationOf(c: char): int {
    match c
    case 'A' => 1 case 'B' => 2 case 'C' => 3 case 'D' => 4 case 'E' => 5 case 'F' => 6 case 'G' => 7 case 'H' => 8
    case 'J' => 1 case 'K' => 2 case 'L' => 3 case 'M' => 4 case 'N' => 5 case 'P' => 7 case 'R' => 9
    case 'S' => 2 case 'T' => 3 case 'U' => 4 case 'V' => 5 case 'W' => 6 case 'X' => 7 case 'Y' => 8 case 'Z' => 9
    case '0' => 0 case '1' => 1 case '2' => 2 case '3' => 3 case '4' => 4
    case '5' => 5 case '6' => 6 case '7' => 7 case '8' => 8 case '9' => 9
    case _ => 0
  }

  /** The weighted transliteration sum over the first `n` positions. */
  function WeightedSum(vin: string, n: nat): int
    requires n <= VinLength <= |vin|
  {
    if n == 0 then 0 else WeightedSum(vin, n - 1) + TransliterationOf(vin[n - 1]) * Weights[n - 1]
  }

  /** `compute_check_digit`: 'X' for a remainder of 10, otherwise the remainder as a digit. */
  function CheckDigit(vin: string): (d: char)
    requires |vin| >= VinLength
    ensures d in Digits || d == 'X'
    ensures d == 'X' <==> WeightedSum(vin, VinLength) % 11 == 10
    ensures d != 'X' ==> d as int - '0' as int == WeightedSum(vin, VinLength) % 11
  {
    var remainder := WeightedSum(vin, VinLength) % 11;
    if remainder == 10 then 'X' else Digits[remainder]
  }

  /** `validate_check_digit` */
  predicate ValidateCheckDigit(vin: string)
    requires |vin| >= VinLength
  {
    vin[8] == CheckDigit(vin)
  }

  /** `is_north_american`: the checksum is mandatory for a leading '1'..'5'. */
  predicate IsNorthAmerican(vin: string)
    requires |vin| > 0
  {
    vin[0] in "12345"
  }

  /** The weighted sum depends only on the transliterated values outside the check position,
      whose weight is 0. */
  lemma {:induction false} WeightedSumIgnoresCheckPosition(v: string, w: string, n: nat)
    requires n <= VinLength <= |v| && VinLength <= |w|
    requires forall i :: 0 <= i < n && i != 8 ==> TransliterationOf(v[i]) == TransliterationOf(w[i])
    ensures WeightedSum(v, n) == WeightedSum(w, n)
  {
    if n > 0 {
      WeightedSumIgnoresCheckPosition(v, w, n - 1);
      if n - 1 == 8 {
        assert Weights[8] == 0;
      }
    }
  }

  /** Writing the computed check digit into position 8 yields a VIN that validates. */
  lemma SpliceValidates(vin: string, c: char)
    requires |vin| >= VinLength
    ensures ValidateCheckDigit(vin[8 := CheckDigit(vin[8 := c])])
  {
    WeightedSumIgnoresCheckPosition(vin, vin[8 := c], VinLength);
    WeightedSumIgnoresCheckPosition(vin, vin[8 := CheckDigit(vin[8 := c])], VinLength);
  }

  /** Changing the check digit alone of a valid VIN makes it invalid. */
  lemma CheckDigitMutationInvalidates(vin: string, c: char)
    requires |vin| >= VinLength && ValidateCheckDigit(vin) && c != vin[8]
    ensures !ValidateCheckDigit(vin[8 := c])
  {
    WeightedSumIgnoresCheckPosition(vin, vin[8 := c], VinLength);
  }

  /** The worked example of the check-digit computation. */
  const ExampleVin: string := "1HGCM82633A004352"

  /** The worked example has weighted sum 311 and check digit '3'. */
  lemma CheckDigitExample()
    ensures |ExampleVin| == VinLength
    ensures CheckDigit(ExampleVin) == '3'
    ensures ValidateCheckDigit(ExampleVin)
  {
    ExampleWeightedSum();
  }

  lemma ExampleWeightedSum()
    ensures WeightedSum(ExampleVin, 17) == 311
  {
    ExampleWeightedSumEnd();
  }

  lemma ExampleWeightedSumEnd()
    ensures WeightedSum(ExampleVin, 16) == 307
  {
    var vin := ExampleVin;
    ExampleWeightedSumMiddle();
    assert WeightedSum(vin, 14) == 280;
    assert WeightedSum(vin, 15) == 292;
  }

  lemma ExampleWeightedSumMiddle()
    ensures WeightedSum(ExampleVin, 13) == 260
  {
    var vin := ExampleVin;
    ExampleWeightedSumPrefix();
    assert WeightedSum(vin, 10) == 252;
    assert WeightedSum(vin, 11) == 260;
    assert WeightedSum(vin, 12) == 260;
  }

  lemma ExampleWeightedSumPrefix()
    ensures WeightedSum(ExampleVin, 9) == 225
  {
    var vin := ExampleVin;
    ExampleWeightedSumStart();
    assert WeightedSum(vin, 6) == 161;
    assert WeightedSum(vin, 7) == 165;
    assert WeightedSum(vin, 8) == 225;
  }

  lemma ExampleWeightedSumStart()
    ensures WeightedSum(ExampleVin, 5) == 137
  {
    var vin := ExampleVin;
    assert WeightedSum(vin, 1) == 8;
    assert WeightedSum(vin, 2) == 64;
    assert WeightedSum(vin, 3) == 106;
    assert WeightedSum(vin, 4) == 121;
  }

  /** `MODEL_YEARS.get(c)`: 'A'..'Y' (without I, O, Q, U, Z) are 2010..2030, '1'..'9' are 2031..2039. */
  function BaseYear(c: char): Option<int> {
    match c
    case 'A' => Some(2010) case 'B' => Some(2011) case 'C' => Some(2012) case 'D' => Some(2013)
    case 'E' => Some(2014) case 'F' => Some(2015) case 'G' => Some(2016) case 'H' => Some(2017)
    case 'J' => Some(2018) case 'K' => Some(2019) case 'L' => Some(2020) case 'M' => Some(2021)
    case 'N' => Some(2022) case 'P' => Some(2023) case 'R' => Some(2024) case 'S' => Some(2025)
    case 'T' => Some(2026) case 'V' => Some(2027) case 'W' => Some(2028) case 'X' => Some(2029)
    case 'Y' => Some(2030) case '1' => Some(2031) case '2' => Some(2032) case '3' => Some(2033)
    case '4' => Some(2034) case '5' => Some(2035) case '6' => Some(2036) case '7' => Some(2037)
    case '8' => Some(2038) case '9' => Some(2039)
    case _ => None
  }

  /** Position `i` of `ModelYearOrder` is the character of year 2010 + i; so the characters
      are pairwise distinct and each is a key of the table. */
  lemma ModelYearOrderYears()
    ensures forall i :: 0 <= i < |ModelYearOrder| ==> BaseYear(ModelYearOrder[i]) == Some(2010 + i)
    ensures forall i, j :: 0 <= i < j < |ModelYearOrder| ==> ModelYearOrder[i] != ModelYearOrder[j]
  {
  }

  /** Every key of the table occurs in `ModelYearOrder`, and all base years are 2010..2039. */
  lemma ModelYearKeys(c: char)
    ensures BaseYear(c).Some? <==> c in ModelYearOrder
    ensures BaseYear(c).Some? ==> 2010 <= BaseYear(c).value <= 2039 && c in VinCharacters
  {
    ModelYearOrderYears();
    if BaseYear(c).Some? {
      assert ModelYearOrder[BaseYear(c).value - 2010] == c;
      VinCharacterRanges(c);
    }
  }

  /** `resolve_model_year` with the current year as a parameter: one 30-year rollover when the
      base year is more than 30 years old, and nothing for a year after `currentYear`. */
  function ResolveModelYear(c: char, currentYear: int): (r: Option<int>)
    ensures BaseYear(c).None? ==> r.None?
    ensures r.Some? <==>
      BaseYear(c).Some? && BaseYear(c).value + (if BaseYear(c).value < currentYear - 30 then 30 else 0) <= currentYear
    ensures r.Some? ==> r.value <= currentYear
    ensures r.Some? ==> r.value == BaseYear(c).value + (if BaseYear(c).value < currentYear - 30 then 30 else 0)
    ensures BaseYear(c).Some? && currentYear - 30 <= BaseYear(c).value <= currentYear ==> r == BaseYear(c)
  {
    match BaseYear(c)
    case None => None
    case Some(baseYear) =>
      var year := if baseYear < currentYear - 30 then baseYear + 30 else baseYear;
      if year <= currentYear then Some(year) else None
  }

  /** The boundary cases with 2025 as the current year. */
  lemma ModelYearExamples()
    ensures ResolveModelYear('L', 2025) == Some(2020)
    ensures ResolveModelYear('3', 2025) == None
    ensures ResolveModelYear('A', 2040) == Some(2010)
    ensures ResolveModelYear('A', 2041) == Some(2040)
    ensures ResolveModelYear('U', 2025) == None && ResolveModelYear('Z', 2025) == None
    ensures ResolveModelYear('0', 2025) == None
  {
  }

  /** `vin.upper().strip()` */
  function Normalize(raw: string): string {
    Strip(Upper(raw))
  }

  /** The error results of `decode_vin`; `Message` is the text of its `error` key. */
  datatype DecodeError = WrongLength | ForbiddenCharacter(c: char) | InvalidCharacters | CheckDigitFailed {
    function Message(): string {
      match this
      case WrongLength => "VIN must be exactly 17 characters"
      case ForbiddenCharacter(c) => "Invalid character \"" + [c] + "\" found"
      case InvalidCharacters => "VIN contains invalid characters"
      case CheckDigitFailed => "Check digit validation failed. This VIN is not valid."
    }
  }

  /** The model year field: a year, or the string 'Unknown'. */
  datatype ModelYearField = Year(year: int) | UnknownYear

  /** The dictionary `decode_vin` returns on success. A nullable value is an Option. */
  datatype DecodeResult = DecodeResult(
    vin: string,
    wmi: string,
    vds: string,
    vis: string,
    checkDigit: char,
    checkDigitValid: bool,
    modelYearChar: char,
    plantCode: char,
    serialNumber: string,
    region: Option<string>,
    regionCountry: Option<string>,
    regionFlag: Option<string>,
    country: Option<string>,
    countryFlag: Option<string>,
    countryRegion: Option<string>,
    manufacturer: string,
    factoryCountry: Option<string>,
    factoryFlag: Option<string>,
    factoryRegion: Option<string>,
    manufacturerLogos: seq<string>,
    modelYear: ModelYearField)

  /** The first of `chars`, in their order, that occurs in `vin`. */
  function FirstForbidden(vin: string, chars: seq<char>): (r: Option<char>)
    ensures r.None? <==> forall k :: 0 <= k < |chars| ==> chars[k] !in vin
    ensures r.Some? ==> exists k :: 0 <= k < |chars| && chars[k] == r.value && r.value in vin &&
                          forall j :: 0 <= j < k ==> chars[j] !in vin
  {
    if chars == [] then None
    else if chars[0] in vin then Some(chars[0])
    else
      var r := FirstForbidden(vin, chars[1..]);
      assert forall k :: 1 <= k < |chars| ==> chars[k] == chars[1..][k - 1];
      r
  }

  /** The three syntactic stages of `decode_vin`, in their order. */
  function Validate(vin: string): Option<DecodeError> {
    if |vin| != VinLength then Some(WrongLength)
    else match FirstForbidden(vin, InvalidChars)
      case Some(c) => Some(ForbiddenCharacter(c))
      case None => if AllIn(vin, VinCharacters) then None else Some(InvalidCharacters)
  }

  /** The factory row for a WMI (`filter_by(wmi=...)`, first row). */
  function FindFactory(factories: seq<WmiFactory>, wmi: string): (r: Option<WmiFactory>)
    ensures r.Some? ==> r.value in factories && r.value.wmi == wmi
    ensures r.None? ==> forall f :: f in factories ==> f.wmi != wmi
  {
    if factories == [] then None
    else if factories[0].wmi == wmi then Some(factories[0])
    else FindFactory(factories[1..], wmi)
  }

  /** `get_factory_logos`: the file names linked to a factory id, in table order. */
  function LogosOf(logos: seq<FactoryLogo>, factoryId: nat): (r: seq<string>)
    ensures forall n :: n in r <==> FactoryLogo(factoryId, n) in logos
  {
    if logos == [] then []
    else (if logos[0].factoryId == factoryId then [logos[0].filename] else []) + LogosOf(logos[1..], factoryId)
  }

  /** What `decode_vin` returns for a raw input, as one expression. */
  function Decode(raw: string, ref: Reference, currentYear: int): Result<DecodeResult, DecodeError> {
    var vin := Normalize(raw);
    match Validate(vin)
    case Some(e) => Failure(e)
    case None =>
      var valid := ValidateCheckDigit(vin);
      if IsNorthAmerican(vin) && !valid then Failure(CheckDigitFailed)
      else Success(Assemble(vin, valid, ref, currentYear))
  }

  /** The record of a validated VIN: region fields from the one-character region entry, country
      fields from the factory's country or else the region fields, factory fields or their
      'Unknown' fallbacks, and the model year. */
  function Assemble(vin: string, valid: bool, ref: Reference, currentYear: int): DecodeResult
    requires |vin| == VinLength
  {
    var regionCode := vin[..1];
    var hasRegion := regionCode in ref.wmiRegions;
    var region := if hasRegion then ref.wmiRegions[regionCode].region else Some("Unknown");
    var regionCountry := if hasRegion then ref.wmiRegions[regionCode].commonName else Some("Unknown");
    var regionFlag := if hasRegion then ref.wmiRegions[regionCode].flagEmoji else Some(UnknownFlag);
    var factory := FindFactory(ref.factories, vin[..3]);
    var fc := if factory.Some? then factory.value.country else None;
    DecodeResult(
      vin := vin,
      wmi := vin[..3],
      vds := vin[3..9],
      vis := vin[9..17],
      checkDigit := vin[8],
      checkDigitValid := valid,
      modelYearChar := vin[9],
      plantCode := vin[10],
      serialNumber := vin[11..17],
      region := region,
      regionCountry := regionCountry,
      regionFlag := regionFlag,
      country := if fc.Some? then fc.value.commonName else regionCountry,
      countryFlag := if fc.Some? then fc.value.flagEmoji else regionFlag,
      countryRegion := if fc.Some? then fc.value.region else region,
      manufacturer := if factory.Some? then factory.value.name else "Unknown Manufacturer",
      factoryCountry :=
        if factory.None? then Some("Unknown")
        else if fc.Some? then fc.value.commonName else factory.value.region,
      factoryFlag :=
        if factory.None? then Some(UnknownFlag)
        else if fc.Some? then fc.value.flagEmoji else Some(FactoryFlag),
      factoryRegion :=
        if factory.None? then Some("Unknown")
        else if fc.Some? then fc.value.region
        else if Truthy(factory.value.region) then factory.value.region
        else Some("Unknown Factory Region"),
      manufacturerLogos := if factory.Some? then LogosOf(ref.factoryLogos, factory.value.id) else [],
      modelYear := match ResolveModelYear(vin[9], currentYear) case Some(y) => Year(y) case None => UnknownYear)
  }

  /** The three validation stages of `decode_vin`: length, then the forbidden letters in their
      order, then the alphabet. */
  method CheckSyntax(vin: string) returns (e: Option<DecodeError>)
    ensures e == Validate(vin)
  {
    if |vin| != VinLength {
      return Some(WrongLength);
    }
    var forbidden := ScanForbidden(vin);
    if forbidden.Some? {
      return Some(ForbiddenCharacter(forbidden.value));
    }
    var allValid := ScanAlphabet(vin);
    if !allValid {
      return Some(InvalidCharacters);
    }
    return None;
  }

  /** `for char in INVALID_CHARS: if char in vin: ...` */
  method ScanForbidden(vin: string) returns (r: Option<char>)
    ensures r == FirstForbidden(vin, InvalidChars)
  {
    for k := 0 to |InvalidChars|
      invariant FirstForbidden(vin, InvalidChars[..k]) == None
    {
      if InvalidChars[k] in vin {
        assert FirstForbidden(vin, InvalidChars) == Some(InvalidChars[k]) by {
          assert forall j :: 0 <= j < k ==> InvalidChars[j] !in vin by {
            assert forall j :: 0 <= j < k ==> InvalidChars[..k][j] == InvalidChars[j];
          }
        }
        return Some(InvalidChars[k]);
      }
      assert forall j :: 0 <= j < k + 1 ==> InvalidChars[..k + 1][j] == InvalidChars[j];
    }
    assert InvalidChars[..|InvalidChars|] == InvalidChars;
    return None;
  }

  /** `all(c in VIN_CHARACTERS for c in vin)` */
  method ScanAlphabet(vin: string) returns (allValid: bool)
    ensures allValid == AllIn(vin, VinCharacters)
  {
    allValid := true;
    for i := 0 to |vin|
      invariant allValid <==> AllIn(vin[..i], VinCharacters)
    {
      if vin[i] !in VinCharacters {
        allValid := false;
      }
      assert forall j :: 0 <= j < i ==> vin[..i + 1][j] == vin[..i][j];
    }
    assert vin[..|vin|] == vin;
  }

  /** The result dictionary of `decode_vin` for a validated VIN, filled key group by key group. */
  method BuildRecord(vin: string, checkDigitValid: bool, ref: Reference, currentYear: int) returns (rec: DecodeResult)
    requires |vin| == VinLength
    ensures rec == Assemble(vin, checkDigitValid, ref, currentYear)
  {
    var wmi := vin[..3];
    var regionCode := vin[..1];

    // Region info, from the first character.
    var region, regionCountry, regionFlag;
    if regionCode in ref.wmiRegions {
      var entry := ref.wmiRegions[regionCode];
      region, regionCountry, regionFlag := entry.region, entry.commonName, entry.flagEmoji;
    } else {
      region, regionCountry, regionFlag := Some("Unknown"), Some("Unknown"), Some(UnknownFlag);
    }

    // Country info, from the factory's country or else the region's.
    var factory := FindFactory(ref.factories, wmi);
    var country, countryFlag, countryRegion;
    if factory.Some? && factory.value.country.Some? {
      var c := factory.value.country.value;
      country, countryFlag, countryRegion := c.commonName, c.flagEmoji, c.region;
    } else {
      country, countryFlag, countryRegion := regionCountry, regionFlag, region;
    }

    // Factory and manufacturer info.
    var manufacturer, factoryCountry, factoryFlag, factoryRegion, logos;
    if factory.Some? {
      var f := factory.value;
      manufacturer := f.name;
      factoryCountry := if f.country.Some? then f.country.value.commonName else f.region;
      factoryFlag := if f.country.Some? then f.country.value.flagEmoji else Some(FactoryFlag);
      if f.country.Some? {
        factoryRegion := f.country.value.region;
      } else {
        factoryRegion := if Truthy(f.region) then f.region else Some("Unknown Factory Region");
      }
      logos := LogosOf(ref.factoryLogos, f.id);
    } else {
      manufacturer := "Unknown Manufacturer";
      logos := [];
      factoryRegion := Some("Unknown");
      factoryCountry := Some("Unknown");
      factoryFlag := Some(UnknownFlag);
    }

    var modelYear := match ResolveModelYear(vin[9], currentYear) case Some(y) => Year(y) case None => UnknownYear;

    rec := DecodeResult(
      vin, wmi, vin[3..9], vin[9..17], vin[8], checkDigitValid, vin[9], vin[10], vin[11..17],
      region, regionCountry, regionFlag, country, countryFlag, countryRegion,
      manufacturer, factoryCountry, factoryFlag, factoryRegion, logos, modelYear);
  }

  /** `decode_vin`: normalise, validate, enforce the checksum where it is mandatory, then build
      the record. */
  method DecodeVin(raw: string, ref: Reference, currentYear: int) returns (r: Result<DecodeResult, DecodeError>)
    ensures r == Decode(raw, ref, currentYear)
  {
    var vin := Normalize(raw);
    var e := CheckSyntax(vin);
    if e.Some? {
      return Failure(e.value);
    }
    var checkDigitValid := ValidateCheckDigit(vin);
    if IsNorthAmerican(vin) && !checkDigitValid {
      return Failure(CheckDigitFailed);
    }
    var rec := BuildRecord(vin, checkDigitValid, ref, currentYear);
    return Success(rec);
  }

  /** The alphabet is the upper-case letters other than I, O and Q, and the ten digits. */
  lemma VinCharacterRanges(c: char)
    ensures c in VinCharacters <==> (IsAsciiUpper(c) && c != 'I' && c != 'O' && c != 'Q') || IsDigit(c)
  {
    VinLetters(c);
    assert VinCharacters == "ABCDEFGHJKLMNPRSTUVWXYZ" + "0123456789";
    assert c in "0123456789" <==> IsDigit(c);
  }

  lemma VinLetters(c: char)
    ensures c in "ABCDEFGHJKLMNPRSTUVWXYZ" <==> IsAsciiUpper(c) && c != 'I' && c != 'O' && c != 'Q'
  {
    assert "ABCDEFGHJKLMNPRSTUVWXYZ" == "ABCDEFGH" + "JKLMNP" + "RSTUVWXYZ";
    assert c in "ABCDEFGH" <==> 'A' <= c <= 'H';
    assert c in "JKLMNP" <==> 'J' <= c <= 'P' && c != 'O';
    assert c in "RSTUVWXYZ" <==> 'R' <= c <= 'Z';
  }

  /** Upper-casing and stripping leave a string of upper-case letters and digits unchanged. */
  lemma NormalizeIdentity(s: string)
    requires forall i :: 0 <= i < |s| ==> IsAsciiUpper(s[i]) || IsDigit(s[i])
    ensures Normalize(s) == s
  {
    assert Upper(s) == s;
    StripUnpadded(s);
  }

  /** In particular a string over the VIN alphabet is its own normal form. */
  lemma NormalizeAlphabet(vin: string)
    requires AllIn(vin, VinCharacters)
    ensures Normalize(vin) == vin
  {
    forall i | 0 <= i < |vin|
      ensures IsAsciiUpper(vin[i]) || IsDigit(vin[i])
    {
      VinCharacterRanges(vin[i]);
    }
    NormalizeIdentity(vin);
  }

  /** A 17-character string over the alphabet passes the three validation stages. */
  lemma AlphabetValidates(vin: string)
    requires |vin| == VinLength && AllIn(vin, VinCharacters)
    ensures Validate(vin).None?
  {
    forall k | 0 <= k < |InvalidChars|
      ensures InvalidChars[k] !in vin
    {
      if InvalidChars[k] in vin {
        var i := IndexOf(vin, InvalidChars[k]);
        VinCharacterRanges(vin[i]);
      }
    }
  }

  /** For a 17-character string over the alphabet, the checksum policy alone decides: an error
      exactly for a North-American VIN whose check digit fails, otherwise a record that reports
      whether the check digit holds. */
  lemma ChecksumPolicy(vin: string, ref: Reference, currentYear: int)
    requires |vin| == VinLength && AllIn(vin, VinCharacters)
    ensures Decode(vin, ref, currentYear) == Failure(CheckDigitFailed) <==>
            IsNorthAmerican(vin) && !ValidateCheckDigit(vin)
    ensures Decode(vin, ref, currentYear).Success? <==>
            !IsNorthAmerican(vin) || ValidateCheckDigit(vin)
    ensures Decode(vin, ref, currentYear).Success? ==>
            Decode(vin, ref, currentYear).value.vin == vin &&
            Decode(vin, ref, currentYear).value.checkDigitValid == ValidateCheckDigit(vin)
  {
    DecodeOverAlphabet(vin, ref, currentYear);
    ChecksumCases(Decode(vin, ref, currentYear), vin, ref, currentYear);
  }

  lemma DecodeOverAlphabet(vin: string, ref: Reference, currentYear: int)
    requires |vin| == VinLength && AllIn(vin, VinCharacters)
    ensures Decode(vin, ref, currentYear) ==
      if IsNorthAmerican(vin) && !ValidateCheckDigit(vin) then Failure(CheckDigitFailed)
      else Success(Assemble(vin, ValidateCheckDigit(vin), ref, currentYear))
  {
    NormalizeAlphabet(vin);
    AlphabetValidates(vin);
    DecodeValidated(vin, ref, currentYear);
  }

  lemma ChecksumCases(r: Result<DecodeResult, DecodeError>, vin: string, ref: Reference, currentYear: int)
    requires |vin| == VinLength
    requires r == if IsNorthAmerican(vin) && !ValidateCheckDigit(vin) then Failure(CheckDigitFailed)
                  else Success(Assemble(vin, ValidateCheckDigit(vin), ref, currentYear))
    ensures r == Failure(CheckDigitFailed) <==> IsNorthAmerican(vin) && !ValidateCheckDigit(vin)
    ensures r.Success? <==> !IsNorthAmerican(vin) || ValidateCheckDigit(vin)
    ensures r.Success? ==> r.value.vin == vin && r.value.checkDigitValid == ValidateCheckDigit(vin)
  {
    AssembleFields(vin, ValidateCheckDigit(vin), ref, currentYear);
  }

  lemma DecodeValidated(vin: string, ref: Reference, currentYear: int)
    requires Normalize(vin) == vin && Validate(vin).None?
    ensures |vin| == VinLength
    ensures Decode(vin, ref, currentYear) ==
      if IsNorthAmerican(vin) && !ValidateCheckDigit(vin) then Failure(CheckDigitFailed)
      else Success(Assemble(vin, ValidateCheckDigit(vin), ref, currentYear))
  {
    var n := Normalize(vin);
    assert n == vin && Validate(n).None?;
  }

  /** Any string over the VIN alphabet whose check digit validates decodes without error. */
  lemma WellFormedDecodes(vin: string, ref: Reference, currentYear: int)
    requires |vin| == VinLength && AllIn(vin, VinCharacters) && ValidateCheckDigit(vin)
    ensures Decode(vin, ref, currentYear).Success?
    ensures Decode(vin, ref, currentYear).value.vin == vin
    ensures Decode(vin, ref, currentYear).value.checkDigitValid
  {
    ChecksumPolicy(vin, ref, currentYear);
  }

  /** The model-year characters that resolve for `currentYear`, in dictionary order (the list
      comprehension of `generate_vin`). */
  function ValidYears(currentYear: int): (r: string)
    ensures forall c :: c in r <==> c in ModelYearOrder && ResolveModelYear(c, currentYear).Some?
  {
    Resolving(ModelYearOrder, currentYear)
  }

  function Resolving(keys: string, currentYear: int): (r: string)
    ensures forall c :: c in r <==> c in keys && ResolveModelYear(c, currentYear).Some?
  {
    if keys == [] then []
    else (if ResolveModelYear(keys[0], currentYear).Some? then [keys[0]] else []) + Resolving(keys[1..], currentYear)
  }

  lemma {:induction false} ResolvingNone(keys: string, currentYear: int)
    requires forall c :: c in keys ==> ResolveModelYear(c, currentYear).None?
    ensures Resolving(keys, currentYear) == []
  {
    if keys != [] {
      ResolvingNone(keys[1..], currentYear);
    }
  }

  /** What `random.choice` draws the model-year character from: the resolving characters, or 'L'. */
  function YearChoices(currentYear: int): string {
    if ValidYears(currentYear) == [] then "L" else ValidYears(currentYear)
  }

  /** No model-year character resolves before 2010; from 2010 on, at least 'A' does. */
  lemma ValidYearsEmpty(currentYear: int)
    ensures ValidYears(currentYear) == [] <==> currentYear < 2010
  {
    if currentYear >= 2010 {
      assert 'A' in ValidYears(currentYear);
    } else {
      forall c | c in ModelYearOrder
        ensures ResolveModelYear(c, currentYear).None?
      {
        ModelYearKeys(c);
      }
      ResolvingNone(ModelYearOrder, currentYear);
    }
  }

  /** The characters `generate_vin` draws for the model year are VIN characters. */
  lemma YearChoicesAlphabet(currentYear: int)
    ensures AllIn(YearChoices(currentYear), VinCharacters)
  {
    forall c | c in YearChoices(currentYear)
      ensures c in VinCharacters
    {
      ModelYearKeys(c);
    }
  }

  /** A draft with every position in the alphabet, once its placeholder is replaced by the
      computed check digit, is a VIN the decoder accepts with a valid check digit. */
  lemma SplicedDraftDecodes(draft: string, ref: Reference, currentYear: int)
    requires |draft| == VinLength && AllIn(draft, VinCharacters)
    ensures var vin := draft[8 := CheckDigit(draft)];
      AllIn(vin, VinCharacters) && Decode(vin, ref, currentYear).Success? &&
      Decode(vin, ref, currentYear).value.vin == vin && Decode(vin, ref, currentYear).value.checkDigitValid
  {
    var vin := draft[8 := CheckDigit(draft)];
    assert draft[8 := draft[8]] == draft;
    SpliceValidates(draft, draft[8]);
    VinCharacterRanges(CheckDigit(draft));
    WellFormedDecodes(vin, ref, currentYear);
  }

  /** `generate_vin` with the random draws as parameters: the WMI of the factory at `factoryPick`
      (or `randomWmi` when the table is empty), five VDS characters, a '0' placeholder, the year
      character, the plant character and six serial digits; the check digit is then written
      over position 8. */
  method GenerateVin(ref: Reference, factoryPick: nat, randomWmi: string, vds: string, yearChar: char,
                     plant: char, serial: string, currentYear: int) returns (vin: string)
    requires ref.factories != [] ==> factoryPick < |ref.factories| && |ref.factories[factoryPick].wmi| == 3
    requires ref.factories == [] ==> |randomWmi| == 3 && AllIn(randomWmi, VinCharacters)
    requires |vds| == 5 && AllIn(vds, VinCharacters)
    requires yearChar in YearChoices(currentYear)
    requires plant in VinCharacters
    requires |serial| == 6 && AllIn(serial, Digits)
    ensures |vin| == VinLength
    ensures vin[..3] == (if ref.factories != [] then ref.factories[factoryPick].wmi else randomWmi)
    ensures vin[3..8] == vds && vin[9] == yearChar && vin[10] == plant && vin[11..] == serial
    ensures ValidateCheckDigit(vin)
    ensures AllIn(vin[..3], VinCharacters) ==>
      AllIn(vin, VinCharacters) && Decode(vin, ref, currentYear).Success? &&
      Decode(vin, ref, currentYear).value.vin == vin && Decode(vin, ref, currentYear).value.checkDigitValid
  {
    var factory := if ref.factories != [] then Some(ref.factories[factoryPick]) else None;
    var wmi := if factory.Some? then factory.value.wmi else randomWmi;
    var draft := wmi + vds + "0" + [yearChar] + [plant] + serial;
    var vinArray := new char[VinLength](i requires 0 <= i < VinLength => draft[i]);
    assert vinArray[..] == draft;
    var checkDigit := CheckDigit(vinArray[..]);
    vinArray[8] := checkDigit;
    vin := vinArray[..];
    DraftLayout(draft, wmi, vds, yearChar, plant, serial, vin);
    if AllIn(wmi, VinCharacters) {
      DraftAlphabet(wmi, vds, yearChar, plant, serial, currentYear);
      SplicedDraftDecodes(draft, ref, currentYear);
    }
  }

  /** Where the drawn parts sit in the draft and in the VIN once the check digit is in. */
  lemma DraftLayout(draft: string, wmi: string, vds: string, yearChar: char, plant: char, serial: string, vin: string)
    requires |wmi| == 3 && |vds| == 5 && |serial| == 6
    requires draft == wmi + vds + "0" + [yearChar] + [plant] + serial
    requires vin == draft[8 := CheckDigit(draft)]
    ensures |vin| == VinLength && vin[..3] == wmi && vin[3..8] == vds
    ensures vin[9] == yearChar && vin[10] == plant && vin[11..] == serial
    ensures ValidateCheckDigit(vin)
  {
    assert draft[8 := '0'] == draft;
    SpliceValidates(draft, '0');
  }

  /** With a WMI over the alphabet, every character of the draft is in the alphabet. */
  lemma DraftAlphabet(wmi: string, vds: string, yearChar: char, plant: char, serial: string, currentYear: int)
    requires |wmi| == 3 && AllIn(wmi, VinCharacters) && |vds| == 5 && AllIn(vds, VinCharacters)
    requires yearChar in YearChoices(currentYear) && plant in VinCharacters
    requires |serial| == 6 && AllIn(serial, Digits)
    ensures AllIn(wmi + vds + "0" + [yearChar] + [plant] + serial, VinCharacters)
  {
    var draft := wmi + vds + "0" + [yearChar] + [plant] + serial;
    YearChoicesAlphabet(currentYear);
    forall i | 0 <= i < |draft|
      ensures draft[i] in VinCharacters
    {
      VinCharacterRanges(draft[i]);
      if i < 3 {
        assert draft[i] == wmi[i];
      } else if i < 8 {
        assert draft[i] == vds[i - 3];
      } else if 11 <= i {
        assert draft[i] == serial[i - 11];
      }
    }
  }

  /** From 2010 on, a generated VIN (whose year character is then one that resolves) decodes to
      a known model year. */
  lemma GeneratedYearResolves(yearChar: char, currentYear: int)
    requires yearChar in YearChoices(currentYear) && currentYear >= 2010
    ensures ResolveModelYear(yearChar, currentYear).Some?
  {
    ValidYearsEmpty(currentYear);
  }

  /** The rejection precedence of `decode_vin` on the normalised input, and the checksum policy:
      a mismatch is an error exactly for a leading '1'..'5'. */
  lemma DecodeRejects(raw: string, ref: Reference, currentYear: int)
    ensures |Normalize(raw)| != VinLength ==> Decode(raw, ref, currentYear) == Failure(WrongLength)
    ensures |Normalize(raw)| == VinLength && 'I' in Normalize(raw) ==>
      Decode(raw, ref, currentYear) == Failure(ForbiddenCharacter('I'))
    ensures |Normalize(raw)| == VinLength && 'I' !in Normalize(raw) && 'O' in Normalize(raw) ==>
      Decode(raw, ref, currentYear) == Failure(ForbiddenCharacter('O'))
    ensures |Normalize(raw)| == VinLength && 'I' !in Normalize(raw) && 'O' !in Normalize(raw) && 'Q' in Normalize(raw) ==>
      Decode(raw, ref, currentYear) == Failure(ForbiddenCharacter('Q'))
    ensures |Normalize(raw)| == VinLength && 'I' !in Normalize(raw) && 'O' !in Normalize(raw) && 'Q' !in Normalize(raw) ==>
      (Decode(raw, ref, currentYear) == Failure(InvalidCharacters) <==> !AllIn(Normalize(raw), VinCharacters))
    ensures Validate(Normalize(raw)).None? ==>
      (Decode(raw, ref, currentYear) == Failure(CheckDigitFailed) <==>
       IsNorthAmerican(Normalize(raw)) && !ValidateCheckDigit(Normalize(raw)))
    ensures Decode(raw, ref, currentYear).Success? <==>
      Validate(Normalize(raw)).None? && (!IsNorthAmerican(Normalize(raw)) || ValidateCheckDigit(Normalize(raw)))
  {
    var vin := Normalize(raw);
    assert InvalidChars[0] == 'I' && InvalidChars[1] == 'O' && InvalidChars[2] == 'Q';
    var r := FirstForbidden(vin, InvalidChars);
    if r.Some? {
      var k :| 0 <= k < |InvalidChars| && InvalidChars[k] == r.value && r.value in vin &&
               forall j :: 0 <= j < k ==> InvalidChars[j] !in vin;
      assert 'I' in vin ==> k == 0;
      assert 'I' !in vin && 'O' in vin ==> k == 1;
    }
  }

  /** A success is the assembled record of the normalised input, which passed validation and,
      for a leading '1'..'5', the checksum. */
  lemma DecodeSuccess(raw: string, ref: Reference, currentYear: int)
    requires Decode(raw, ref, currentYear).Success?
    ensures |Normalize(raw)| == VinLength && AllIn(Normalize(raw), VinCharacters)
    ensures IsNorthAmerican(Normalize(raw)) ==> ValidateCheckDigit(Normalize(raw))
    ensures Decode(raw, ref, currentYear).value ==
            Assemble(Normalize(raw), ValidateCheckDigit(Normalize(raw)), ref, currentYear)
  {
    assert Validate(Normalize(raw)).None?;
    ValidateNone(Normalize(raw));
  }

  lemma ValidateNone(vin: string)
    requires Validate(vin).None?
    ensures |vin| == VinLength && AllIn(vin, VinCharacters)
  {
  }

  /** The record splits the VIN into its ISO 3779 sections and positional fields, and reports a
      model year no later than the current one. */
  lemma AssembleFields(vin: string, valid: bool, ref: Reference, currentYear: int)
    requires |vin| == VinLength
    ensures var d := Assemble(vin, valid, ref, currentYear);
      d.vin == vin && d.wmi + d.vds + d.vis == vin && |d.wmi| == 3 && |d.vds| == 6 && |d.vis| == 8 &&
      d.checkDigit == vin[8] && d.modelYearChar == vin[9] && d.plantCode == vin[10] &&
      d.serialNumber == vin[11..] && d.checkDigitValid == valid
    ensures var d := Assemble(vin, valid, ref, currentYear);
      (d.modelYear.Year? ==> d.modelYear.year <= currentYear) &&
      (d.modelYear.UnknownYear? <==> ResolveModelYear(vin[9], currentYear).None?)
  {
    assert vin[..3] + vin[3..9] + vin[9..17] == vin;
  }

  /** The literal fallbacks of the record: unknown region, unknown factory, factory without a
      country. */
  lemma AssembleFallbacks(vin: string, valid: bool, ref: Reference, currentYear: int)
    requires |vin| == VinLength
    ensures var d := Assemble(vin, valid, ref, currentYear);
      vin[..1] !in ref.wmiRegions ==>
        d.region == Some("Unknown") && d.regionCountry == Some("Unknown") && d.regionFlag == Some(UnknownFlag)
    ensures var d := Assemble(vin, valid, ref, currentYear);
      (forall f :: f in ref.factories ==> f.wmi != vin[..3]) ==>
        d.manufacturer == "Unknown Manufacturer" && d.manufacturerLogos == [] &&
        d.factoryCountry == Some("Unknown") && d.factoryRegion == Some("Unknown") && d.factoryFlag == Some(UnknownFlag) &&
        d.country == d.regionCountry && d.countryFlag == d.regionFlag && d.countryRegion == d.region
    ensures var d := Assemble(vin, valid, ref, currentYear);
      forall f :: f in ref.factories && f.wmi == vin[..3] && f == FindFactory(ref.factories, vin[..3]).value && f.country.None? ==>
        d.manufacturer == f.name &&
        d.country == d.regionCountry && d.countryFlag == d.regionFlag && d.countryRegion == d.region &&
        d.factoryCountry == f.region && d.factoryFlag == Some(FactoryFlag) &&
        d.factoryRegion == (if Truthy(f.region) then f.region else Some("Unknown Factory Region"))
    ensures var d := Assemble(vin, valid, ref, currentYear);
      forall f :: f in ref.factories && f.wmi == vin[..3] && f == FindFactory(ref.factories, vin[..3]).value ==>
        d.manufacturer == f.name && forall n :: n in d.manufacturerLogos <==> FactoryLogo(f.id, n) in ref.factoryLogos
  {
  }

  /** A string over an alphabet stays over it when a position is given a symbol of it. */
  lemma AllInUpdate(s: string, k: nat, c: char, alphabet: string)
    requires AllIn(s, alphabet) && k < |s| && c in alphabet
    ensures AllIn(s[k := c], alphabet)
  {
  }

  lemma AllInAppend(a: string, b: string, alphabet: string)
    requires AllIn(a, alphabet) && AllIn(b, alphabet)
    ensures AllIn(a + b, alphabet)
  {
    forall i | 0 <= i < |a + b| ensures (a + b)[i] in alphabet {
      if i >= |a| {
        assert (a + b)[i] == b[i - |a|];
      }
    }
  }

  /** The worked example is over the alphabet. */
  lemma ExampleAlphabet()
    ensures AllIn(ExampleVin, VinCharacters)
  {
    assert AllIn("1HGCM", VinCharacters);
    assert AllIn("82633", VinCharacters);
    AllInAppend("1HGCM", "82633", VinCharacters);
    assert AllIn("A0043", VinCharacters);
    assert AllIn("52", VinCharacters);
    AllInAppend("A0043", "52", VinCharacters);
    AllInAppend("1HGCM" + "82633", "A0043" + "52", VinCharacters);
    assert ExampleVin == ("1HGCM" + "82633") + ("A0043" + "52");
  }

  /** The worked example decodes with a valid check digit. */
  lemma DecodeExampleValid(ref: Reference, currentYear: int)
    ensures Decode(ExampleVin, ref, currentYear).Success?
    ensures Decode(ExampleVin, ref, currentYear).value.checkDigitValid
  {
    CheckDigitExample();
    ExampleAlphabet();
    WellFormedDecodes(ExampleVin, ref, currentYear);
  }

  /** An 'I' in position 9 is reported by name. */
  lemma DecodeExampleForbidden(ref: Reference, currentYear: int)
    ensures Decode(ExampleVin[9 := 'I'], ref, currentYear) == Failure(ForbiddenCharacter('I'))
  {
    var vin := ExampleVin[9 := 'I'];
    ExampleAlphabet();
    forall i | 0 <= i < |vin| ensures IsAsciiUpper(vin[i]) || IsDigit(vin[i]) {
      if i != 9 {
        VinCharacterRanges(ExampleVin[i]);
      }
    }
    NormalizeIdentity(vin);
    assert vin[9] == 'I';
    DecodeRejects(vin, ref, currentYear);
  }

  /** The example with its check digit replaced by '0' is still over the alphabet, but fails the
      checksum... */
  lemma ExampleMutated()
    ensures |ExampleVin[8 := '0']| == VinLength
    ensures AllIn(ExampleVin[8 := '0'], VinCharacters)
    ensures !ValidateCheckDigit(ExampleVin[8 := '0'])
  {
    CheckDigitExample();
    ExampleAlphabet();
    AllInUpdate(ExampleVin, 8, '0', VinCharacters);
    CheckDigitMutationInvalidates(ExampleVin, '0');
  }

  /** ...which is an error in North America ('1')... */
  lemma DecodeExampleNorthAmerican(ref: Reference, currentYear: int)
    ensures Decode(ExampleVin[8 := '0'], ref, currentYear) == Failure(CheckDigitFailed)
  {
    ExampleMutated();
    assert IsNorthAmerican(ExampleVin[8 := '0']);
    ChecksumPolicy(ExampleVin[8 := '0'], ref, currentYear);
  }

  /** Replacing a character by one with the same transliterated value, outside position 8, does
      not change whether the check digit validates. */
  lemma SameValueSubstitution(vin: string, k: nat, c: char)
    requires |vin| >= VinLength && k < VinLength && k != 8 && TransliterationOf(vin[k]) == TransliterationOf(c)
    ensures ValidateCheckDigit(vin[k := c]) <==> ValidateCheckDigit(vin)
  {
    WeightedSumIgnoresCheckPosition(vin, vin[k := c], VinLength);
  }

  /** ...and, with a leading 'J', which transliterates like '1', only a flag in Japan. */
  lemma DecodeExampleForeign(ref: Reference, currentYear: int)
    ensures Decode(ExampleVin[8 := '0'][0 := 'J'], ref, currentYear).Success?
    ensures !Decode(ExampleVin[8 := '0'][0 := 'J'], ref, currentYear).value.checkDigitValid
  {
    ExampleForeign();
    ChecksumPolicy(ExampleVin[8 := '0'][0 := 'J'], ref, currentYear);
  }

  /** The example with check digit '0' and a leading 'J': over the alphabet, outside North
      America, and still failing the checksum. */
  lemma ExampleForeign()
    ensures |ExampleVin[8 := '0'][0 := 'J']| == VinLength
    ensures AllIn(ExampleVin[8 := '0'][0 := 'J'], VinCharacters)
    ensures !IsNorthAmerican(ExampleVin[8 := '0'][0 := 'J'])
    ensures !ValidateCheckDigit(ExampleVin[8 := '0'][0 := 'J'])
  {
    ExampleMutated();
    assert ExampleVin[8 := '0'][0] == '1';
    JapaneseLead(ExampleVin[8 := '0']);
  }

  /** Moving a VIN that starts with '1' (United States) to 'J' (Japan) leaves its checksum as it
      was and takes it out of North America. */
  lemma JapaneseLead(vin: string)
    requires |vin| == VinLength && AllIn(vin, VinCharacters) && vin[0] == '1'
    ensures |vin[0 := 'J']| == VinLength && AllIn(vin[0 := 'J'], VinCharacters)
    ensures !IsNorthAmerican(vin[0 := 'J'])
    ensures ValidateCheckDigit(vin[0 := 'J']) <==> ValidateCheckDigit(vin)
  {
    SameValueSubstitution(vin, 0, 'J');
    AllInUpdate(vin, 0, 'J', VinCharacters);
  }
}
