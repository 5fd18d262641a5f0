# vinscape in Dafny

A model of the core of vinscape, a tool that decodes and generates Vehicle Identification
Numbers (VINs) and builds the reference tables it decodes against. Each source file of the core is
a Dafny module:

| module | source | what it holds |
|---|---|---|
| `Vin` | app/routes.py | the VIN alphabet, transliteration, weights and model-year table; the check digit of 49 CFR Part 565 (section 565.15) over the ISO 3779 layout; `decode_vin` and `generate_vin` |
| `WmiAlphabet` | src/wmi_region_code_seeder.py, src/wmi_factory_code_seeder.py | the seeders' 33-symbol order, with '0' after '9', and spans of it |
| `RegionCodes` | src/wmi_region_code_seeder.py | `expand_range` for two-character region codes |
| `RegionSeeding` | src/wmi_region_code_seeder.py | the region placeholders, the name mapping, `find_or_create_region` and the loop that fills `wmi_region_codes` |
| `FillMissing` | src/fill_missing_ranges.py | completion of the 33 x 33 code square with the 'XX' country |
| `FactoryCodes` | src/wmi_factory_code_seeder.py | `expand_wmi_range` and `parse_complex_wmi` |
| `FactorySeeding` | src/wmi_factory_code_seeder.py | the part classifier and the upsert, merge and linking loop of `seed_wmi_factory_codes` |
| `RegionTable` | src/scrape_wmi_regions.py | `format_range`, `normalize_country_name`, and phases 1 and 2 of `parse_wmi_region_table` |
| `RegionRanges` | src/scrape_wmi_regions.py | phase 3: consolidating the filled code map into range rules |
| `Logos` | src/import_logos.py | `normalize_name`, `get_logo_files` and `find_matches` |
| `CountrySeed` | src/seed_countries.py | `get_first_value`, `get_calling_code`, `map_region` and `seed_countries` |
| `Tables` | app/models | the rows as datatypes and the database as a class whose fields are its tables |
| `Text`, `Wrappers` | | the Python string operations used, with ASCII case mapping; Option and Result |

The pure helpers are functions. The scripts that update the database are methods on a `Database`
object, with `modifies db`. Their postcondition ties the new tables and counters to a function
of the old state, and the lemmas about those functions carry the properties. Loops the source
writes as loops are `for`/`while` loops with invariants.

Two facts about the code that shape the model:

- the VIN alphabet has 33 symbols (app/routes.py:19-22): the 26 letters without I, O and Q,
  and the ten digits;
- the decoder looks up a factory by `vin[0:3]` and a region by the single character `vin[0]`,
  and nothing else. The two-character prefix `country_code = vin[:2]` (app/routes.py:106) is
  computed but never used, and `country_entry` stays `None` (app/routes.py:116), so the model
  has no two-character lookup.

## Model

| member | source | states |
|---|---|---|
| Vin.CheckDigit | app/routes.py:42-46 | the check digit is 'X' exactly when the weighted transliteration sum is 10 modulo 11, otherwise the digit of that remainder |
| Vin.ValidateCheckDigit | app/routes.py:48-51 | reference definition of `validate_check_digit`: position 8 holds the computed check digit; Vin.SpliceValidates, Vin.CheckDigitMutationInvalidates and Vin.SameValueSubstitution state its properties |
| Vin.IsNorthAmerican | app/routes.py:53-55 | reference definition of `is_north_american`: the first character is one of 1..5; Vin.ChecksumPolicy and Vin.JapaneseLead state what decoding does with it |
| Vin.WeightedSumIgnoresCheckPosition | app/routes.py:29 | two VINs that transliterate alike outside position 8 have the same weighted sum, since the weight there is 0 |
| Vin.SpliceValidates | app/routes.py:220-224 | writing the computed check digit into position 8 gives a VIN whose check digit validates |
| Vin.CheckDigitMutationInvalidates | app/routes.py:48-51 | replacing the check digit of a valid VIN by any other character makes validation fail |
| Vin.SameValueSubstitution | app/routes.py:23-28 | replacing a character outside position 8 by one with the same transliterated value keeps validation as it was |
| Vin.CheckDigitExample | app/routes.py:42-51 | 1HGCM82633A004352 has check digit '3' and validates |
| Vin.ModelYearOrderYears | app/routes.py:30-36 | the model-year keys, in their written order, are the years 2010 onwards, each key once |
| Vin.ModelYearKeys | app/routes.py:30-36 | a character has a base year exactly when it is a key of the table; base years lie in 2010..2039 and keys are VIN characters |
| Vin.ResolveModelYear | app/routes.py:57-69 | unknown characters give None; otherwise 30 is added once when the base year is more than 30 years back, and the year is returned exactly when it is not in the future |
| Vin.ModelYearExamples | app/routes.py:57-69 | 'L' is 2020 and '3' is None in 2025, 'A' is 2010 in 2040 and 2040 in 2041, and 'U', 'Z', '0' are None |
| Vin.FirstForbidden | app/routes.py:91-93 | the reported letter is the first of I, O, Q, in that order, that occurs in the VIN, and None means none occurs |
| Vin.FindFactory | app/routes.py:117-119 | the factory found has the WMI asked for, and None means no factory has it |
| Vin.LogosOf | app/routes.py:71-81 | a file name is listed exactly when a logo row links it to the factory id |
| Vin.CheckSyntax | app/routes.py:87-96 | the three validation stages run in their order and give the first error |
| Vin.ScanForbidden | app/routes.py:91-93 | the loop over I, O, Q returns the first letter found |
| Vin.ScanAlphabet | app/routes.py:95-96 | the loop returns true exactly when every character is a VIN character |
| Vin.BuildRecord | app/routes.py:121-189 | the record filled key group by key group is the assembled record |
| Vin.DecodeVin | app/routes.py:83-195 | the method returns the decoding of the normalised input |
| Vin.Decode | app/routes.py:83-132 | reference definition of `decode_vin` as one expression: the first validation error, else the refused North American checksum, else the assembled record; Vin.DecodeRejects, Vin.DecodeSuccess and Vin.ChecksumPolicy state its cases, and Vin.DecodeVin is proved against it |
| Vin.VinCharacterRanges | app/routes.py:21 | the alphabet is the upper-case letters except I, O, Q, and the ten digits |
| Vin.NormalizeIdentity | app/routes.py:85 | upper-casing and stripping leave a string of upper-case letters and digits as it is |
| Vin.Normalize | app/routes.py:85 | reference definition of `vin.upper().strip()`; Vin.NormalizeIdentity and Vin.NormalizeAlphabet state when it changes nothing |
| Vin.NormalizeAlphabet | app/routes.py:85 | a string over the alphabet is its own normal form |
| Vin.AlphabetValidates | app/routes.py:87-96 | a 17-character string over the alphabet passes all three validation stages |
| Vin.ChecksumPolicy | app/routes.py:98-102 | for a 17-character string over the alphabet, decoding fails exactly when it starts with 1..5 and the check digit is wrong, and a success records whether it was right |
| Vin.WellFormedDecodes | app/routes.py:83-132 | a string over the alphabet whose check digit validates decodes, with check_digit_valid true |
| Vin.DecodeRejects | app/routes.py:85-102 | the errors in their precedence: wrong length, then I, O, Q in that order, then a character outside the alphabet, then the checksum only for leading 1..5; success exactly when none applies |
| Vin.DecodeSuccess | app/routes.py:85-132 | a success is the record of the normalised input, which has 17 alphabet characters and, in North America, a valid check digit |
| Vin.AssembleFields | app/routes.py:105-132 | wmi, vds and vis are vin[0:3], vin[3:9], vin[9:17] and concatenate to the VIN; check digit, year character, plant code and serial are at 8, 9, 10 and 11..16; the model year is never after the current year, and 'Unknown' exactly when the year character does not resolve |
| Vin.AssembleFallbacks | app/routes.py:134-186 | no region entry gives 'Unknown' region fields; no factory country copies the region fields; no factory gives 'Unknown Manufacturer', no logos and 'Unknown' factory fields; a factory without country reports its region or 'Unknown Factory Region' |
| Vin.ValidYears | app/routes.py:210 | a character is offered for the model year exactly when it is a key that resolves in the current year |
| Vin.ValidYearsEmpty | app/routes.py:210-211 | no character resolves before 2010 and at least one does from 2010 on |
| Vin.YearChoicesAlphabet | app/routes.py:210-211 | the model-year characters drawn from, including the fallback 'L', are VIN characters |
| Vin.GeneratedYearResolves | app/routes.py:189-211 | from 2010 on, a drawn year character resolves, so the decoded model year is not 'Unknown' |
| Vin.SplicedDraftDecodes | app/routes.py:220-226 | a draft over the alphabet with the check digit spliced in decodes with a valid check digit |
| Vin.GenerateVin | app/routes.py:197-226 | the VIN has 17 characters laid out as WMI, VDS, check digit, year character, plant and serial; its check digit validates; with a WMI over the alphabet it decodes without error and with check_digit_valid true |
| Vin.DecodeExampleValid | app/routes.py:83-132 | the worked example decodes with a valid check digit |
| Vin.DecodeExampleForbidden | app/routes.py:91-93 | an 'I' placed in the example is reported by name |
| Vin.ExampleMutated | app/routes.py:48-51 | the example with check digit '0' is over the alphabet but does not validate |
| Vin.DecodeExampleNorthAmerican | app/routes.py:99-102 | that VIN, starting with '1', is refused for its check digit |
| Vin.DecodeExampleForeign | app/routes.py:99-128 | the same VIN starting with 'J' decodes, with check_digit_valid false |
| Vin.JapaneseLead | app/routes.py:53-55 | moving a VIN from a leading '1' to 'J' takes it out of North America and keeps its checksum verdict |
| WmiAlphabet.SeederAlphabetIsPermutation | src/wmi_region_code_seeder.py:15-19 | the seeders' 33-symbol alphabet holds exactly the decoder's symbols |
| WmiAlphabet.SeederAlphabetRotated | src/wmi_factory_code_seeder.py:15-19 | the seeders' alphabet is the decoder's with '0' moved from before '1' to the end |
| WmiAlphabet.SeederAlphabetOrder | src/wmi_region_code_seeder.py:15-19 | the seeders' alphabet starts at 'A', ends at '0', and differs from the decoder's order |
| WmiAlphabet.SeederAlphabetDistinct | src/wmi_region_code_seeder.py:15-19 | no symbol of the seeders' alphabet occurs twice, so `index` is well defined |
| WmiAlphabet.VinCharactersDistinct | app/routes.py:21 | no symbol of the decoder's alphabet occurs twice |
| WmiAlphabet.VinCharacterInAlphabet | src/wmi_region_code_seeder.py:15-19 | every decoder symbol is a seeder symbol |
| WmiAlphabet.Spread | src/wmi_region_code_seeder.py:76-77 | the codes from index lo to hi are the prefix followed by each symbol in turn, hi - lo + 1 of them |
| WmiAlphabet.Span | src/wmi_region_code_seeder.py:72-79 | an end that is not in the alphabet gives no codes |
| WmiAlphabet.SpanSound | src/wmi_factory_code_seeder.py:45-50 | every code of a span is the prefix followed by a symbol whose index lies between those of the two ends |
| WmiAlphabet.SpanAt | src/wmi_factory_code_seeder.py:49-50 | the k-th code of a span is the prefix and the symbol k places after the start |
| WmiAlphabet.SpanComplete | src/wmi_factory_code_seeder.py:49-50 | every symbol between the two ends gives a code of the span |
| WmiAlphabet.WholeSpan | src/wmi_factory_code_seeder.py:133-134 | the span from the first symbol to the last covers the whole alphabet |
| WmiAlphabet.AppendSpan | src/wmi_region_code_seeder.py:72-79 | the append loop over the index range returns the span |
| RegionCodes.Row | src/wmi_region_code_seeder.py:81-84 | a single character's row has one code per alphabet symbol |
| RegionCodes.ExpandRange | src/wmi_region_code_seeder.py:50-89 | the recursive expander with its append loops returns the expansion of the range string |
| RegionCodes.Expansion | src/wmi_region_code_seeder.py:50-89 | reference definition of `expand_range`; RegionCodes.CommaListExpansion, RegionCodes.CommaFreeExpansion, RegionCodes.DashRangeExpansion and RegionCodes.ExpansionCodesHaveTwoCharacters state its properties |
| RegionCodes.ExpandStripped | src/wmi_region_code_seeder.py:62-89 | the body for a stripped part without a comma returns the part rule's codes |
| RegionCodes.ExpandPartsAppend | src/wmi_region_code_seeder.py:56-60 | the expansion of a list of parts is the concatenation of the expansions of its halves |
| RegionCodes.CommaListExpansion | src/wmi_region_code_seeder.py:56-60 | in a comma list, the codes of the k-th stripped part sit, in order, between those of the parts before and after it |
| RegionCodes.CommaFreeExpansion | src/wmi_region_code_seeder.py:52-89 | without a comma the stripped string is expanded by the part rule |
| RegionCodes.ExpansionCodesHaveTwoCharacters | src/wmi_region_code_seeder.py:50-89 | every code the expander returns has two characters |
| RegionCodes.SingleCharacterRow | src/wmi_region_code_seeder.py:81-84 | a single character expands to its 33 codes, in alphabet order from 'A' to '0' |
| RegionCodes.PlainCodeExpansion | src/wmi_region_code_seeder.py:86-89 | two characters without dash or comma expand to themselves, any other length but one to nothing |
| RegionCodes.DashPartSpan | src/wmi_region_code_seeder.py:62-77 | a dash part with two-character ends lists the start's first character followed by the symbols from the start's second to the end's second |
| RegionCodes.DashPartEmpty | src/wmi_region_code_seeder.py:67-79 | a dash part whose ends are not two characters, or not in the alphabet, gives nothing |
| RegionCodes.DashRangeExpansion | src/wmi_region_code_seeder.py:62-79 | a code is in the expansion of `XA-YB` exactly when it is X followed by a symbol from A to B in alphabet order, so Y is ignored and a reversed range is empty; bad ends give nothing |
| RegionSeeding.PlaceholderCodesDomain | src/wmi_region_code_seeder.py:22-35 | the placeholder map has an entry for exactly the seven known regions |
| RegionSeeding.PlaceholderCodesShape | src/wmi_region_code_seeder.py:24-35 | each alpha-2 placeholder has two characters and starts with '0'; each alpha-3 placeholder has three |
| RegionSeeding.PlaceholderCodesDistinct | src/wmi_region_code_seeder.py:27-35 | two regions never share an alpha-2 or an alpha-3 placeholder |
| RegionSeeding.NormalizedOnce | src/wmi_region_code_seeder.py:164 | the name mapping is applied once: Czechia and Czech Republic swap without looping, and unlisted names stay as they are |
| RegionSeeding.FindByName | app/models/country.py:31-36 | the row found is in the table and its common name equals the name up to case; None means no row matches |
| RegionSeeding.FindByNameAppend | app/models/country.py:31-36 | in a longer table the first match is the front part's match when it has one |
| RegionSeeding.RegionRecord | src/wmi_region_code_seeder.py:109-119 | the placeholder row of a region is found by the region's name and carries its alpha-2 code |
| RegionSeeding.FindOrCreate | src/wmi_region_code_seeder.py:91-134 | an existing match is returned with the table unchanged; an unknown name gives the lookup's answer; otherwise the region's placeholder row is appended and returned unless it collides on a unique code, in which case the table is kept and the lookup repeated |
| RegionSeeding.CreatedRegionIsFound | src/wmi_region_code_seeder.py:122-125 | once a region is created, looking its name up finds a row |
| RegionSeeding.FindOrCreateRegion | src/wmi_region_code_seeder.py:91-134 | the method's result and new country table are those of FindOrCreate; the other tables are unchanged |
| RegionSeeding.InsertCodesMembers | src/wmi_region_code_seeder.py:190-207 | after the inner loop the pair table is the old one plus each code with the country |
| RegionSeeding.InsertCodesCounts | src/wmi_region_code_seeder.py:190-207 | each code is counted once, as inserted or skipped, and the inserted count is the number of new pairs |
| RegionSeeding.InsertPairs | src/wmi_region_code_seeder.py:189-207 | the loop's new pair table and counters are those of InsertCodes; nothing else changes |
| RegionSeeding.InsertCodes | src/wmi_region_code_seeder.py:189-207 | reference definition of the inner loop: each code added with the country unless the pair is present, which counts as skipped; RegionSeeding.InsertCodesMembers and RegionSeeding.InsertCodesCounts state its properties |
| RegionSeeding.SeedEntry | src/wmi_region_code_seeder.py:156-207 | one turn of the entry loop leaves the tables and counters of SeedStep |
| RegionSeeding.SeedStep | src/wmi_region_code_seeder.py:156-207 | reference definition of one entry: the mapped name resolved or created, an error when nothing resolves, otherwise its range's pairs added; RegionSeeding.SeedStepGrows, RegionSeeding.StepSettles and RegionSeeding.SettledStepChangesNothing state its properties |
| RegionSeeding.SeedCodes | src/wmi_region_code_seeder.py:179-207 | the rest of a turn, once the country is known, leaves the tables and counters of SeedRange |
| RegionSeeding.SeedRegionCodes | src/wmi_region_code_seeder.py:136-210 | the whole loop leaves the tables and counters of SeedAll |
| RegionSeeding.SeedAll | src/wmi_region_code_seeder.py:136-210 | reference definition of the whole loop, entry by entry; RegionSeeding.SeedAllGrows, RegionSeeding.SeedTwiceKeepsTables and RegionSeeding.SeedTwiceCanAddPairs state its properties |
| RegionSeeding.SeedStepGrows | src/wmi_region_code_seeder.py:156-207 | one entry only appends countries and adds pairs, the inserted count grows by the number of new pairs, each new pair is a two-character code and a country of the table, and an unresolved name adds nothing |
| RegionSeeding.SeedAllGrows | src/wmi_region_code_seeder.py:156-207 | the same for a whole run |
| RegionSeeding.SettledStepChangesNothing | src/wmi_region_code_seeder.py:190-199 | an entry whose pairs and country are already present changes nothing |
| RegionSeeding.StepSettles | src/wmi_region_code_seeder.py:156-207 | once an entry is processed, processing it again changes nothing |
| RegionSeeding.SettledPersists | src/wmi_region_code_seeder.py:156-207 | a settled entry stays settled while other entries are processed, when its name is not a case-only variant of a known region |
| RegionSeeding.SettledAfterRun | src/wmi_region_code_seeder.py:156-207 | after a run every entry of its input is settled |
| RegionSeeding.SettledRunChangesNothing | src/wmi_region_code_seeder.py:156-207 | a run over settled entries changes no table and inserts nothing |
| RegionSeeding.SeedTwiceKeepsTables | src/wmi_region_code_seeder.py:190-207 | re-running the loop on its own result with the same input adds no country and no pair, when no entry names a region by a case-only variant |
| RegionSeeding.SeedUnresolved | src/wmi_region_code_seeder.py:171-176 | an entry whose name resolves to nothing changes no table |
| RegionSeeding.FirstPassDropsVariant | src/wmi_region_code_seeder.py:97-103 | on empty tables, an entry naming a region by a case-only variant is dropped and the next entry creates the region |
| RegionSeeding.SecondPassMatchesVariant | app/models/country.py:34-36 | on the second pass the variant matches the created region and its pair is added |
| RegionSeeding.SeedTwiceCanAddPairs | src/wmi_region_code_seeder.py:97-103 | with a case-only variant before its region, a second run adds a pair |
| RegionSeeding.AsiaCaseVariant | src/wmi_region_code_seeder.py:22 | "asia" before "Asia" is such an input |
| RegionSeeding.KnownRegionsDifferIgnoringCase | src/wmi_region_code_seeder.py:22 | no two of the seven known regions are spelled alike ignoring case, so a name stands for at most one of them |
| RegionSeeding.CanonicalRegion | src/wmi_region_code_seeder.py:103 | corrected known-region test: the known region whose name equals the given name ignoring ASCII case, the comparison `find_by_name` makes (app/models/country.py:34-36); RegionSeeding.CanonicalRegionCases states how it relates to the test as written |
| RegionSeeding.CanonicalRegionCases | src/wmi_region_code_seeder.py:103 | a known region is its own canonical spelling, and for a name that is no case-only variant the corrected test agrees with `in KNOWN_REGIONS` |
| RegionSeeding.FindOrCreateAnyCase | src/wmi_region_code_seeder.py:91-134 | corrected `find_or_create_region`: an existing match is returned as before; a name that is a known region up to case creates the placeholder row under the region's own spelling, and that row matches the name; any other name gives the lookup's answer |
| RegionSeeding.AnyCaseAgrees | src/wmi_region_code_seeder.py:91-134 | the correction changes nothing for a name that is no case-only variant of a known region |
| RegionSeeding.AnyCaseCreatesVariant | src/wmi_region_code_seeder.py:103-110 | on an empty table a case-only variant resolves to nothing as written, and creates its region with the correction |
| RegionSeeding.ResolutionPersistsAnyCase | src/wmi_region_code_seeder.py:91-134 | with the correction, a name that resolves without creating a row keeps its result whatever other name is resolved meanwhile, with no condition on case |
| RegionSeeding.SeedAllAnyCase | src/wmi_region_code_seeder.py:136-210 | the whole loop with the corrected test; RegionSeeding.SeedTwiceAnyCaseKeepsTables and RegionSeeding.FirstPassAnyCaseKeepsVariant state its properties |
| RegionSeeding.SeedTwiceAnyCaseKeepsTables | src/wmi_region_code_seeder.py:136-210 | with the corrected test, re-running the loop on its own result with the same input adds no country and no pair, for every input |
| RegionSeeding.FirstPassAnyCaseKeepsVariant | src/wmi_region_code_seeder.py:97-103 | with the corrected test, the input that makes a second run add pairs gives both codes to the region on the first run: the variant creates the region under its own spelling and the region's entry finds that row |
| FillMissing.RowOf | src/fill_missing_ranges.py:39-40 | the inner loop's codes are the first character followed by each symbol, in order |
| FillMissing.RowsLength | src/fill_missing_ranges.py:37-40 | the nested loops produce one code per pair of characters |
| FillMissing.RowsMembers | src/fill_missing_ranges.py:37-40 | a code is produced exactly when it is a first character followed by a symbol |
| FillMissing.RowsDistinct | src/fill_missing_ranges.py:37-40 | over distinct characters no code is produced twice |
| FillMissing.AllPossibleCodes | src/fill_missing_ranges.py:36-40 | the nested append loops return the rows of the alphabet over itself |
| FillMissing.SquareCodesSpace | src/fill_missing_ranges.py:36-46 | the square lists 33 x 33 = 1089 distinct codes, exactly the two-character strings over the alphabet |
| FillMissing.FillMissingRanges | src/fill_missing_ranges.py:21-78 | the new code table and the inserted count are those of Fill; the other tables are unchanged |
| FillMissing.Fill | src/fill_missing_ranges.py:21-78 | the table after a run and the inserted count: unchanged without the 'XX' row or without missing codes, otherwise every missing square code paired with 'XX' |
| FillMissing.AssignToUnknown | src/fill_missing_ranges.py:63-75 | the insertion loop adds each missing code with the 'XX' country and counts them |
| FillMissing.FillAddsOnlyMissing | src/fill_missing_ranges.py:28-75 | existing rows stay, each added row gives a square code that no row held to 'XX', and without an 'XX' country nothing changes |
| FillMissing.FillCompletesSquare | src/fill_missing_ranges.py:43-78 | with an 'XX' country, every square code is held afterwards |
| FillMissing.FillCount | src/fill_missing_ranges.py:46-76 | the inserted count is 1089 less the number of square codes already held |
| FillMissing.FillIdempotent | src/fill_missing_ranges.py:48-50 | a second run finds nothing missing and inserts nothing |
| FactoryCodes.ExpandWmiRange | src/wmi_factory_code_seeder.py:25-62 | the append loop returns the expansion of the range string |
| FactoryCodes.WmiExpansion | src/wmi_factory_code_seeder.py:25-62 | reference definition of `expand_wmi_range`; FactoryCodes.WmiRangeMembers, FactoryCodes.WmiBareCode and FactoryCodes.WmiCodesHaveThreeCharacters state its properties |
| FactoryCodes.SpanMembers | src/wmi_factory_code_seeder.py:45-50 | a code is in a span exactly when it is the prefix followed by a symbol between the two ends |
| FactoryCodes.SpanOrdered | src/wmi_factory_code_seeder.py:49-50 | the codes of a span come in strictly increasing alphabet order |
| FactoryCodes.WmiRangeMembers | src/wmi_factory_code_seeder.py:35-53 | for `PQA-PQB` with three-character ends in the alphabet, a code is produced exactly when it is the start's first two characters followed by a symbol from A to B, so the end's prefix is ignored and a reversed range is empty; other ends give nothing |
| FactoryCodes.WmiBareCode | src/wmi_factory_code_seeder.py:56-62 | without a dash a three-character string is returned as it is, unchecked, and anything else gives nothing |
| FactoryCodes.WmiCodesHaveThreeCharacters | src/wmi_factory_code_seeder.py:25-62 | every code returned has three characters |
| FactoryCodes.Trimmed | src/wmi_factory_code_seeder.py:74 | each part is stripped and the parts keep their order |
| FactoryCodes.ParseComplexWmi | src/wmi_factory_code_seeder.py:65-80 | the extend loop returns the expansions of the trimmed comma-split parts, concatenated in order |
| FactoryCodes.ComplexExpansion | src/wmi_factory_code_seeder.py:65-80 | reference definition of `parse_complex_wmi`: the expansions of the trimmed comma-split parts, concatenated; FactoryCodes.ComplexExpansionParts and FactoryCodes.ComplexExpansionMembers state its properties |
| FactoryCodes.ComplexExpansionParts | src/wmi_factory_code_seeder.py:74-80 | the codes of the k-th trimmed part sit, in order, between those of the parts before and after it |
| FactoryCodes.ComplexExpansionMembers | src/wmi_factory_code_seeder.py:74-80 | a code is returned exactly when some trimmed part produces it |
| FactorySeeding.Separated | src/wmi_factory_code_seeder.py:118 | same length, with every space and slash turned into a comma and every other character kept |
| FactorySeeding.Kept | src/wmi_factory_code_seeder.py:121 | the parts that are kept are never more than the pieces the field was split into |
| FactorySeeding.SeedPartsShape | src/wmi_factory_code_seeder.py:117-121 | every part is non-empty, has no white space at either end and holds no comma, space or slash |
| FactorySeeding.SeparatorsAlike | src/wmi_factory_code_seeder.py:117-121 | replacing a space or a slash by a comma gives the same parts |
| FactorySeeding.BlockCodes | src/wmi_factory_code_seeder.py:130-134 | a two-character block `KL` gives the 33 codes `KLA` to `KL0`, one per alphabet symbol, in alphabet order |
| FactorySeeding.BlockExpansion | src/wmi_factory_code_seeder.py:130-134 | the codes of a two-character block are the span of its prefix from `A` to `0` |
| FactorySeeding.BlockRangeExpansion | src/wmi_factory_code_seeder.py:133-134 | the range string built for a block holds one dash, and expands to the span from `A` to `0` |
| FactorySeeding.DashedExpansion | src/wmi_factory_code_seeder.py:35-50 | two three-character ends joined by one dash expand to the span of the start's prefix between the two third characters |
| FactorySeeding.PartCodesHaveThreeCharacters | src/wmi_factory_code_seeder.py:123-134 | every code a part gives has three characters |
| FactorySeeding.EntryCodesHaveThreeCharacters | src/wmi_factory_code_seeder.py:147-150 | every code of an entry has three characters, so the length check of the store loop never records an error |
| FactorySeeding.ClassifyParts | src/wmi_factory_code_seeder.py:115-137 | the loop returns the codes of the parts in order and the number of parts that are not a code, a range or a block |
| FactorySeeding.PartCodes | src/wmi_factory_code_seeder.py:115-137 | reference definition of the codes one part gives: itself for three characters, its expansion for a range, the 33 codes of its block for two characters; FactorySeeding.BlockCodes, FactorySeeding.DashedExpansion and FactorySeeding.PartCodesHaveThreeCharacters state its properties |
| FactorySeeding.FindWmi | src/wmi_factory_code_seeder.py:173 | a found index holds the code, and nothing is found exactly when no row holds it |
| FactorySeeding.MaxId | src/wmi_factory_code_seeder.py:188-195 | no row has an id above the result, so the next id is fresh |
| FactorySeeding.StoreWmi | src/wmi_factory_code_seeder.py:147-200 | the inner loop body on the database: the factories table and counters become the stored code's, and the other tables do not change |
| FactorySeeding.StoreWmiCodes | src/wmi_factory_code_seeder.py:147-200 | the inner loop stores the codes in order; only the factories table changes |
| FactorySeeding.SeedFactoryEntry | src/wmi_factory_code_seeder.py:105-200 | one entry on the database: the table and counters become those of the entry's step |
| FactorySeeding.FactoryStep | src/wmi_factory_code_seeder.py:105-200 | reference definition of one entry of the loop: skipped and counted as an error without a manufacturer, otherwise its parts classified and its codes stored; FactorySeeding.FactoryStepFacts and FactorySeeding.FactoryStepNamedUnchanged state its properties, and FactorySeeding.SeedFactoryEntry is proved against it |
| FactorySeeding.StoreCodesOf | src/wmi_factory_code_seeder.py:136-200 | malformed parts are counted as errors, an entry without codes is one more error unless the field was empty, otherwise the codes are stored |
| FactorySeeding.SeedWmiFactoryCodes | src/wmi_factory_code_seeder.py:99-203 | the whole loop starts from zero counters and leaves the table and counters of the run over the entries; the other tables do not change |
| FactorySeeding.FactorySeed | src/wmi_factory_code_seeder.py:99-203 | reference definition of the whole loop, entry by entry; FactorySeeding.FactorySeedFacts, FactorySeeding.FactorySeedNamed and FactorySeeding.SeedTwiceKeepsFactories state its properties, and FactorySeeding.SeedWmiFactoryCodes is proved against it |
| FactorySeeding.EmptyManufacturerSkipped | src/wmi_factory_code_seeder.py:108-112 | an entry without a manufacturer adds one skipped entry and one error and changes no row |
| FactorySeeding.NewFactoryLinked | src/wmi_factory_code_seeder.py:152-200 | a new code adds one row at the end with a fresh id, the manufacturer as its name, linked to the region when the first two characters map to a known region, to the country when they map to another country, and to nothing otherwise |
| FactorySeeding.Link | src/wmi_factory_code_seeder.py:155-170 | reference definition of the link of a new row: by region name when the `wmi_regions` entry of the first two characters is a known region, by country row otherwise, none without an entry; FactorySeeding.NewFactoryLinked states that a new row carries it |
| FactorySeeding.MergeName | src/wmi_factory_code_seeder.py:173-185 | a known code changes only its row's name: unchanged and counted skipped when it already contains the manufacturer, otherwise joined with ` & ` and counted updated; afterwards it contains the manufacturer |
| FactorySeeding.Merged | src/wmi_factory_code_seeder.py:176-178 | reference definition of the merged name: kept when it already contains the manufacturer, else joined with ` & `; FactorySeeding.MergeName states its effect on the row and the counters |
| FactorySeeding.StoreCodeFacts | src/wmi_factory_code_seeder.py:147-200 | one code keeps every row, leaves the code under a name containing the manufacturer, and adds exactly one to the four counters together, inserted counting the new rows |
| FactorySeeding.StoreCodeUnique | src/wmi_factory_code_seeder.py:172-200 | storing one code keeps WMIs and ids unique |
| FactorySeeding.StoreNamedUnchanged | src/wmi_factory_code_seeder.py:175-185 | a code already stored under a name containing the manufacturer leaves the table as it is |
| FactorySeeding.StoreCodesFacts | src/wmi_factory_code_seeder.py:147-200 | the codes of one entry keep every row, each ends up under a name containing the manufacturer, and the counters grow by the number of codes |
| FactorySeeding.StoreCodesUnique | src/wmi_factory_code_seeder.py:147-200 | storing several codes keeps WMIs and ids unique |
| FactorySeeding.StoreCodesNamedUnchanged | src/wmi_factory_code_seeder.py:147-200 | codes already stored under the manufacturer's name change nothing |
| FactorySeeding.StoreEntryFacts | src/wmi_factory_code_seeder.py:139-200 | an entry's codes keep every row and end up under names containing the manufacturer; inserted counts the new rows |
| FactorySeeding.StoreEntryUnique | src/wmi_factory_code_seeder.py:139-200 | an entry keeps WMIs and ids unique |
| FactorySeeding.FactoryStepFacts | src/wmi_factory_code_seeder.py:104-200 | one entry keeps every row, stores each of its codes under its manufacturer, keeps rows unique, and inserted counts the new rows |
| FactorySeeding.FactoryStepNamedUnchanged | src/wmi_factory_code_seeder.py:104-200 | an entry whose codes are all stored under its manufacturer changes no row |
| FactorySeeding.FactorySeedFacts | src/wmi_factory_code_seeder.py:104-200 | a whole run keeps every row of the starting table (names only grow), keeps rows unique, and inserted counts the rows it adds |
| FactorySeeding.FactorySeedNamed | src/wmi_factory_code_seeder.py:104-200 | after a run every code of every entry with a manufacturer is stored under a name containing that manufacturer |
| FactorySeeding.FactorySeedNamedUnchanged | src/wmi_factory_code_seeder.py:104-200 | a run whose codes are all stored already under their manufacturers changes no row |
| FactorySeeding.SeedTwiceKeepsFactories | src/wmi_factory_code_seeder.py:173-185 | seeding a second time from the same file leaves the factories table as the first run left it |
| RegionTable.AlphabetPlain | src/scrape_wmi_regions.py:13-20 | no column symbol is a comma, a dash or white space |
| RegionTable.AlphabetAlphanumeric | src/scrape_wmi_regions.py:13-20 | every column symbol is a letter or a digit |
| RegionTable.FormatRangeExpansion | src/scrape_wmi_regions.py:68-75 | a formatted range from one column to a later one is accepted by the region seeder and expands to exactly the row's codes of the columns between |
| RegionTable.FormatRange | src/scrape_wmi_regions.py:68-75 | `format_range`: the bare code for equal ends, else the two codes joined by a dash; RegionTable.FormatRangeExpansion, RegionTable.SingleCodeExpansion and RegionTable.DashedCodeExpansion state what the seeder makes of it |
| RegionTable.SingleCodeInRange | src/scrape_wmi_regions.py:73-74 | the range from a code to itself holds that code only |
| RegionTable.SingleCodeExpansion | src/scrape_wmi_regions.py:73-74 | a range whose ends are equal is written as the single code, which expands to that code alone |
| RegionTable.DashedCodeExpansion | src/scrape_wmi_regions.py:70-75 | a range between two different columns is written with a dash and expands to the codes of the columns between |
| RegionTable.Lookup | src/scrape_wmi_regions.py:91 | a name is found exactly when the table has an entry for it, and the result is that entry's value |
| RegionTable.OfficialNamesPlain | src/scrape_wmi_regions.py:79-85 | the replacement names have no tag, no parenthesis and no white space at either end |
| RegionTable.OfficialNamesUnlisted | src/scrape_wmi_regions.py:79-85 | no replacement name is itself a key of the table |
| RegionTable.ReplacementPlain | src/scrape_wmi_regions.py:79-91 | a replaced name is plain and is not replaced again |
| RegionTable.NormalizeUnlisted | src/scrape_wmi_regions.py:77-91 | a stripped name without a `<small>` tag and outside the table is returned unchanged |
| RegionTable.NormalizeDropsSmall | src/scrape_wmi_regions.py:89 | everything from the first `<small>` on is ignored |
| RegionTable.NormalizeTrimmed | src/scrape_wmi_regions.py:89-91 | a stripped name without a tag is replaced when listed and kept otherwise |
| RegionTable.NormalizeUae | src/scrape_wmi_regions.py:81 | `UAE` becomes `United Arab Emirates` |
| RegionTable.NormalizeIdempotent | src/scrape_wmi_regions.py:77-91 | normalizing a name twice gives what normalizing once gives |
| RegionTable.NormalizeCountryName | src/scrape_wmi_regions.py:77-91 | `normalize_country_name`: the text before `<small>`, stripped, then looked up once in the replacement table; RegionTable.NormalizeUnlisted, RegionTable.NormalizeIdempotent and RegionTable.NormalizeUae state its properties |
| RegionTable.CleanCountryShape | src/scrape_wmi_regions.py:173-175 | the country written to the map has no parenthesis and no white space at either end |
| RegionTable.CleanCountry | src/scrape_wmi_regions.py:173-175 | the country the map receives: normalised, cut at the first parenthesis and stripped; RegionTable.CleanCountryShape, RegionTable.CleanPlain and RegionTable.CleanListed state its properties |
| RegionTable.CutParenShape | src/scrape_wmi_regions.py:175 | cutting at the first parenthesis and stripping leaves no parenthesis and no outer white space |
| RegionTable.CleanPlain | src/scrape_wmi_regions.py:173-175 | a plain, stripped, unlisted name is written as it is |
| RegionTable.CleanListed | src/scrape_wmi_regions.py:173-175 | a listed spelling is written as its official name |
| RegionTable.ColumnIndex | src/scrape_wmi_regions.py:20 | the index of a column's header is the column: no header repeats |
| RegionTable.CodeAtInjective | src/scrape_wmi_regions.py:179 | two different columns of a row give different codes |
| RegionTable.PaintSets | src/scrape_wmi_regions.py:177-180 | every code of the span is mapped to the country |
| RegionTable.PaintGrows | src/scrape_wmi_regions.py:177-180 | every code already in the map stays in it |
| RegionTable.PaintOnly | src/scrape_wmi_regions.py:177-180 | a code outside the span keeps its presence and its country |
| RegionTable.PaintKeeps | src/scrape_wmi_regions.py:177-180 | the codes of the row's other columns keep their entries |
| RegionTable.PaintSpan | src/scrape_wmi_regions.py:177-180 | the inner loop paints the span when it fits in the 33 columns and raises at the first column past the last otherwise |
| RegionTable.ReadSlot | src/scrape_wmi_regions.py:143-169 | every turn advances the column by at least one |
| RegionTable.TakeSlot | src/scrape_wmi_regions.py:143-169 | steps 1 and 2 of a turn: a claimed column is read from the claim with one row used up, otherwise the next cell is read (and claimed when it spans more rows and has a text), otherwise nothing |
| RegionTable.FillStep | src/scrape_wmi_regions.py:142-183 | a turn whose span with a country passes the last column raises; any other turn hands the rest of the row to the turn at the column after its span |
| RegionTable.Turn | src/scrape_wmi_regions.py:173-180 | reference definition of step 3 of a turn: the span painted with the cleaned country, the map unchanged without a country; RegionTable.SpanFilled and RegionTable.FillKeeps state what it writes and what it leaves |
| RegionTable.FillKeeps | src/scrape_wmi_regions.py:142-183 | the rest of a row leaves alone every code that is not one of its own columns from the current one on |
| RegionTable.SpanFilled | src/scrape_wmi_regions.py:172-183 | every column in the span of a turn with a country ends the row with that cleaned country |
| RegionTable.FillPainted | src/scrape_wmi_regions.py:172-183 | a turn with a country that does not raise paints its span with the cleaned country and hands on |
| RegionTable.NotLater | src/scrape_wmi_regions.py:179 | a column before the cursor is not among the columns from the cursor on |
| RegionTable.SlotClaims | src/scrape_wmi_regions.py:148-169 | one turn keeps the claims it builds of positive width, each the claim of the rows above with one row used up or a cell of the row with a text spanning more rows |
| RegionTable.FillClaims | src/scrape_wmi_regions.py:142-183 | the claims a whole row builds stay of positive width and traced to their origin |
| RegionTable.FillRow | src/scrape_wmi_regions.py:136-183 | phase 1 as written: the while loop over the columns gives the row's fill, or the exception of a span past the last column |
| RegionTable.FillShaped | src/scrape_wmi_regions.py:177-180 | a row writes only codes made of its row letter and a column header |
| RegionTable.RowClaims | src/scrape_wmi_regions.py:119-189 | a skipped row changes nothing; after a filled row every claim kept has rows left and comes from the claim on its column one row used up or from a cell of the row; keys stay codes |
| RegionTable.ScrapeAll | src/scrape_wmi_regions.py:119-189 | after the row loop every claim has positive width and every key of the map is a code |
| RegionTable.FailureStops | src/scrape_wmi_regions.py:119-189 | an exception ends the loop: the rows after it change nothing |
| RegionTable.ScrapeRows | src/scrape_wmi_regions.py:117-189 | phases 1 and 2 as written: the loop over the rows skips header rows, empty rows and rows without a one-character letter, fills the others and keeps the claims with rows left |
| RegionTable.IsHeaderRow | src/scrape_wmi_regions.py:56-66 | reference definition of `is_header_row`: a first cell whose stripped text is empty, a no-break space or a space; RegionTable.ScrapeRows states that such rows are skipped |
| RegionRanges.RunEnd | src/scrape_wmi_regions.py:209-230 | a run ends after its first code and no later than the end of the row |
| RegionRanges.RunEndSame | src/scrape_wmi_regions.py:209-213 | every code of a run has the country of its first code |
| RegionRanges.RunEndDiffers | src/scrape_wmi_regions.py:209-213 | the code that ends a run has another country |
| RegionRanges.SegsWithin | src/scrape_wmi_regions.py:209-240 | the ranges of a row lie between its first and last code's columns and each has a country |
| RegionRanges.SegsFrom | src/scrape_wmi_regions.py:209-240 | reference definition of the ranges phase 3 closes in a row: one per run of equal countries, ending before the code that changes the country or at the last code, none for a run without a country; RegionRanges.SegsWithin, RegionRanges.SegsOrdered, RegionRanges.SegSound, RegionRanges.SegCovers and RegionRanges.SegEnds state its properties |
| RegionRanges.SegsOrdered | src/scrape_wmi_regions.py:209-240 | the ranges of a row are disjoint and in column order |
| RegionRanges.SegSound | src/scrape_wmi_regions.py:209-240 | every code of the row between a range's ends has the range's country |
| RegionRanges.SegCovers | src/scrape_wmi_regions.py:209-240 | every code of the row with a country lies in a range with that country |
| RegionRanges.SegEnds | src/scrape_wmi_regions.py:213-240 | a range starts at a code of its country and ends at the row's last code or just before a code with another country |
| RegionRanges.RulesOf | src/scrape_wmi_regions.py:216-226 | one rule per range |
| RegionRanges.RuleOfCountry | src/scrape_wmi_regions.py:226 | the rule of a range carries the range's country |
| RegionRanges.RulesOfAt | src/scrape_wmi_regions.py:216-240 | the rule at each position is that of the range at the same position |
| RegionRanges.SegsChange | src/scrape_wmi_regions.py:213-230 | a run ended by a code of another country gives a range up to the column before that code, if it has a country, and the rest starts at that code |
| RegionRanges.SegsLast | src/scrape_wmi_regions.py:232-240 | the run that reaches the row's last code gives the last range, if it has a country |
| RegionRanges.CloseRun | src/scrape_wmi_regions.py:213-230 | closing a run moves its range, if any, to those emitted |
| RegionRanges.CloseLast | src/scrape_wmi_regions.py:232-240 | closing at the row's last code completes the row's ranges |
| RegionRanges.CloseRange | src/scrape_wmi_regions.py:215-226 | the range first formatted up to the new code and then corrected ends at the column before it |
| RegionRanges.LastRange | src/scrape_wmi_regions.py:233-240 | the range closed at the row's last code ends at that code's column |
| RegionRanges.VisitCode | src/scrape_wmi_regions.py:209-240 | one code keeps the loop invariant: the emitted rules render the ranges closed so far and the current run is still to come |
| RegionRanges.TakeCountry | src/scrape_wmi_regions.py:210-229 | on a change of country the previous range is closed (emitted only when it has a country) and a new run starts at this code; otherwise the run goes on; either way the emitted rules render exactly the ranges already closed |
| RegionRanges.CloseAtLast | src/scrape_wmi_regions.py:231-238 | at the last code of a row the open run, if it has a country, is emitted with the last column as its end, which completes the ranges of the row; at any other code nothing is emitted |
| RegionRanges.ConsolidateRow | src/scrape_wmi_regions.py:206-240 | the loop over a row's codes emits exactly the rules of the row's ranges, in order |
| RegionRanges.ItemsAscending | src/scrape_wmi_regions.py:203-204 | the codes of a row come in strictly ascending columns |
| RegionRanges.ItemsSound | src/scrape_wmi_regions.py:203-210 | each is a code of the map in that row, with the map's country |
| RegionRanges.ItemsComplete | src/scrape_wmi_regions.py:203-204 | every code of the map in that row is among them |
| RegionRanges.RowSegsWithin | src/scrape_wmi_regions.py:202-240 | the ranges of a row lie within the 33 columns, in order, each with a country |
| RegionRanges.RowsFromMembers | src/scrape_wmi_regions.py:199-200 | a letter is kept exactly when it is present and in the order |
| RegionRanges.RowsFromSorted | src/scrape_wmi_regions.py:200 | the letters kept follow the order strictly, so none comes twice |
| RegionRanges.UniqueRowsSorted | src/scrape_wmi_regions.py:199-200 | the rows hold exactly the known row letters of the map, once each, in the order of the scraper's own `VIN_CHARACTERS` (:13-17), which puts '0' last |
| RegionRanges.UniqueRows | src/scrape_wmi_regions.py:199-200 | reference definition of `unique_rows`: the row letters present, in the order of the scraper's `VIN_CHARACTERS`; RegionRanges.UniqueRowsSorted and RegionRanges.ZeroRowLast state its contents and order |
| RegionRanges.ZeroRowLast | src/scrape_wmi_regions.py:13-17 | a row '0' is walked after every other row, since the scraper's `VIN_CHARACTERS` ends with '0' (the decoder's puts it before '1') |
| RegionRanges.ConsolidateRows | src/scrape_wmi_regions.py:202-240 | the loop over the rows appends each row's rules in turn |
| RegionRanges.Consolidate | src/scrape_wmi_regions.py:191-244 | phase 3 succeeds exactly when every row letter is one of the scraper's `VIN_CHARACTERS`, and then returns the rules of the rows in that order, '0' last |
| RegionRanges.AllRulesAt | src/scrape_wmi_regions.py:202-240 | the rule of each range of each row sits at that row's offset plus the range's index |
| RegionRanges.AllRulesOrigin | src/scrape_wmi_regions.py:202-240 | every rule is the rule of some range of some row |
| RegionRanges.OffsetsGrow | src/scrape_wmi_regions.py:202-240 | the rules of a row all come before those of any later row |
| RegionRanges.InRangeColumns | src/wmi_region_code_seeder.py:62-79 | with headers that do not repeat, the codes between two columns' codes are those of the columns between |
| RegionRanges.RuleExpansion | src/scrape_wmi_regions.py:68-75 | the rule of a range is a range string the region seeder accepts, and it expands to exactly the codes of the range's columns |
| RegionRanges.RowFacts | src/scrape_wmi_regions.py:199-240 | a row is a column symbol and its ranges lie within the columns, in order |
| RegionRanges.RuleAt | src/scrape_wmi_regions.py:226-240 | the rule emitted for a range has the range's country |
| RegionRanges.RuleAtDashes | src/scrape_wmi_regions.py:216-240 | the rule emitted for a range is a range string the region seeder accepts |
| RegionRanges.RulesWellFormed | src/scrape_wmi_regions.py:191-244 | every rule is a range string the region seeder accepts and has a country |
| RegionRanges.SegCountry | src/scrape_wmi_regions.py:209-240 | every code of the map in a range's columns has the range's country |
| RegionRanges.RowRuleSound | src/scrape_wmi_regions.py:209-240 | every code of the map the rule of a row's range expands to has that rule's country |
| RegionRanges.RangesSound | src/scrape_wmi_regions.py:191-244 | every code of the map a rule expands to has the rule's country: a range may take in empty columns, never a code of another country |
| RegionRanges.Rules | src/scrape_wmi_regions.py:191-244 | reference definition of the rules phase 3 emits for a map; RegionRanges.RangesSound, RegionRanges.RangesCover, RegionRanges.RangesDisjoint, RegionRanges.RulesWellFormed and RegionRanges.RulesInRowOrder state its properties |
| RegionRanges.SegOfCode | src/scrape_wmi_regions.py:209-240 | every code of a row with a country lies in one of the row's ranges, with that country |
| RegionRanges.RangesCover | src/scrape_wmi_regions.py:191-244 | every code of the map with a country is taken in by a rule with that country: no code is lost |
| RegionRanges.CodeRow | src/scrape_wmi_regions.py:199-204 | every code of the map lies in one of the rows walked, at one of the table's columns |
| RegionRanges.CoverAt | src/scrape_wmi_regions.py:202-240 | the rule emitted for a range of a row expands to every code of that row from the range's first column to its last, and carries the range's country |
| RegionRanges.HeldColumn | src/scrape_wmi_regions.py:179 | a code held by a range is the code of one of its columns |
| RegionRanges.ExpandedColumn | src/scrape_wmi_regions.py:68-75 | a code a range's rule expands to is the row letter followed by a column symbol between the range's ends |
| RegionRanges.RuleColumn | src/scrape_wmi_regions.py:216-240 | a code an emitted rule expands to is a code of that row in a column of that range |
| RegionRanges.RowOnce | src/scrape_wmi_regions.py:200 | a row letter comes once |
| RegionRanges.SegOnce | src/scrape_wmi_regions.py:209-240 | a column of a row lies in at most one of its ranges |
| RegionRanges.RangesDisjoint | src/scrape_wmi_regions.py:191-244 | no code is taken in by two rules |
| RegionRanges.RuleOfRow | src/scrape_wmi_regions.py:70-75 | the range of a rule starts with its row letter |
| RegionRanges.RuleRow | src/scrape_wmi_regions.py:202-240 | each emitted rule is a range of its own row |
| RegionRanges.RulesInRowOrder | src/scrape_wmi_regions.py:200-202 | the rules come row by row, in the order of the scraper's `VIN_CHARACTERS` ('0' last) of the row letters |
| RegionRanges.ParseWmiRegionTable | src/scrape_wmi_regions.py:93-244 | the row loop's exception is returned; otherwise the parse succeeds exactly when every row letter is one of the scraper's `VIN_CHARACTERS`, and returns the rules of the filled map, rows in that order |
| Logos.BoilerplateWords | src/import_logos.py:78 | no alternative of the boilerplate group is empty; each has at least two characters |
| Logos.AlternativeAt | src/import_logos.py:78 | a match at a position is non-empty, ends at a word boundary within the text, and spells, ignoring case, one of the alternatives from the one tried on |
| Logos.AlternativeSkip | src/import_logos.py:78 | alternatives the text does not spell, or spells without a word boundary after them, are passed over |
| Logos.AlternativeMatch | src/import_logos.py:78 | an alternative the text spells with a word boundary after it is taken, with its length |
| Logos.Separate | src/import_logos.py:84 | same length, every delimiter `/`, `,`, `&` or `-` turned into a space (in the class `[/\,&-]` the backslash escapes the comma), every other character kept |
| Logos.Keep | src/import_logos.py:87 | only lower-case letters, digits and white space remain |
| Logos.WordEnd | src/import_logos.py:90 | the run from a position ends at the end of the text or at white space, and holds no white space |
| Logos.Words | src/import_logos.py:90 | every word is non-empty, holds no white space, and is made of characters of the text |
| Logos.JoinNormal | src/import_logos.py:90 | words of letters and digits joined by single spaces make a normalised name |
| Logos.NormalizeName | src/import_logos.py:69-91 | the result is lower-case letters and digits in words separated by single spaces, with no space at either end |
| Logos.ScrubCopies | src/import_logos.py:78 | where the pattern does not match, step 1 copies the character |
| Logos.ScrubClean | src/import_logos.py:78 | step 1 leaves a text in which its pattern finds nothing unchanged |
| Logos.Scrub | src/import_logos.py:78 | reference definition of step 1, `re.sub` with the boilerplate alternatives under `\b` and IGNORECASE, scanning left to right; Logos.ScrubCopies, Logos.ScrubClean, Logos.CobraKept and Logos.JointVentureHyphen state its properties |
| Logos.NormalAfterSpace | src/import_logos.py:90 | what follows a space of a normalised name is normalised |
| Logos.WordsOfNormal | src/import_logos.py:90 | splitting a normalised name and joining it with single spaces gives it back |
| Logos.NormalFixed | src/import_logos.py:69-91 | a normalised name without boilerplate normalises to itself |
| Logos.KeepAll | src/import_logos.py:87 | step 3 keeps a text of kept characters whole |
| Logos.NormalizeIdempotent | src/import_logos.py:69-91 | normalising twice is normalising once whenever the first result holds no boilerplate word |
| Logos.NormalizeNotIdempotent | src/import_logos.py:69-91 | without that condition it fails: `c'o` normalises to `co`, and `co` to the empty name |
| Logos.CobraKept | src/import_logos.py:78 | boilerplate goes only as a whole word: `Cobra` normalises to `cobra` |
| Logos.JointVentureHyphen | src/import_logos.py:78-84 | `joint-venture` normalises to `joint venture`, while `joint venture` is removed whole |
| Logos.HarleyDavidson | src/import_logos.py:82-84 | `Harley-Davidson` and `harley davidson` both normalise to `harley davidson` |
| Logos.DelimiterAsSpace | src/import_logos.py:82-90 | a delimiter and a space are alike to the normaliser when the boilerplate pattern finds nothing in either text |
| Logos.BrandName | src/import_logos.py:102 | the brand name is shorter than a non-empty file name and holds no underscore |
| Logos.BrandNameOfStem | src/import_logos.py:102 | the brand name of a stem followed by an extension is the stem with underscores as spaces |
| Logos.AliasesOf | src/import_logos.py:106 | a name outside the alias table has no aliases |
| Logos.AliasesNormal | src/import_logos.py:26-31 | every alias is a non-empty normalised name |
| Logos.LogoOf | src/import_logos.py:101-115 | the entry keeps the file name and extension, and its search terms are its normalised name followed by that name's aliases |
| Logos.LogoTerms | src/import_logos.py:101-107 | a logo's brand name is the stem with underscores as spaces, its normalised name is that name normalised, and every search term is a normalised name |
| Logos.FilesForSound | src/import_logos.py:100-115 | every entry for an extension comes from a listed file ending with it |
| Logos.FilesForComplete | src/import_logos.py:100-115 | every listed file ending with the extension gets its entry |
| Logos.FilesForAllSound | src/import_logos.py:99-115 | every entry comes from a listed file with one of the extensions it ends with |
| Logos.FilesForAllComplete | src/import_logos.py:99-115 | every listed file ending with one of the extensions gets its entry for it |
| Logos.LogoFilesSound | src/import_logos.py:93-116 | every entry comes from a listed file with a supported extension it ends with; none is made when the directory is missing |
| Logos.LogoFilesComplete | src/import_logos.py:99-116 | every listed file with a supported extension it ends with gets its entry |
| Logos.GetLogoFiles | src/import_logos.py:93-116 | the loops over the extensions and the listing return the logo entries of the directory, none when it is missing |
| Logos.AllFactories | src/import_logos.py:118-129 | one entry per row, with the row's id and name and a normalised name |
| Logos.FoundPadded | src/import_logos.py:161-164 | on normalised text, the word-boundary search finds a term exactly when the term padded with spaces occurs in the name padded with spaces |
| Logos.OccursPadded | src/import_logos.py:161-164 | a term found at a word boundary of a normalised name occurs, padded with spaces, in the name padded with spaces |
| Logos.PaddedOccurs | src/import_logos.py:161-164 | conversely, an occurrence of the padded term in the padded name is a match at a word boundary |
| Logos.MatchesPadded | src/import_logos.py:144-176 | a logo matches a factory exactly when the factory's normalised name is not empty and some non-empty search term, padded with spaces, occurs in it padded with spaces |
| Logos.TermsMatch | src/import_logos.py:152-176 | the loop over the search terms reports a match exactly when some non-empty term is found in the name |
| Logos.TotalFrame | src/import_logos.py:183-185 | the lists of other ids leave the count alone |
| Logos.TotalReplace | src/import_logos.py:183-185 | replacing one id's list changes the count by the difference in length |
| Logos.MatchedBySnoc | src/import_logos.py:144-178 | one more factory adds a match exactly when it has the id and matches the logo |
| Logos.FindMatches | src/import_logos.py:131-187 | every id maps to a non-empty list without repetitions, the count is the total length of the lists, and a logo is in an id's list exactly when it is one of the logos and matches a factory with that id |
| Logos.MatchedBy | src/import_logos.py:146-176 | reference definition of a match: some factory with the id whose normalised name matches one of the logo's terms; Logos.FindMatches states that a logo is listed for an id exactly when it holds |
| Logos.StepDone | src/import_logos.py:144-185 | trying a logo against one more factory records the pair exactly when they match |
| Logos.AddKey | src/import_logos.py:180-185 | a new id with a one-logo list keeps the mapping well formed, counts one more match and records just that pair |
| Logos.AddToList | src/import_logos.py:183-185 | appending a logo not yet in an id's list keeps the mapping well formed, counts one more match and records just that pair |
| Logos.KeysMatched | src/import_logos.py:178-181 | an id is a key only when some logo matched a factory with that id |
| CountrySeed.Lookup | src/seed_countries.py:93-108 | a found member has the key, and nothing is found exactly when no member has it |
| CountrySeed.Get | src/seed_countries.py:106-121 | `get` succeeds exactly on an object; any other value raises |
| CountrySeed.First | src/seed_countries.py:122 | indexing the first item succeeds exactly on a non-empty list or string |
| CountrySeed.Column | src/seed_countries.py:112-124 | a nullable text column stores None for null and the text for a string, and nothing else is accepted |
| CountrySeed.FirstValue | src/seed_countries.py:22-26 | a value exactly for a non-empty object, and it is the first key |
| CountrySeed.CallingCode | src/seed_countries.py:28-31 | a value that is not an object, or an empty object, gives None |
| CountrySeed.CallingCodeJoined | src/seed_countries.py:33-37 | a root and a first suffix are joined |
| CountrySeed.CallingCodeRootOnly | src/seed_countries.py:33-38 | a root without suffixes is the code by itself |
| CountrySeed.CallingCodeNoRoot | src/seed_countries.py:33-38 | a missing or empty root gives None |
| CountrySeed.MapRegion | src/seed_countries.py:40-51 | `Americas` is North America exactly when the subregion is Northern America, Central America or the Caribbean and South America otherwise; `Antarctic` becomes Antarctica; every other region is kept |
| CountrySeed.Cca2 | src/seed_countries.py:93-98 | reading the code raises on anything but an object, and a code it returns is non-empty |
| CountrySeed.CountryOf | src/seed_countries.py:105-124 | the row built for an entry carries the code it was inserted under, and building it can only fail with a Python exception |
| CountrySeed.Isos | src/seed_countries.py:89 | the set holds exactly the codes of the rows |
| CountrySeed.ProcessFailsOn | src/seed_countries.py:91-157 | an exception partway through the loop ends the loop with it |
| CountrySeed.SeedFailsOn | src/seed_countries.py:91-157 | an exception in the loop ends the seeding before the commit and leaves the table as it was |
| CountrySeed.ProcessCounts | src/seed_countries.py:92-128 | every entry is counted once, as inserted or skipped, and each insertion adds one row |
| CountrySeed.Step | src/seed_countries.py:92-128 | reference definition of one turn of the loop: skipped without a code or with a code present before the loop, otherwise the row built for it added, or the exception it raises |
| CountrySeed.Process | src/seed_countries.py:92-128 | reference definition of the loop over the entries, against the codes read before it; CountrySeed.ProcessCounts, CountrySeed.ProcessRowsSound, CountrySeed.ProcessRowsComplete and CountrySeed.ProcessFailsOn state its properties |
| CountrySeed.ProcessReadAll | src/seed_countries.py:92-98 | a loop that finishes has read a code from every entry without an exception |
| CountrySeed.ProcessRowsSound | src/seed_countries.py:95-125 | every row comes from an entry whose code was not in the table when the loop started, and is the row built for that entry |
| CountrySeed.ProcessRowsComplete | src/seed_countries.py:95-125 | every entry whose code was not in the table becomes a row |
| CountrySeed.RowsWith | src/seed_countries.py:101 | at most one per row, and none exactly when no row has the code |
| CountrySeed.RowsWithAppend | src/seed_countries.py:101 | the rows with a code in two tables add up |
| CountrySeed.TableOkRowsWith | app/models/country.py:10 | a table the commit accepts holds each code at most once |
| CountrySeed.CodeEntries | src/seed_countries.py:92-93 | never more than the entries |
| CountrySeed.ProcessRowsWith | src/seed_countries.py:89-101 | the codes present are read once before the loop, so a code new to the table gets a row for every entry that carries it |
| CountrySeed.DuplicateNewCodeRejected | src/seed_countries.py:89-157 | a code new to the table carried by two entries makes the commit fail, and the rollback leaves the table as it was |
| CountrySeed.CommitRejects | src/seed_countries.py:146 | two session rows with one code make the commit fail |
| CountrySeed.FinishRejects | app/models/country.py:10 | two added rows with one code violate the unique code constraint |
| CountrySeed.SeedAppends | src/seed_countries.py:125-153 | a successful seeding appends to the table, reports the number of rows it appended, and leaves a table the constraints accept |
| CountrySeed.CommitAppends | src/seed_countries.py:130-146 | a successful commit appends the loop's rows, plus the catch-all row last and one more in the count exactly when 'XX' is missing, and leaves 'XX' in the table |
| CountrySeed.Commit | src/seed_countries.py:130-146 | the catch-all 'XX' row added exactly when it is missing, then the commit, which the table's unique constraints accept or refuse as a whole; CountrySeed.CommitRejects and CountrySeed.SeedHasUnknown state its properties |
| CountrySeed.Seed | src/seed_countries.py:81-157 | `seed_countries` on values: the loop, then the commit; CountrySeed.SeedAppends, CountrySeed.SeedTwice and CountrySeed.SeedFailsOn state its properties |
| CountrySeed.SeedCommits | src/seed_countries.py:81-146 | a successful seeding is the commit of what the loop collected |
| CountrySeed.SeedHasUnknown | src/seed_countries.py:130-144 | after a successful seeding the table has the `XX` row; the catch-all row is appended last and counted exactly when `XX` was missing, and otherwise only the loop's rows and count are committed |
| CountrySeed.ProcessAllKnown | src/seed_countries.py:101-103 | entries whose codes are all in the table are all skipped |
| CountrySeed.SeedTwice | src/seed_countries.py:81-153 | seeding a second time from the same data adds nothing and reports 0 |
| CountrySeed.ProcessNext | src/seed_countries.py:92-128 | the loop's state after one more entry is one turn applied to the state before it |
| CountrySeed.ProcessCrashes | src/seed_countries.py:93-94 | an entry whose `cca2` cannot be read ends the loop, and so the whole loop, with an exception |
| CountrySeed.ProcessSkips | src/seed_countries.py:95-104 | an entry without a code, or with a code read before the loop, adds one to the skipped count and nothing else |
| CountrySeed.ProcessAdds | src/seed_countries.py:106-128 | an entry with a new code whose row can be built appends that row and adds one to the inserted count |
| CountrySeed.ProcessRowFails | src/seed_countries.py:106-124 | an entry with a new code whose row cannot be built ends the whole loop with an exception |
| CountrySeed.ProcessEntries | src/seed_countries.py:92-128 | the loop over the entries, with its counters, returns exactly the rows and counts of the reference fold, or its exception |
| CountrySeed.OutcomeOfFailure | src/seed_countries.py:155-157 | an exception in the loop is re-raised after the rollback and leaves the table as it was |
| CountrySeed.OutcomeOfPending | src/seed_countries.py:130-153 | after the loop, the table with the loop's rows and, when 'XX' is missing, the catch-all row, with the count, if the commit accepts them; otherwise the table as it was and the refusal |
| CountrySeed.SeedCountries | src/seed_countries.py:81-157 | the loop on the database leaves the table and result of the seeding: rows appended and the count on a commit, the table unchanged and the error on an exception or a refused commit; the other tables do not change |

## Left out

- Vin.Normalize: upper-cases ASCII letters only, through `Text.Upper`. Python's `str.upper()` is Unicode-aware and differs on three kinds of input. 'ſ' (U+017F) becomes 'S', so Python can decode a VIN the model reports as `InvalidCharacters`. 'ı' becomes 'I', so Python reports a forbidden character where the model reports an invalid one. 'ß' becomes "SS", which changes the length and so the error.
- Text.Upper, Text.Lower: ASCII case mapping only. This covers every string the VIN engine accepts, and the names matched by `find_by_name` and `normalize_name`, only as far as they are ASCII.
- Logos.NormalizeName: `\w`, `\b` and `re.IGNORECASE` are taken over ASCII, `\w` as `[A-Za-z0-9_]`.
- Logos.DelimiterAsSpace: holds only for texts in which the boilerplate pattern finds nothing. "joint-venture" normalises to "joint venture", but "joint venture" to the empty name (`Logos.JointVentureHyphen`).
- Logos.NormalizeIdempotent: holds only when the first result holds no boilerplate word (`Logos.NormalizeNotIdempotent` shows why).
- Logos.GetLogoFiles: the directory listing is a parameter. Its order stands for the order `glob` yields entries in, and every listed name is taken to be a file.
- Logos.AllFactories: the query on `wmi_factories` is replaced by its rows.
- The rest of src/import_logos.py is left out: the SVG converters, thumbnails (PIL and float aspect ratios), directory removal and the insertion of `factory_logos` rows.
- Vin.GenerateVin: the wall clock and `random` are parameters, the current year and the sampled characters. The same holds for `currentYear` in `Vin.DecodeVin`.
- Vin.GenerateVin: requires the sampled factory's WMI to have three characters. `generate_vin` does not check this; the `wmi` column is `String(3)` (app/models/wmi_factory.py) and every code the factory seeder stores has three characters (`FactorySeeding.EntryCodesHaveThreeCharacters`). A shorter code would shift every later position, and the model does not follow that case.
- HTTP routes, page rendering, `serve_logo`, the `api_*` handlers and their raw SQL are left out, as are app/__init__.py, main.py and inspect_db.py.
- Sessions, commits and prints are left out. A seeding method's result is the state of the tables after the commit.
- RegionSeeding.FindOrCreate: on an IntegrityError, the rollback also discards earlier uncommitted code inserts of the session. The model does not capture this. A collision gives None, with the tables unchanged.
- RegionCodes.ExpandRange: the ValueError from unpacking `split('-')` on a part with more than one dash is a precondition (`RegionCodes.DashesOk`), not an error result.
- FactoryCodes.ExpandWmiRange: the same ValueError is a precondition (`FactoryCodes.OneDash`). For the seeder loop it appears as `FactorySeeding.PartOk` and `FactorySeeding.EntryOk`.
- RegionTable.FillRow: requires every `colspan` to be at least 1 (`RegionTable.CellsOk`). With a `colspan` of 0, the column loop at src/scrape_wmi_regions.py:142-183 does not advance and never ends. `colspan` and `rowspan` are integers, so the ValueError of `int()` on a non-numeric attribute is not modelled.
- RegionRanges.ParseWmiRegionTable: the rows of the second `wikitable` are the input. Fetching the page, the HTML cache, BeautifulSoup, the early return when the page has fewer than two tables, `save_json` and `display_statistics` are left out.
- JSON numbers in `CountrySeed.Json` are integers; floats are not modelled.
- CountrySeed.CountryOf: a value other than null or a string in a text column counts as an error. SQLite would store a number or a boolean there.
- CountrySeed.CallingCode: a non-string root or suffix counts as an error. Python would format it into the f-string.
- CountrySeed.Cca2: a truthy `cca2` that is a number or `true` counts as an error. The loop would test it against the set of codes, insert it, and SQLite would store it in the text column. The model's codes are strings only. A list or an object fails there as in the source, which raises `TypeError` when it tests an unhashable value against the set.
- The string length limits of the columns of app/models/country.py are not checked by `CountrySeed.TableOk`; SQLite does not enforce them either.
- FactorySeeding.SeedWmiFactoryCodes and RegionSeeding.SeedRegionCodes: the error messages are counted, not kept as text. Loading the JSON file, and the early return when it is missing, are I/O and are left out. A field missing from an entry reads as the empty string.
- `download_countries`, src/scrape_wmi_factories.py and src/import_regions.py are not part of this model: they download, scrape or import data.

## Findings

| source | as written | input that shows it | evidently intended | confidence | as-written member | corrected member |
|---|---|---|---|---|---|---|
| src/wmi_region_code_seeder.py:97-103 with app/models/country.py:34-36 | `find_by_name` compares names ignoring case, but the known-region test `location_name in KNOWN_REGIONS` is case-sensitive. A region named in another case is dropped when its row does not exist yet, and matched once it does. A second seeding run can therefore add pairs the first run left out. | the entries `{"range": "AA", "country": "asia"}` then `{"range": "AB", "country": "Asia"}` on an empty database: the first run drops "asia", creates Asia and gives it AB; the second run also gives AA to Asia | seeding twice from the same file gives the tables of one run | not executed | RegionSeeding.SeedTwiceCanAddPairs (witness RegionSeeding.AsiaCaseVariant) | RegionSeeding.SeedTwiceAnyCaseKeepsTables, over RegionSeeding.SeedAllAnyCase, whose known-region test RegionSeeding.CanonicalRegion ignores case (on that input RegionSeeding.FirstPassAnyCaseKeepsVariant) |
