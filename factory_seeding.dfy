/** src/wmi_factory_code_seeder.py, second half: the loop of `seed_wmi_factory_codes`. The `WMI`
    field of each entry is parsed into three-character codes, and each code is upserted into
    `wmi_factories`: a new row linked to a country or a region, or a merge of the manufacturer
    name into the row already there. */
module FactorySeeding {
  import opened Wrappers
  import opened Text
  import opened Tables
  import opened WmiAlphabet
  import opened FactoryCodes
  import RegionSeeding

  /** One object of the input JSON; a missing key reads as "". */
  datatype FactoryEntry = FactoryEntry(wmi: string, manufacturer: string)

  // ---------------------------------------------------------------------------------------
  // Parsing the WMI field
  // ---------------------------------------------------------------------------------------

  /** `wmi_raw.replace(' ', ',').replace('/', ',')` */
  function Separated(raw: string): (r: string)
    ensures |r| == |raw|
    ensures forall i :: 0 <= i < |raw| ==> r[i] == if raw[i] == ' ' || raw[i] == '/' then ',' else raw[i]
  {
    ReplaceChar(ReplaceChar(raw, ' ', ','), '/', ',')
  }

  /** `[p.strip() for p in pieces if p.strip()]` */
  function Kept(pieces: seq<string>): (parts: seq<string>)
    ensures |parts| <= |pieces|
  {
    if pieces == [] then []
    else
      var front := Kept(pieces[..|pieces| - 1]);
      var last := Strip(pieces[|pieces| - 1]);
      if last != [] then front + [last] else front
  }

  /** The parts of a `WMI` field, after the separators are unified. */
  function SeedParts(raw: string): seq<string> {
    Kept(Split(Separated(raw), ','))
  }

  /** None of the three separators. */
  predicate Unseparated(p: string) {
    ',' !in p && ' ' !in p && '/' !in p
  }

  /** Non-empty, without white space at either end: what `strip` leaves of a non-blank string. */
  predicate Unpadded(p: string) {
    p != [] && !IsSpace(p[0]) && !IsSpace(p[|p| - 1])
  }

  /** Every part is non-empty, has no white space at either end and holds no separator. */
  lemma SeedPartsShape(raw: string)
    ensures forall p :: p in SeedParts(raw) ==> Unpadded(p) && Unseparated(p)
  {
    var pieces := Split(Separated(raw), ',');
    forall q | q in pieces ensures Unseparated(q) {
      forall x | x in q ensures x != ' ' && x != '/' {
        SplitPartChars(Separated(raw), ',', q, x);
      }
    }
    KeptUnseparated(pieces);
  }

  lemma {:induction false} KeptUnseparated(pieces: seq<string>)
    requires forall q :: q in pieces ==> Unseparated(q)
    ensures forall p :: p in Kept(pieces) ==> Unpadded(p) && Unseparated(p)
  {
    if pieces != [] {
      var q := pieces[|pieces| - 1];
      assert q in pieces;
      assert forall x :: x in pieces[..|pieces| - 1] ==> x in pieces;
      KeptUnseparated(pieces[..|pieces| - 1]);
      KeptPiece(q);
    }
  }

  lemma KeptPiece(q: string)
    requires Unseparated(q)
    ensures Strip(q) != [] ==> Unpadded(Strip(q))
    ensures Unseparated(Strip(q))
  {
    StripSlice(q, ',');
    StripSlice(q, ' ');
    StripSlice(q, '/');
  }

  /** A space and a slash separate parts exactly as a comma does. */
  lemma SeparatorsAlike(raw: string, i: nat)
    requires i < |raw| && (raw[i] == ' ' || raw[i] == '/')
    ensures SeedParts(raw[i := ',']) == SeedParts(raw)
  {
    assert Separated(raw[i := ',']) == Separated(raw);
  }

  // ---------------------------------------------------------------------------------------
  // Classifying the parts
  // ---------------------------------------------------------------------------------------

  predicate UpperAlnum(c: char) {
    IsAsciiUpper(c) || IsDigit(c)
  }

  /** `re.match(r'[A-Z0-9]{3}-[A-Z0-9]{3}', part)`: anchored at the start only, so anything may
      follow the seventh character. */
  predicate RangeShaped(p: string) {
    |p| >= 7 && UpperAlnum(p[0]) && UpperAlnum(p[1]) && UpperAlnum(p[2]) && p[3] == '-' &&
    UpperAlnum(p[4]) && UpperAlnum(p[5]) && UpperAlnum(p[6])
  }

  /** The range written for a two-character block: `KL` gives `KLA-KL0`. */
  function BlockRange(prefix: string): string {
    prefix + [SeederAlphabet[0]] + "-" + prefix + [SeederAlphabet[32]]
  }

  /** A part goes through `expand_wmi_range` without a ValueError from `split('-')`: a matched
      range has one dash, and a two-character block none. */
  predicate PartOk(p: string) {
    (RangeShaped(p) ==> OneDash(p)) && (|p| == 2 ==> '-' !in p)
  }

  /** A part that is neither a code, nor a range, nor a block: an error is recorded. */
  predicate Malformed(p: string) {
    |p| != 3 && !RangeShaped(p) && |p| != 2
  }

  lemma BlockRangeDashes(prefix: string)
    requires '-' !in prefix
    ensures OneDash(BlockRange(prefix)) && '-' in BlockRange(prefix)
  {
    var a := prefix + [SeederAlphabet[0]];
    var b := prefix + [SeederAlphabet[32]];
    assert BlockRange(prefix) == a + "-" + b;
    assert '-' !in a && '-' !in b;
    DashedCount(a, b);
    assert (a + "-" + b)[|a|] == '-';
  }

  /** The codes the seeder draws from one part. */
  function PartCodes(p: string): seq<string>
    requires PartOk(p)
  {
    if |p| == 3 then [p]
    else if RangeShaped(p) then WmiExpansion(p)
    else if |p| == 2 then
      BlockRangeDashes(p);
      WmiExpansion(BlockRange(p))
    else []
  }

  predicate PartsOk(parts: seq<string>) {
    forall p :: p in parts ==> PartOk(p)
  }

  function PartsCodes(parts: seq<string>): (r: seq<seq<string>>)
    requires PartsOk(parts)
    ensures |r| == |parts|
  {
    seq(|parts|, i requires 0 <= i < |parts| => PartCodes(parts[i]))
  }

  /** `wmi_codes`: the codes of the parts, in order. */
  function EntryCodes(parts: seq<string>): seq<string>
    requires PartsOk(parts)
  {
    Concat(PartsCodes(parts))
  }

  /** The number of malformed parts. */
  function MalformedCount(parts: seq<string>): (n: nat)
    ensures n <= |parts|
  {
    if parts == [] then 0
    else MalformedCount(parts[..|parts| - 1]) + (if Malformed(parts[|parts| - 1]) then 1 else 0)
  }

  /** A two-character block `KL` gives the 33 codes `KLA`, `KLB`, ..., `KL0`, in alphabet order. */
  lemma BlockCodes(p: string)
    requires |p| == 2 && Unpadded(p) && '-' !in p
    ensures PartOk(p)
    ensures |PartCodes(p)| == |SeederAlphabet| == 33
    ensures forall k :: 0 <= k < 33 ==> PartCodes(p)[k] == p + [SeederAlphabet[k]]
  {
    BlockExpansion(p);
    BlockSpan(p);
  }

  lemma BlockExpansion(p: string)
    requires |p| == 2 && Unpadded(p) && '-' !in p
    ensures PartOk(p) && PartCodes(p) == Span(SeederAlphabet, p, 'A', '0')
  {
    BlockRangeDashes(p);
    assert PartCodes(p) == WmiExpansion(BlockRange(p));
    BlockRangeExpansion(p);
  }

  lemma BlockRangeExpansion(p: string)
    requires |p| == 2 && Unpadded(p) && '-' !in p
    ensures OneDash(BlockRange(p)) && WmiExpansion(BlockRange(p)) == Span(SeederAlphabet, p, 'A', '0')
  {
    var a := p + [SeederAlphabet[0]];
    var b := p + [SeederAlphabet[32]];
    assert BlockRange(p) == a + "-" + b;
    assert a[..2] == p && a[2] == 'A' && b[2] == '0';
    DashedExpansion(a, b);
  }

  /** `expand_wmi_range` of two unpadded three-character ends joined by one dash. */
  lemma DashedExpansion(a: string, b: string)
    requires |a| == 3 && |b| == 3 && '-' !in a && '-' !in b
    requires !IsSpace(a[0]) && !IsSpace(a[2]) && !IsSpace(b[0]) && !IsSpace(b[2])
    ensures OneDash(a + "-" + b)
    ensures WmiExpansion(a + "-" + b) == Span(SeederAlphabet, a[..2], a[2], b[2])
  {
    var s := a + "-" + b;
    DashedCount(a, b);
    StripUnpadded(a);
    StripUnpadded(b);
    assert s[0] == a[0] && s[|s| - 1] == b[2];
    StripUnpadded(s);
    SplitAround(a, '-', b);
    assert a + ['-'] + b == s;
  }

  lemma DashedCount(a: string, b: string)
    requires '-' !in a && '-' !in b
    ensures Count(a + "-" + b, '-') == 1
  {
    CountAppend(a + "-", b, '-');
    CountAppend(a, "-", '-');
    CountZero(a, '-');
    CountZero(b, '-');
  }

  lemma BlockSpan(p: string)
    ensures |Span(SeederAlphabet, p, 'A', '0')| == 33
    ensures forall k :: 0 <= k < 33 ==> Span(SeederAlphabet, p, 'A', '0')[k] == p + [SeederAlphabet[k]]
  {
    SeederAlphabetDistinct();
    SeederAlphabetOrder();
    WholeSpan(SeederAlphabet, p);
  }

  /** Every code a part gives has three characters, so the length check of the store loop never
      fires. */
  lemma PartCodesHaveThreeCharacters(p: string)
    requires PartOk(p)
    ensures forall code :: code in PartCodes(p) ==> |code| == 3
  {
    if |p| != 3 && !RangeShaped(p) && |p| == 2 {
      BlockRangeDashes(p);
      WmiCodesHaveThreeCharacters(BlockRange(p));
    } else if |p| != 3 && RangeShaped(p) {
      WmiCodesHaveThreeCharacters(p);
    }
  }

  lemma EntryCodesHaveThreeCharacters(parts: seq<string>)
    requires PartsOk(parts)
    ensures forall code :: code in EntryCodes(parts) ==> |code| == 3
  {
    forall code | code in EntryCodes(parts) ensures |code| == 3 {
      ConcatMember(PartsCodes(parts), code);
      var i :| 0 <= i < |parts| && code in PartsCodes(parts)[i];
      assert parts[i] in parts;
      PartCodesHaveThreeCharacters(parts[i]);
    }
  }

  lemma PartsCodesSnoc(parts: seq<string>, k: nat)
    requires PartsOk(parts) && k < |parts|
    ensures PartsOk(parts[..k]) && PartsOk(parts[..k + 1]) && PartOk(parts[k])
    ensures EntryCodes(parts[..k + 1]) == EntryCodes(parts[..k]) + PartCodes(parts[k])
    ensures MalformedCount(parts[..k + 1]) == MalformedCount(parts[..k]) + if Malformed(parts[k]) then 1 else 0
  {
    PartsOkSlices(parts, k);
    assert parts[..k + 1][..k] == parts[..k];
    var front := PartsCodes(parts[..k]);
    assert PartsCodes(parts[..k + 1]) == front + [PartCodes(parts[k])];
    ConcatSnoc(front, PartCodes(parts[k]));
  }

  lemma PartsOkSlices(parts: seq<string>, k: nat)
    requires PartsOk(parts) && k < |parts|
    ensures PartsOk(parts[..k]) && PartsOk(parts[..k + 1]) && PartOk(parts[k])
  {
    assert parts[k] in parts;
    assert forall p :: p in parts[..k + 1] ==> p in parts;
    assert forall p :: p in parts[..k] ==> p in parts;
  }

  /** The loop over the parts: codes are appended or extended, malformed parts counted. */
  method ClassifyParts(parts: seq<string>) returns (codes: seq<string>, malformed: nat)
    requires PartsOk(parts)
    ensures codes == EntryCodes(parts) && malformed == MalformedCount(parts)
  {
    codes, malformed := [], 0;
    for k := 0 to |parts|
      invariant PartsOk(parts[..k])
      invariant codes == EntryCodes(parts[..k]) && malformed == MalformedCount(parts[..k])
    {
      PartsCodesSnoc(parts, k);
      var part := parts[k];
      if |part| == 3 {
        codes := codes + [part];
      } else if RangeShaped(part) {
        var more := ExpandWmiRange(part);
        codes := codes + more;
      } else if |part| == 2 {
        var rangeStr := BlockRange(part);
        BlockRangeDashes(part);
        var more := ExpandWmiRange(rangeStr);
        codes := codes + more;
      } else {
        malformed := malformed + 1;
      }
    }
    assert parts[..|parts|] == parts;
  }

  // ---------------------------------------------------------------------------------------
  // Storing one code
  // ---------------------------------------------------------------------------------------

  /** The four counters of the run. */
  datatype Tally = Tally(inserted: nat, updated: nat, skipped: nat, errors: nat)

  /** The `wmi_factories` table and the counters. */
  datatype Run = Run(factories: seq<WmiFactory>, tally: Tally)

  /** The row holding `wmi`, if any (the column is unique). */
  function FindWmi(factories: seq<WmiFactory>, wmi: string): (r: Option<nat>)
    ensures r.Some? ==> r.value < |factories| && factories[r.value].wmi == wmi
    ensures r.None? <==> forall i :: 0 <= i < |factories| ==> factories[i].wmi != wmi
  {
    if factories == [] then None
    else if factories[0].wmi == wmi then Some(0)
    else match FindWmi(factories[1..], wmi)
      case None => None
      case Some(i) => Some(i + 1)
  }

  /** The largest id in use, 0 for an empty table. */
  function MaxId(factories: seq<WmiFactory>): (m: nat)
    ensures forall i :: 0 <= i < |factories| ==> factories[i].id <= m
  {
    if factories == [] then 0
    else
      var rest := MaxId(factories[1..]);
      if factories[0].id > rest then factories[0].id else rest
  }

  /** The `country_id` and `region` of a new row, from the `wmi_regions` row of its first two
      characters: a known region is linked by name, any other country by its row. */
  function Link(wmiRegions: map<string, Country>, regionCode: string): (Option<Country>, Option<string>) {
    if regionCode in wmiRegions then
      var c := wmiRegions[regionCode];
      if c.commonName.Some? && c.commonName.value in RegionSeeding.KnownRegions then (None, c.commonName)
      else (Some(c), None)
    else (None, None)
  }

  /** The merged manufacturer name. */
  function Merged(name: string, manufacturer: string): string {
    if IsSubstring(manufacturer, name) then name else name + " & " + manufacturer
  }

  /** The body of the inner loop for one code. */
  function StoreCode(r: Run, wmiRegions: map<string, Country>, code: string, manufacturer: string): Run {
    if |code| != 3 then r.(tally := r.tally.(errors := r.tally.errors + 1))
    else match FindWmi(r.factories, code)
      case Some(i) =>
        if IsSubstring(manufacturer, r.factories[i].name) then
          r.(tally := r.tally.(skipped := r.tally.skipped + 1))
        else
          var f := r.factories[i];
          Run(r.factories[i := f.(name := Merged(f.name, manufacturer))], r.tally.(updated := r.tally.updated + 1))
      case None =>
        var (country, region) := Link(wmiRegions, code[..2]);
        var row := WmiFactory(MaxId(r.factories) + 1, code, manufacturer, country, region);
        Run(r.factories + [row], r.tally.(inserted := r.tally.inserted + 1))
  }

  /** The inner loop over the codes of one entry. */
  function StoreCodes(r: Run, wmiRegions: map<string, Country>, codes: seq<string>, manufacturer: string): Run {
    if codes == [] then r
    else StoreCode(StoreCodes(r, wmiRegions, codes[..|codes| - 1], manufacturer), wmiRegions, codes[|codes| - 1], manufacturer)
  }

  /** The entry can be processed without a ValueError. */
  predicate EntryOk(e: FactoryEntry) {
    Strip(e.manufacturer) == [] || PartsOk(SeedParts(Strip(e.wmi)))
  }

  /** One entry: skipped without a manufacturer, otherwise its parts are classified and its codes
      stored. */
  function FactoryStep(r: Run, wmiRegions: map<string, Country>, e: FactoryEntry): Run
    requires EntryOk(e)
  {
    var manufacturer := Strip(e.manufacturer);
    if manufacturer == [] then r.(tally := r.tally.(skipped := r.tally.skipped + 1, errors := r.tally.errors + 1))
    else
      var parts := SeedParts(Strip(e.wmi));
      StoreEntry(r, wmiRegions, Strip(e.wmi), EntryCodes(parts), MalformedCount(parts), manufacturer)
  }

  /** An entry once its codes and its number of malformed parts are known: no code at all is one
      more error, unless the field was empty. */
  function StoreEntry(r: Run, wmiRegions: map<string, Country>, raw: string, codes: seq<string>,
                      malformed: nat, manufacturer: string): Run
  {
    var r' := r.(tally := r.tally.(errors := r.tally.errors + malformed));
    if codes == [] then
      (if raw != [] then r'.(tally := r'.tally.(errors := r'.tally.errors + 1)) else r')
    else StoreCodes(r', wmiRegions, codes, manufacturer)
  }

  predicate EntriesOk(entries: seq<FactoryEntry>) {
    forall e :: e in entries ==> EntryOk(e)
  }

  /** The whole loop, entry by entry. */
  function FactorySeed(r: Run, wmiRegions: map<string, Country>, entries: seq<FactoryEntry>): Run
    requires EntriesOk(entries)
  {
    if entries == [] then r
    else
      assert entries[|entries| - 1] in entries;
      FactoryStep(FactorySeed(r, wmiRegions, entries[..|entries| - 1]), wmiRegions, entries[|entries| - 1])
  }

  // ---------------------------------------------------------------------------------------
  // The seeder on the database
  // ---------------------------------------------------------------------------------------

  /** One code: the row is looked up by its WMI, then merged into or created. */
  method StoreWmi(db: Database, code: string, manufacturer: string, tally: Tally) returns (tally': Tally)
    modifies db
    ensures Run(db.factories, tally') == StoreCode(Run(old(db.factories), tally), db.wmiRegions, code, manufacturer)
    ensures db.countries == old(db.countries) && db.regionCodes == old(db.regionCodes)
    ensures db.wmiRegions == old(db.wmiRegions) && db.factoryLogos == old(db.factoryLogos)
  {
    tally' := tally;
    if |code| != 3 {
      tally' := tally.(errors := tally.errors + 1);
      return;
    }
    var regionCode := code[..2];
    var countryId: Option<Country> := None;
    var regionName: Option<string> := None;
    if regionCode in db.wmiRegions {
      var country := db.wmiRegions[regionCode];
      if country.commonName.Some? && country.commonName.value in RegionSeeding.KnownRegions {
        regionName := country.commonName;
      } else {
        countryId := Some(country);
      }
    }
    var existing := FindWmi(db.factories, code);
    if existing.Some? {
      var f := db.factories[existing.value];
      if !IsSubstring(manufacturer, f.name) {
        db.factories := db.factories[existing.value := f.(name := f.name + " & " + manufacturer)];
        tally' := tally.(updated := tally.updated + 1);
      } else {
        tally' := tally.(skipped := tally.skipped + 1);
      }
      return;
    }
    var row := WmiFactory(MaxId(db.factories) + 1, code, manufacturer, countryId, regionName);
    db.factories := db.factories + [row];
    tally' := tally.(inserted := tally.inserted + 1);
  }

  /** The loop over the codes of one entry. */
  method StoreWmiCodes(db: Database, codes: seq<string>, manufacturer: string, tally: Tally) returns (tally': Tally)
    modifies db
    ensures Run(db.factories, tally') == StoreCodes(Run(old(db.factories), tally), db.wmiRegions, codes, manufacturer)
    ensures db.countries == old(db.countries) && db.regionCodes == old(db.regionCodes)
    ensures db.wmiRegions == old(db.wmiRegions) && db.factoryLogos == old(db.factoryLogos)
  {
    tally' := tally;
    for j := 0 to |codes|
      invariant Run(db.factories, tally') == StoreCodes(Run(old(db.factories), tally), db.wmiRegions, codes[..j], manufacturer)
      invariant db.countries == old(db.countries) && db.regionCodes == old(db.regionCodes)
      invariant db.wmiRegions == old(db.wmiRegions) && db.factoryLogos == old(db.factoryLogos)
    {
      assert codes[..j + 1][..j] == codes[..j];
      tally' := StoreWmi(db, codes[j], manufacturer, tally');
    }
    assert codes[..|codes|] == codes;
  }

  /** The body of the outer loop for one entry. */
  method SeedFactoryEntry(db: Database, e: FactoryEntry, tally: Tally) returns (tally': Tally)
    requires EntryOk(e)
    modifies db
    ensures Run(db.factories, tally') == FactoryStep(Run(old(db.factories), tally), db.wmiRegions, e)
    ensures db.countries == old(db.countries) && db.regionCodes == old(db.regionCodes)
    ensures db.wmiRegions == old(db.wmiRegions) && db.factoryLogos == old(db.factoryLogos)
  {
    var wmiRaw := Strip(e.wmi);
    var manufacturer := Strip(e.manufacturer);
    if manufacturer == [] {
      tally' := tally.(skipped := tally.skipped + 1, errors := tally.errors + 1);
      return;
    }
    var parts := SeedParts(wmiRaw);
    var codes, malformed := ClassifyParts(parts);
    tally' := StoreCodesOf(db, wmiRaw, codes, malformed, manufacturer, tally);
  }

  /** The rest of the loop body once the codes are known. */
  method StoreCodesOf(db: Database, raw: string, codes: seq<string>, malformed: nat, manufacturer: string, tally: Tally)
    returns (tally': Tally)
    modifies db
    ensures Run(db.factories, tally') == StoreEntry(Run(old(db.factories), tally), db.wmiRegions, raw, codes, malformed, manufacturer)
    ensures db.countries == old(db.countries) && db.regionCodes == old(db.regionCodes)
    ensures db.wmiRegions == old(db.wmiRegions) && db.factoryLogos == old(db.factoryLogos)
  {
    tally' := tally.(errors := tally.errors + malformed);
    if codes == [] {
      if raw != [] {
        tally' := tally'.(errors := tally'.errors + 1);
      }
      return;
    }
    tally' := StoreWmiCodes(db, codes, manufacturer, tally');
  }

  lemma FactorySeedSnoc(r: Run, wmiRegions: map<string, Country>, entries: seq<FactoryEntry>, k: nat)
    requires EntriesOk(entries) && k < |entries|
    ensures EntriesOk(entries[..k]) && EntriesOk(entries[..k + 1]) && EntryOk(entries[k])
    ensures FactorySeed(r, wmiRegions, entries[..k + 1]) == FactoryStep(FactorySeed(r, wmiRegions, entries[..k]), wmiRegions, entries[k])
  {
    assert entries[k] in entries;
    assert forall e :: e in entries[..k + 1] ==> e in entries;
    assert forall e :: e in entries[..k] ==> e in entries;
    assert entries[..k + 1][..k] == entries[..k];
  }

  /** `seed_wmi_factory_codes` after the JSON file is loaded. */
  method SeedWmiFactoryCodes(db: Database, entries: seq<FactoryEntry>) returns (tally: Tally)
    requires EntriesOk(entries)
    modifies db
    ensures Run(db.factories, tally) == FactorySeed(Run(old(db.factories), Tally(0, 0, 0, 0)), db.wmiRegions, entries)
    ensures db.countries == old(db.countries) && db.regionCodes == old(db.regionCodes)
    ensures db.wmiRegions == old(db.wmiRegions) && db.factoryLogos == old(db.factoryLogos)
  {
    tally := Tally(0, 0, 0, 0);
    ghost var start := Run(db.factories, tally);
    assert entries[..0] == [];
    for k := 0 to |entries|
      invariant EntriesOk(entries[..k])
      invariant Run(db.factories, tally) == FactorySeed(start, db.wmiRegions, entries[..k])
      invariant db.countries == old(db.countries) && db.regionCodes == old(db.regionCodes)
      invariant db.wmiRegions == old(db.wmiRegions) && db.factoryLogos == old(db.factoryLogos)
    {
      FactorySeedSnoc(start, db.wmiRegions, entries, k);
      tally := SeedFactoryEntry(db, entries[k], tally);
    }
    assert entries[..|entries|] == entries;
  }

  // ---------------------------------------------------------------------------------------
  // What one code does to the table
  // ---------------------------------------------------------------------------------------

  /** An entry without a manufacturer is counted as skipped, logs one error and changes no row. */
  lemma EmptyManufacturerSkipped(r: Run, wmiRegions: map<string, Country>, e: FactoryEntry)
    requires Strip(e.manufacturer) == []
    ensures EntryOk(e)
    ensures FactoryStep(r, wmiRegions, e) == Run(r.factories, r.tally.(skipped := r.tally.skipped + 1, errors := r.tally.errors + 1))
  {
  }

  /** A code not yet in the table gets a new row at the end, with a fresh id and the manufacturer
      as its name. Its first two characters decide the link: a `wmi_regions` row of a known region
      sets `region` to the region's name, one of any other country sets the country, and no row
      leaves both unset. */
  lemma NewFactoryLinked(r: Run, wmiRegions: map<string, Country>, code: string, manufacturer: string)
    requires |code| == 3 && FindWmi(r.factories, code).None?
    ensures var t := StoreCode(r, wmiRegions, code, manufacturer);
      |t.factories| == |r.factories| + 1 && t.factories[..|r.factories|] == r.factories &&
      t.tally == r.tally.(inserted := r.tally.inserted + 1)
    ensures var row := StoreCode(r, wmiRegions, code, manufacturer).factories[|r.factories|];
      row.wmi == code && row.name == manufacturer &&
      (forall i :: 0 <= i < |r.factories| ==> r.factories[i].id < row.id) &&
      (code[..2] !in wmiRegions ==> row.country.None? && row.region.None?) &&
      (code[..2] in wmiRegions && wmiRegions[code[..2]].commonName.Some? &&
       wmiRegions[code[..2]].commonName.value in RegionSeeding.KnownRegions ==>
         row.country.None? && row.region == wmiRegions[code[..2]].commonName) &&
      (code[..2] in wmiRegions && !(wmiRegions[code[..2]].commonName.Some? &&
       wmiRegions[code[..2]].commonName.value in RegionSeeding.KnownRegions) ==>
         row.country == Some(wmiRegions[code[..2]]) && row.region.None?)
  {
    var t := StoreCode(r, wmiRegions, code, manufacturer);
    assert t.factories[..|r.factories|] == r.factories;
  }

  /** A code already in the table merges the manufacturer into that row's name, unless the name
      already contains it; then nothing changes but the skipped count. No other row and no other
      column changes, and the name afterwards contains the manufacturer. */
  lemma MergeName(r: Run, wmiRegions: map<string, Country>, code: string, manufacturer: string)
    requires |code| == 3 && FindWmi(r.factories, code).Some?
    ensures var i := FindWmi(r.factories, code).value;
      var t := StoreCode(r, wmiRegions, code, manufacturer);
      var name := r.factories[i].name;
      |t.factories| == |r.factories| &&
      (forall j :: 0 <= j < |r.factories| && j != i ==> t.factories[j] == r.factories[j]) &&
      t.factories[i] == r.factories[i].(name := t.factories[i].name) &&
      (IsSubstring(manufacturer, name) ==>
        t.factories == r.factories && t.tally == r.tally.(skipped := r.tally.skipped + 1)) &&
      (!IsSubstring(manufacturer, name) ==>
        t.factories[i].name == name + " & " + manufacturer && t.tally == r.tally.(updated := r.tally.updated + 1)) &&
      IsSubstring(manufacturer, t.factories[i].name)
  {
    var i := FindWmi(r.factories, code).value;
    IsSubstringSuffix(manufacturer, r.factories[i].name + " & ");
  }

  /** Rows are told apart by their WMI (the unique column) and by their id. */
  predicate Unique(factories: seq<WmiFactory>) {
    forall i, j :: 0 <= i < j < |factories| ==>
      factories[i].wmi != factories[j].wmi && factories[i].id != factories[j].id
  }

  /** A row is kept: only its name may grow, at the end. */
  predicate RowKept(a: WmiFactory, b: WmiFactory) {
    b.id == a.id && b.wmi == a.wmi && b.country == a.country && b.region == a.region && a.name <= b.name
  }

  /** The table `after` keeps every row of `before`, in place, and may have more at the end. */
  predicate Extends(before: seq<WmiFactory>, after: seq<WmiFactory>) {
    |before| <= |after| && forall i :: 0 <= i < |before| ==> RowKept(before[i], after[i])
  }

  lemma ExtendsTransitive(a: seq<WmiFactory>, b: seq<WmiFactory>, c: seq<WmiFactory>)
    requires Extends(a, b) && Extends(b, c)
    ensures Extends(a, c)
  {
    forall i | 0 <= i < |a| ensures RowKept(a[i], c[i]) {
      assert RowKept(a[i], b[i]) && RowKept(b[i], c[i]);
    }
  }

  /** Some row holds `code` under a name containing `manufacturer`. */
  predicate Named(factories: seq<WmiFactory>, code: string, manufacturer: string) {
    exists i :: 0 <= i < |factories| && factories[i].wmi == code && IsSubstring(manufacturer, factories[i].name)
  }

  lemma NamedExtends(a: seq<WmiFactory>, b: seq<WmiFactory>, code: string, manufacturer: string)
    requires Named(a, code, manufacturer) && Extends(a, b)
    ensures Named(b, code, manufacturer)
  {
    var i :| 0 <= i < |a| && a[i].wmi == code && IsSubstring(manufacturer, a[i].name);
    assert RowKept(a[i], b[i]);
    IsSubstringPrefix(manufacturer, a[i].name, b[i].name);
  }

  /** One code keeps every row, stores the code under a name containing the manufacturer, keeps
      rows unique, and counts the code once: as inserted when the table grew, otherwise as
      updated, skipped or (wrong length) an error. */
  lemma StoreCodeFacts(r: Run, wmiRegions: map<string, Country>, code: string, manufacturer: string)
    ensures var t := StoreCode(r, wmiRegions, code, manufacturer);
      Extends(r.factories, t.factories) &&
      (|code| == 3 ==> Named(t.factories, code, manufacturer)) &&
      t.tally.inserted - r.tally.inserted == |t.factories| - |r.factories| &&
      (t.tally.inserted + t.tally.updated + t.tally.skipped + t.tally.errors) -
        (r.tally.inserted + r.tally.updated + r.tally.skipped + r.tally.errors) == 1
  {
    var t := StoreCode(r, wmiRegions, code, manufacturer);
    if |code| == 3 {
      match FindWmi(r.factories, code)
      case Some(i) =>
        MergeName(r, wmiRegions, code, manufacturer);
        assert t.factories[i].wmi == code;
      case None =>
        NewFactoryLinked(r, wmiRegions, code, manufacturer);
        assert manufacturer <= t.factories[|r.factories|].name;
        assert forall i :: 0 <= i < |r.factories| ==> t.factories[i] == r.factories[i];
    }
  }

  lemma StoreCodeUnique(r: Run, wmiRegions: map<string, Country>, code: string, manufacturer: string)
    requires Unique(r.factories)
    ensures Unique(StoreCode(r, wmiRegions, code, manufacturer).factories)
  {
    var t := StoreCode(r, wmiRegions, code, manufacturer);
    if |code| == 3 {
      match FindWmi(r.factories, code)
      case Some(i) =>
        MergeName(r, wmiRegions, code, manufacturer);
        forall j, k | 0 <= j < k < |t.factories|
          ensures t.factories[j].wmi != t.factories[k].wmi && t.factories[j].id != t.factories[k].id
        {
          assert t.factories[j].wmi == r.factories[j].wmi && t.factories[j].id == r.factories[j].id;
          assert t.factories[k].wmi == r.factories[k].wmi && t.factories[k].id == r.factories[k].id;
        }
      case None =>
        NewFactoryLinked(r, wmiRegions, code, manufacturer);
        forall j, k | 0 <= j < k < |t.factories|
          ensures t.factories[j].wmi != t.factories[k].wmi && t.factories[j].id != t.factories[k].id
        {
          assert t.factories[j] == r.factories[j];
          if k < |r.factories| {
            assert t.factories[k] == r.factories[k];
          }
        }
    }
  }

  /** In a table of unique rows, a code stored under a name containing the manufacturer is
      skipped: the table does not change. */
  lemma StoreNamedUnchanged(r: Run, wmiRegions: map<string, Country>, code: string, manufacturer: string)
    requires Unique(r.factories) && Named(r.factories, code, manufacturer)
    ensures StoreCode(r, wmiRegions, code, manufacturer).factories == r.factories
  {
    var i :| 0 <= i < |r.factories| && r.factories[i].wmi == code && IsSubstring(manufacturer, r.factories[i].name);
    assert FindWmi(r.factories, code).Some?;
    var j := FindWmi(r.factories, code).value;
    assert i == j;
  }

  // ---------------------------------------------------------------------------------------
  // What a run does to the table
  // ---------------------------------------------------------------------------------------

  /** The codes of one entry: every row is kept, each code of three characters ends up under a
      name containing the manufacturer, and the inserted count is the number of new rows. */
  lemma {:induction false} StoreCodesFacts(r: Run, wmiRegions: map<string, Country>, codes: seq<string>, manufacturer: string)
    ensures var t := StoreCodes(r, wmiRegions, codes, manufacturer);
      Extends(r.factories, t.factories) &&
      (forall code :: code in codes && |code| == 3 ==> Named(t.factories, code, manufacturer)) &&
      t.tally.inserted - r.tally.inserted == |t.factories| - |r.factories| &&
      (t.tally.inserted + t.tally.updated + t.tally.skipped + t.tally.errors) -
        (r.tally.inserted + r.tally.updated + r.tally.skipped + r.tally.errors) == |codes|
    decreases |codes|
  {
    if codes != [] {
      var front := codes[..|codes| - 1];
      var last := codes[|codes| - 1];
      var mid := StoreCodes(r, wmiRegions, front, manufacturer);
      var t := StoreCodes(r, wmiRegions, codes, manufacturer);
      StoreCodesFacts(r, wmiRegions, front, manufacturer);
      StoreCodeFacts(mid, wmiRegions, last, manufacturer);
      ExtendsTransitive(r.factories, mid.factories, t.factories);
      forall code | code in codes && |code| == 3 ensures Named(t.factories, code, manufacturer) {
        if code != last {
          assert code in front by { assert codes == front + [last]; }
          NamedExtends(mid.factories, t.factories, code, manufacturer);
        }
      }
    } else {
      assert forall i :: 0 <= i < |r.factories| ==> RowKept(r.factories[i], r.factories[i]);
    }
  }

  lemma {:induction false} StoreCodesUnique(r: Run, wmiRegions: map<string, Country>, codes: seq<string>, manufacturer: string)
    requires Unique(r.factories)
    ensures Unique(StoreCodes(r, wmiRegions, codes, manufacturer).factories)
    decreases |codes|
  {
    if codes != [] {
      StoreCodesUnique(r, wmiRegions, codes[..|codes| - 1], manufacturer);
      StoreCodeUnique(StoreCodes(r, wmiRegions, codes[..|codes| - 1], manufacturer), wmiRegions, codes[|codes| - 1], manufacturer);
    }
  }

  /** Codes all stored already under the manufacturer's name change nothing. */
  lemma {:induction false} StoreCodesNamedUnchanged(r: Run, wmiRegions: map<string, Country>, codes: seq<string>, manufacturer: string)
    requires Unique(r.factories)
    requires forall code :: code in codes ==> Named(r.factories, code, manufacturer)
    ensures StoreCodes(r, wmiRegions, codes, manufacturer).factories == r.factories
    decreases |codes|
  {
    if codes != [] {
      var front := codes[..|codes| - 1];
      assert forall code :: code in front ==> code in codes;
      StoreCodesNamedUnchanged(r, wmiRegions, front, manufacturer);
      var mid := StoreCodes(r, wmiRegions, front, manufacturer);
      assert codes[|codes| - 1] in codes;
      StoreNamedUnchanged(mid, wmiRegions, codes[|codes| - 1], manufacturer);
    }
  }

  /** Every code of the entry is stored under a name containing its manufacturer. */
  predicate EntryNamed(factories: seq<WmiFactory>, e: FactoryEntry)
    requires EntryOk(e)
  {
    Strip(e.manufacturer) == [] ||
    forall code :: code in EntryCodes(SeedParts(Strip(e.wmi))) ==> Named(factories, code, Strip(e.manufacturer))
  }

  predicate AllNamed(factories: seq<WmiFactory>, entries: seq<FactoryEntry>)
    requires EntriesOk(entries)
  {
    forall e :: e in entries ==> EntryNamed(factories, e)
  }

  lemma EntryNamedExtends(a: seq<WmiFactory>, b: seq<WmiFactory>, e: FactoryEntry)
    requires EntryOk(e) && EntryNamed(a, e) && Extends(a, b)
    ensures EntryNamed(b, e)
  {
    if Strip(e.manufacturer) != [] {
      forall code | code in EntryCodes(SeedParts(Strip(e.wmi)))
        ensures Named(b, code, Strip(e.manufacturer))
      {
        NamedExtends(a, b, code, Strip(e.manufacturer));
      }
    }
  }

  /** The codes of one entry once known: every row is kept, each code ends up under a name
      containing the manufacturer, and the inserted count is the number of new rows. */
  lemma StoreEntryFacts(r: Run, wmiRegions: map<string, Country>, raw: string, codes: seq<string>,
                        malformed: nat, manufacturer: string)
    requires forall code :: code in codes ==> |code| == 3
    ensures var t := StoreEntry(r, wmiRegions, raw, codes, malformed, manufacturer);
      Extends(r.factories, t.factories) &&
      (forall code :: code in codes ==> Named(t.factories, code, manufacturer)) &&
      t.tally.inserted - r.tally.inserted == |t.factories| - |r.factories|
  {
    var r' := r.(tally := r.tally.(errors := r.tally.errors + malformed));
    StoreEntryCases(r, wmiRegions, raw, codes, malformed, manufacturer);
    if codes == [] {
      assert forall i :: 0 <= i < |r.factories| ==> RowKept(r.factories[i], r.factories[i]);
    } else {
      StoreCodesFacts(r', wmiRegions, codes, manufacturer);
    }
  }

  lemma StoreEntryCases(r: Run, wmiRegions: map<string, Country>, raw: string, codes: seq<string>,
                        malformed: nat, manufacturer: string)
    ensures var t := StoreEntry(r, wmiRegions, raw, codes, malformed, manufacturer);
      var r' := r.(tally := r.tally.(errors := r.tally.errors + malformed));
      (codes == [] ==> t.factories == r.factories && t.tally.inserted == r.tally.inserted) &&
      (codes != [] ==> t == StoreCodes(r', wmiRegions, codes, manufacturer))
  {
  }

  lemma StoreEntryUnique(r: Run, wmiRegions: map<string, Country>, raw: string, codes: seq<string>,
                         malformed: nat, manufacturer: string)
    requires Unique(r.factories)
    ensures Unique(StoreEntry(r, wmiRegions, raw, codes, malformed, manufacturer).factories)
  {
    if codes != [] {
      StoreCodesUnique(r.(tally := r.tally.(errors := r.tally.errors + malformed)), wmiRegions, codes, manufacturer);
    }
  }

  /** One entry keeps every row, stores each of its codes under a name containing its
      manufacturer, keeps rows unique and counts as inserted exactly the rows it adds. */
  lemma FactoryStepFacts(r: Run, wmiRegions: map<string, Country>, e: FactoryEntry)
    requires EntryOk(e)
    ensures var t := FactoryStep(r, wmiRegions, e);
      Extends(r.factories, t.factories) && EntryNamed(t.factories, e) &&
      t.tally.inserted - r.tally.inserted == |t.factories| - |r.factories| &&
      (Unique(r.factories) ==> Unique(t.factories))
  {
    var m := Strip(e.manufacturer);
    if m == [] {
      assert forall i :: 0 <= i < |r.factories| ==> RowKept(r.factories[i], r.factories[i]);
    } else {
      var parts := SeedParts(Strip(e.wmi));
      var codes := EntryCodes(parts);
      var t := StoreEntry(r, wmiRegions, Strip(e.wmi), codes, MalformedCount(parts), m);
      assert FactoryStep(r, wmiRegions, e) == t;
      EntryCodesHaveThreeCharacters(parts);
      StoreEntryFacts(r, wmiRegions, Strip(e.wmi), codes, MalformedCount(parts), m);
      if Unique(r.factories) {
        StoreEntryUnique(r, wmiRegions, Strip(e.wmi), codes, MalformedCount(parts), m);
      }
      assert forall code :: code in codes ==> Named(t.factories, code, m);
    }
  }

  /** An entry whose codes are all stored under its manufacturer's name changes no row. */
  lemma FactoryStepNamedUnchanged(r: Run, wmiRegions: map<string, Country>, e: FactoryEntry)
    requires EntryOk(e) && Unique(r.factories) && EntryNamed(r.factories, e)
    ensures FactoryStep(r, wmiRegions, e).factories == r.factories
  {
    var m := Strip(e.manufacturer);
    if m != [] {
      var parts := SeedParts(Strip(e.wmi));
      var codes := EntryCodes(parts);
      assert FactoryStep(r, wmiRegions, e) == StoreEntry(r, wmiRegions, Strip(e.wmi), codes, MalformedCount(parts), m);
      assert forall code :: code in codes ==> Named(r.factories, code, m);
      StoreEntryNamedUnchanged(r, wmiRegions, Strip(e.wmi), codes, MalformedCount(parts), m);
    }
  }

  lemma StoreEntryNamedUnchanged(r: Run, wmiRegions: map<string, Country>, raw: string, codes: seq<string>,
                                 malformed: nat, manufacturer: string)
    requires Unique(r.factories)
    requires forall code :: code in codes ==> Named(r.factories, code, manufacturer)
    ensures StoreEntry(r, wmiRegions, raw, codes, malformed, manufacturer).factories == r.factories
  {
    if codes != [] {
      var r' := r.(tally := r.tally.(errors := r.tally.errors + malformed));
      StoreCodesNamedUnchanged(r', wmiRegions, codes, manufacturer);
    }
  }

  /** A whole run keeps every row of the table it started from (only names grow), keeps the rows
      unique, and its inserted count is the number of rows it adds. */
  lemma {:induction false} FactorySeedFacts(r: Run, wmiRegions: map<string, Country>, entries: seq<FactoryEntry>)
    requires EntriesOk(entries)
    ensures var t := FactorySeed(r, wmiRegions, entries);
      Extends(r.factories, t.factories) &&
      t.tally.inserted - r.tally.inserted == |t.factories| - |r.factories| &&
      (Unique(r.factories) ==> Unique(t.factories))
  {
    if entries == [] {
      assert forall i :: 0 <= i < |r.factories| ==> RowKept(r.factories[i], r.factories[i]);
    } else {
      var n := |entries| - 1;
      FactorySeedSnoc(r, wmiRegions, entries, n);
      assert entries[..n + 1] == entries;
      var mid := FactorySeed(r, wmiRegions, entries[..n]);
      FactorySeedFacts(r, wmiRegions, entries[..n]);
      FactoryStepFacts(mid, wmiRegions, entries[n]);
      ExtendsTransitive(r.factories, mid.factories, FactorySeed(r, wmiRegions, entries).factories);
    }
  }

  /** After a run, every code of every entry with a manufacturer is stored under a name
      containing that manufacturer. */
  lemma {:induction false} FactorySeedNamed(r: Run, wmiRegions: map<string, Country>, entries: seq<FactoryEntry>)
    requires EntriesOk(entries)
    ensures AllNamed(FactorySeed(r, wmiRegions, entries).factories, entries)
  {
    if entries != [] {
      var n := |entries| - 1;
      FactorySeedSnoc(r, wmiRegions, entries, n);
      assert entries[..n + 1] == entries;
      var mid := FactorySeed(r, wmiRegions, entries[..n]);
      var t := FactorySeed(r, wmiRegions, entries);
      FactorySeedNamed(r, wmiRegions, entries[..n]);
      FactoryStepFacts(mid, wmiRegions, entries[n]);
      AllNamedSnoc(mid.factories, t.factories, entries);
    }
  }

  lemma AllNamedSnoc(before: seq<WmiFactory>, after: seq<WmiFactory>, entries: seq<FactoryEntry>)
    requires EntriesOk(entries) && entries != []
    requires EntriesOk(entries[..|entries| - 1]) && AllNamed(before, entries[..|entries| - 1])
    requires EntryNamed(after, entries[|entries| - 1]) && Extends(before, after)
    ensures AllNamed(after, entries)
  {
    var n := |entries| - 1;
    forall e | e in entries ensures EntryNamed(after, e) {
      if e != entries[n] {
        InPrefix(entries, e);
        EntryNamedExtends(before, after, e);
      }
    }
  }

  /** An element of a non-empty sequence other than its last is in the sequence without its last. */
  lemma InPrefix<T>(xs: seq<T>, x: T)
    requires xs != [] && x in xs && x != xs[|xs| - 1]
    ensures x in xs[..|xs| - 1]
  {
    var i :| 0 <= i < |xs| && xs[i] == x;
    assert xs[..|xs| - 1][i] == x;
  }

  /** A run over entries all of whose codes are already stored under their manufacturers' names
      changes no row. */
  lemma {:induction false} FactorySeedNamedUnchanged(r: Run, wmiRegions: map<string, Country>, entries: seq<FactoryEntry>)
    requires EntriesOk(entries) && Unique(r.factories) && AllNamed(r.factories, entries)
    ensures FactorySeed(r, wmiRegions, entries).factories == r.factories
  {
    if entries != [] {
      var n := |entries| - 1;
      FactorySeedSnoc(r, wmiRegions, entries, n);
      assert entries[..n + 1] == entries;
      assert forall e :: e in entries[..n] ==> e in entries;
      FactorySeedNamedUnchanged(r, wmiRegions, entries[..n]);
      var mid := FactorySeed(r, wmiRegions, entries[..n]);
      assert entries[n] in entries;
      FactoryStepNamedUnchanged(mid, wmiRegions, entries[n]);
    }
  }

  /** Seeding twice from the same file leaves the table as the first run left it: the second run
      finds every code under a name that already contains its manufacturer. */
  lemma SeedTwiceKeepsFactories(r: Run, wmiRegions: map<string, Country>, entries: seq<FactoryEntry>, tally: Tally)
    requires EntriesOk(entries) && Unique(r.factories)
    ensures var once := FactorySeed(r, wmiRegions, entries).factories;
      FactorySeed(Run(once, tally), wmiRegions, entries).factories == once
  {
    var once := FactorySeed(r, wmiRegions, entries).factories;
    FactorySeedFacts(r, wmiRegions, entries);
    FactorySeedNamed(r, wmiRegions, entries);
    FactorySeedNamedUnchanged(Run(once, tally), wmiRegions, entries);
  }
}
