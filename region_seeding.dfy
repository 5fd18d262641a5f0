/** src/wmi_region_code_seeder.py, second half: the region placeholders, the name mapping,
    `find_or_create_region` and the loop of `seed_wmi_region_codes` that fills the
    `wmi_region_codes` table with (code, country) pairs. A country is named by its `iso2`. */
module RegionSeeding {
  import opened Wrappers
  import opened Text
  import opened Tables
  import opened RegionCodes

  /** One object of the input JSON; a missing key reads as "". */
  datatype Entry = Entry(range: string, country: string)

  const KnownRegions: seq<string> :=
    ["Africa", "Asia", "Europe", "North America", "South America", "Oceania", "Antarctica"]

  /** `REGION_CODE_MAP.get(name)`: the placeholder alpha-2 and alpha-3 codes of a region. */
  function PlaceholderCodes(name: string): Option<(string, string)> {
    match name
    case "Africa" => Some(("0A", "0AF"))
    case "Asia" => Some(("0S", "0AS"))
    case "Europe" => Some(("0E", "0EU"))
    case "North America" => Some(("0N", "0NA"))
    case "South America" => Some(("0U", "0SA"))
    case "Oceania" => Some(("0C", "0OC"))
    case "Antarctica" => Some(("0T", "0AN"))
    case _ => None
  }

  /** `NAME_MAPPING.get(name, name)`: looked up once, never iterated. */
  function Normalized(name: string): string {
    match name
    case "Turkey" => "T\U{FC}rkiye"
    case "Czech Republic" => "Czechia"
    case "Czechia" => "Czech Republic"
    case "SA" => "South America"
    case _ => name
  }

  /** The map has an entry for exactly the known regions. */
  lemma PlaceholderCodesDomain(name: string)
    ensures PlaceholderCodes(name).Some? <==> name in KnownRegions
  {
  }

  /** Alpha-2 placeholders have two characters and start with '0'; alpha-3 ones have three. */
  lemma PlaceholderCodesShape(m: nat)
    requires m < |KnownRegions|
    ensures PlaceholderCodes(KnownRegions[m]).Some?
    ensures var (a2, a3) := PlaceholderCodes(KnownRegions[m]).value;
      |a2| == 2 && a2[0] == '0' && |a3| == 3
  {
  }

  /** Two different regions never share a placeholder code of either kind. */
  lemma PlaceholderCodesDistinct(m: nat, n: nat)
    requires m < n < |KnownRegions|
    ensures PlaceholderCodes(KnownRegions[m]).Some? && PlaceholderCodes(KnownRegions[n]).Some?
    ensures PlaceholderCodes(KnownRegions[m]).value.0 != PlaceholderCodes(KnownRegions[n]).value.0
    ensures PlaceholderCodes(KnownRegions[m]).value.1 != PlaceholderCodes(KnownRegions[n]).value.1
  {
  }

  /** The mapping is applied once: the two names of the Czech Republic swap, they do not loop
      back, and a name without an entry is kept. */
  lemma NormalizedOnce(name: string)
    ensures Normalized("Czechia") == "Czech Republic" && Normalized("Czech Republic") == "Czechia"
    ensures Normalized(Normalized("Czechia")) == "Czechia"
    ensures name != "Turkey" && name != "Czech Republic" && name != "Czechia" && name != "SA" ==>
      Normalized(name) == name
  {
  }

  // ---------------------------------------------------------------------------------------
  // find_or_create_region
  // ---------------------------------------------------------------------------------------

  /** SQLite's `lower(common_name) == lower(name)`; a NULL common name matches nothing. */
  predicate NameMatches(c: Country, name: string) {
    c.commonName.Some? && Lower(c.commonName.value) == Lower(name)
  }

  /** `Country.find_by_name`: the first row, in table order, whose common name matches. */
  function FindByName(countries: seq<Country>, name: string): (r: Option<Country>)
    ensures r.Some? ==> r.value in countries && NameMatches(r.value, name)
    ensures r.None? <==> forall c :: c in countries ==> !NameMatches(c, name)
  {
    if countries == [] then None
    else if NameMatches(countries[0], name) then Some(countries[0])
    else FindByName(countries[1..], name)
  }

  /** The first match of a longer table is the first match of its front part, if there is one. */
  lemma {:induction false} FindByNameAppend(xs: seq<Country>, ys: seq<Country>, name: string)
    ensures FindByName(xs + ys, name) ==
      if FindByName(xs, name).Some? then FindByName(xs, name) else FindByName(ys, name)
  {
    if xs == [] {
      assert xs + ys == ys;
    } else {
      assert (xs + ys)[0] == xs[0] && (xs + ys)[1..] == xs[1..] + ys;
      FindByNameAppend(xs[1..], ys, name);
    }
  }

  /** The placeholder row of a region. */
  function RegionRecord(name: string, a2: string, a3: string): (c: Country)
    ensures NameMatches(c, name) && c.iso2 == a2
  {
    Country(a2, Some(a3), Some("000"), Some(name), Some(name), Some(name), Some(name),
            None, None, None, Some("\U{1F310}"))
  }

  /** The new row would break the uniqueness of `iso_alpha2` or of `iso_alpha3`. */
  predicate Collides(countries: seq<Country>, rec: Country) {
    exists c :: c in countries && (c.iso2 == rec.iso2 || c.iso3 == rec.iso3)
  }

  /** What `find_or_create_region` returns, and the `countries` table after it. */
  datatype Resolution = Resolution(country: Option<Country>, countries: seq<Country>)

  function FindOrCreate(countries: seq<Country>, name: string): (r: Resolution)
    ensures FindByName(countries, name).Some? ==> r == Resolution(FindByName(countries, name), countries)
    ensures name !in KnownRegions ==> r == Resolution(FindByName(countries, name), countries)
    ensures r.country.Some? ==> NameMatches(r.country.value, name) && r.country.value in r.countries
    ensures r.countries == countries ||
      (FindByName(countries, name).None? && name in KnownRegions && r.country.Some? &&
       r.country.value == RegionRecord(name, PlaceholderCodes(name).value.0, PlaceholderCodes(name).value.1) &&
       !Collides(countries, r.country.value) && r.countries == countries + [r.country.value])
    ensures r.country.None? ==> r.countries == countries
  {
    var found := FindByName(countries, name);
    if found.Some? then Resolution(found, countries)
    else if name in KnownRegions then
      PlaceholderCodesDomain(name);
      var (a2, a3) := PlaceholderCodes(name).value;
      var rec := RegionRecord(name, a2, a3);
      if Collides(countries, rec) then
        // The commit fails on a unique column; after the rollback the lookup is repeated.
        Resolution(FindByName(countries, name), countries)
      else
        Resolution(Some(rec), countries + [rec])
    else Resolution(None, countries)
  }

  /** A created region is found by its own name from then on. */
  lemma CreatedRegionIsFound(countries: seq<Country>, name: string)
    requires FindOrCreate(countries, name).countries != countries
    ensures var r := FindOrCreate(countries, name);
      FindByName(r.countries, name) == r.country && FindOrCreate(r.countries, name) == r
  {
    var r := FindOrCreate(countries, name);
    FindByNameAppend(countries, [r.country.value], name);
    assert [r.country.value][1..] == [];
  }

  /** `find_or_create_region` on the database. */
  method FindOrCreateRegion(db: Database, name: string) returns (country: Option<Country>)
    modifies db
    ensures Resolution(country, db.countries) == FindOrCreate(old(db.countries), name)
    ensures db.regionCodes == old(db.regionCodes) && db.wmiRegions == old(db.wmiRegions)
    ensures db.factories == old(db.factories) && db.factoryLogos == old(db.factoryLogos)
  {
    country := FindByName(db.countries, name);
    if country.Some? {
      return;
    }
    if name in KnownRegions {
      PlaceholderCodesDomain(name);
      var (a2, a3) := PlaceholderCodes(name).value;
      var rec := RegionRecord(name, a2, a3);
      if Collides(db.countries, rec) {
        country := FindByName(db.countries, name);
      } else {
        db.countries := db.countries + [rec];
        country := Some(rec);
      }
    }
  }

  // ---------------------------------------------------------------------------------------
  // The insertion loop
  // ---------------------------------------------------------------------------------------

  /** The inner loop: each code is added with the country unless the pair is present (then it
      is counted as skipped). Returns the table and the inserted and skipped counts. */
  function InsertCodes(table: set<Pair>, codes: seq<string>, iso2: string): (set<Pair>, nat, nat)
    decreases |codes|
  {
    if codes == [] then (table, 0, 0)
    else
      var last := codes[|codes| - 1];
      var (t, ins, skip) := InsertCodes(table, codes[..|codes| - 1], iso2);
      if (last, iso2) in t then (t, ins, skip + 1) else (t + {(last, iso2)}, ins + 1, skip)
  }

  /** The table gains exactly the pairs of the codes with the country. */
  lemma {:induction false} InsertCodesMembers(table: set<Pair>, codes: seq<string>, iso2: string)
    ensures forall p :: p in InsertCodes(table, codes, iso2).0 <==> p in table || (p.1 == iso2 && p.0 in codes)
    decreases |codes|
  {
    if codes != [] {
      var front := codes[..|codes| - 1];
      InsertCodesMembers(table, front, iso2);
      assert codes == front + [codes[|codes| - 1]];
    }
  }

  /** Every code is counted once, as inserted or as skipped, and the inserted count is the
      number of new pairs. */
  lemma {:induction false} InsertCodesCounts(table: set<Pair>, codes: seq<string>, iso2: string)
    ensures var (t, ins, skip) := InsertCodes(table, codes, iso2);
      table <= t && ins + skip == |codes| && ins == |t| - |table|
    decreases |codes|
  {
    if codes != [] {
      InsertCodesCounts(table, codes[..|codes| - 1], iso2);
    }
  }

  /** The loop state: the two tables and the three counters. */
  datatype Seeding = Seeding(countries: seq<Country>, pairs: set<Pair>, inserted: nat, skipped: nat, errors: nat)

  /** One entry of the input: its name is resolved, then its range is added. */
  function SeedStep(s: Seeding, e: Entry): Seeding
    requires DashesOk(e.range)
  {
    var r := FindOrCreate(s.countries, Normalized(e.country));
    if r.country.None? then s.(countries := r.countries, errors := s.errors + 1)
    else SeedRange(s.(countries := r.countries), Expansion(e.range), r.country.value.iso2)
  }

  /** The pairs of the codes of one range with a resolved country; no code is an error. */
  function SeedRange(s: Seeding, codes: seq<string>, iso2: string): Seeding {
    if codes == [] then s.(errors := s.errors + 1)
    else
      var added := InsertCodes(s.pairs, codes, iso2);
      Seeding(s.countries, added.0, s.inserted + added.1, s.skipped + added.2, s.errors)
  }

  predicate RangesOk(entries: seq<Entry>) {
    forall e :: e in entries ==> DashesOk(e.range)
  }

  /** The whole loop, entry by entry. */
  function SeedAll(s: Seeding, entries: seq<Entry>): Seeding
    requires RangesOk(entries)
  {
    if entries == [] then s
    else
      assert entries[|entries| - 1] in entries;
      SeedStep(SeedAll(s, entries[..|entries| - 1]), entries[|entries| - 1])
  }

  /** Expands one range and adds its pairs. */
  method InsertPairs(db: Database, codes: seq<string>, iso2: string) returns (inserted: nat, skipped: nat)
    modifies db
    ensures (db.regionCodes, inserted, skipped) == InsertCodes(old(db.regionCodes), codes, iso2)
    ensures db.countries == old(db.countries) && db.wmiRegions == old(db.wmiRegions)
    ensures db.factories == old(db.factories) && db.factoryLogos == old(db.factoryLogos)
  {
    inserted, skipped := 0, 0;
    for j := 0 to |codes|
      invariant (db.regionCodes, inserted, skipped) == InsertCodes(old(db.regionCodes), codes[..j], iso2)
      invariant db.countries == old(db.countries) && db.wmiRegions == old(db.wmiRegions)
      invariant db.factories == old(db.factories) && db.factoryLogos == old(db.factoryLogos)
    {
      assert codes[..j + 1][..j] == codes[..j] && codes[..j + 1][j] == codes[j];
      var pair := (codes[j], iso2);
      if pair in db.regionCodes {
        skipped := skipped + 1;
      } else {
        db.regionCodes := db.regionCodes + {pair};
        inserted := inserted + 1;
      }
    }
    assert codes[..|codes|] == codes;
  }

  /** The body of the loop of `seed_wmi_region_codes` for one entry. */
  method SeedEntry(db: Database, e: Entry, inserted: nat, skipped: nat, errors: nat)
    returns (inserted': nat, skipped': nat, errors': nat)
    requires DashesOk(e.range)
    modifies db
    ensures Seeding(db.countries, db.regionCodes, inserted', skipped', errors') ==
      SeedStep(Seeding(old(db.countries), old(db.regionCodes), inserted, skipped, errors), e)
    ensures db.wmiRegions == old(db.wmiRegions)
    ensures db.factories == old(db.factories) && db.factoryLogos == old(db.factoryLogos)
  {
    inserted', skipped', errors' := inserted, skipped, errors;
    var country := FindOrCreateRegion(db, Normalized(e.country));
    if country.None? {
      errors' := errors + 1;
      return;
    }
    var codes := ExpandRange(e.range);
    inserted', skipped', errors' := SeedCodes(db, codes, country.value.iso2, inserted, skipped, errors);
  }

  /** The rest of the loop body once the country and the codes are known. */
  method SeedCodes(db: Database, codes: seq<string>, iso2: string, inserted: nat, skipped: nat, errors: nat)
    returns (inserted': nat, skipped': nat, errors': nat)
    modifies db
    ensures Seeding(db.countries, db.regionCodes, inserted', skipped', errors') ==
      SeedRange(Seeding(old(db.countries), old(db.regionCodes), inserted, skipped, errors), codes, iso2)
    ensures db.wmiRegions == old(db.wmiRegions)
    ensures db.factories == old(db.factories) && db.factoryLogos == old(db.factoryLogos)
  {
    inserted', skipped', errors' := inserted, skipped, errors;
    if codes == [] {
      errors' := errors + 1;
      return;
    }
    var ins, skip := InsertPairs(db, codes, iso2);
    inserted', skipped' := inserted + ins, skipped + skip;
  }

  lemma SeedAllSnoc(s: Seeding, entries: seq<Entry>, k: nat)
    requires RangesOk(entries) && k < |entries|
    ensures RangesOk(entries[..k]) && RangesOk(entries[..k + 1]) && DashesOk(entries[k].range)
    ensures SeedAll(s, entries[..k + 1]) == SeedStep(SeedAll(s, entries[..k]), entries[k])
  {
    assert entries[k] in entries;
    assert forall e :: e in entries[..k + 1] ==> e in entries;
    assert forall e :: e in entries[..k] ==> e in entries;
    assert entries[..k + 1][..k] == entries[..k];
  }

  /** `seed_wmi_region_codes` after the JSON file is loaded. */
  method SeedRegionCodes(db: Database, entries: seq<Entry>) returns (inserted: nat, skipped: nat, errors: nat)
    requires RangesOk(entries)
    modifies db
    ensures Seeding(db.countries, db.regionCodes, inserted, skipped, errors) ==
      SeedAll(Seeding(old(db.countries), old(db.regionCodes), 0, 0, 0), entries)
    ensures db.wmiRegions == old(db.wmiRegions)
    ensures db.factories == old(db.factories) && db.factoryLogos == old(db.factoryLogos)
  {
    inserted, skipped, errors := 0, 0, 0;
    ghost var start := Seeding(db.countries, db.regionCodes, 0, 0, 0);
    assert entries[..0] == [];
    for k := 0 to |entries|
      invariant RangesOk(entries[..k])
      invariant Seeding(db.countries, db.regionCodes, inserted, skipped, errors) == SeedAll(start, entries[..k])
      invariant db.wmiRegions == old(db.wmiRegions)
      invariant db.factories == old(db.factories) && db.factoryLogos == old(db.factoryLogos)
    {
      SeedAllSnoc(start, entries, k);
      inserted, skipped, errors := SeedEntry(db, entries[k], inserted, skipped, errors);
    }
    assert entries[..|entries|] == entries;
  }

  // ---------------------------------------------------------------------------------------
  // What a run does to the tables
  // ---------------------------------------------------------------------------------------

  /** One entry only appends to the country table and only adds pairs; the inserted count grows
      by the number of new pairs, and every new pair names a country of the table by a
      two-character code. An entry whose name resolves to nothing adds no pair. */
  lemma SeedStepGrows(s: Seeding, e: Entry)
    requires DashesOk(e.range)
    ensures var t := SeedStep(s, e);
      s.countries <= t.countries && s.pairs <= t.pairs &&
      t.inserted - s.inserted == |t.pairs| - |s.pairs| &&
      (forall p :: p in t.pairs && p !in s.pairs ==>
        |p.0| == 2 && exists c :: c in t.countries && c.iso2 == p.1) &&
      (FindOrCreate(s.countries, Normalized(e.country)).country.None? ==> t.pairs == s.pairs)
  {
    var r := FindOrCreate(s.countries, Normalized(e.country));
    if r.country.Some? && Expansion(e.range) != [] {
      var codes := Expansion(e.range);
      InsertCodesMembers(s.pairs, codes, r.country.value.iso2);
      InsertCodesCounts(s.pairs, codes, r.country.value.iso2);
      ExpansionCodesHaveTwoCharacters(e.range);
      assert r.country.value in SeedStep(s, e).countries;
    }
  }

  /** A whole run, from a state with zero counters: the tables only grow, `inserted` is the number
      of pairs added, and each added pair has a two-character code and names a country. */
  lemma {:induction false} SeedAllGrows(s: Seeding, entries: seq<Entry>)
    requires RangesOk(entries)
    ensures var t := SeedAll(s, entries);
      s.countries <= t.countries && s.pairs <= t.pairs &&
      t.inserted - s.inserted == |t.pairs| - |s.pairs| &&
      (forall p :: p in t.pairs && p !in s.pairs ==>
        |p.0| == 2 && exists c :: c in t.countries && c.iso2 == p.1)
  {
    if entries != [] {
      var front := entries[..|entries| - 1];
      assert entries[|entries| - 1] in entries;
      assert RangesOk(front) by {
        forall e | e in front ensures DashesOk(e.range) {
          assert e in entries;
        }
      }
      SeedAllGrows(s, front);
      var m := SeedAll(s, front);
      SeedStepGrows(m, entries[|entries| - 1]);
      var t := SeedAll(s, entries);
      forall p | p in t.pairs && p !in s.pairs
        ensures |p.0| == 2 && exists c :: c in t.countries && c.iso2 == p.1
      {
        if p in m.pairs {
          var c :| c in m.countries && c.iso2 == p.1;
          assert c in t.countries;
        }
      }
    }
  }

  // ---------------------------------------------------------------------------------------
  // Running the loop twice
  // ---------------------------------------------------------------------------------------

  /** The name equals a known region's name up to ASCII case only if it is that name. */
  predicate NoCaseVariant(name: string) {
    forall k :: k in KnownRegions && Lower(k) == Lower(name) ==> k == name
  }

  predicate NoCaseVariants(entries: seq<Entry>) {
    forall e :: e in entries ==> NoCaseVariant(Normalized(e.country))
  }

  /** Processing the entry once more would change neither table. */
  predicate Settled(countries: seq<Country>, pairs: set<Pair>, e: Entry)
    requires DashesOk(e.range)
  {
    var r := FindOrCreate(countries, Normalized(e.country));
    r.countries == countries &&
    (r.country.Some? ==> forall code :: code in Expansion(e.range) ==> (code, r.country.value.iso2) in pairs)
  }

  /** An entry settled in the tables leaves them and the inserted count as they are. */
  lemma SettledStepChangesNothing(s: Seeding, e: Entry)
    requires DashesOk(e.range) && Settled(s.countries, s.pairs, e)
    ensures var t := SeedStep(s, e);
      t.countries == s.countries && t.pairs == s.pairs && t.inserted == s.inserted
  {
    var r := FindOrCreate(s.countries, Normalized(e.country));
    if r.country.Some? && Expansion(e.range) != [] {
      InsertCodesMembers(s.pairs, Expansion(e.range), r.country.value.iso2);
      InsertCodesCounts(s.pairs, Expansion(e.range), r.country.value.iso2);
    }
  }

  /** Once an entry is processed, it is settled. */
  lemma StepSettles(s: Seeding, e: Entry)
    requires DashesOk(e.range)
    ensures Settled(SeedStep(s, e).countries, SeedStep(s, e).pairs, e)
  {
    var n := Normalized(e.country);
    var r := FindOrCreate(s.countries, n);
    if r.countries != s.countries {
      CreatedRegionIsFound(s.countries, n);
    }
    if r.country.Some? && Expansion(e.range) != [] {
      InsertCodesMembers(s.pairs, Expansion(e.range), r.country.value.iso2);
    }
  }

  /** A name that resolves without creating a row resolves to the same result after another
      name was resolved, unless it is a case-only variant of a region created meanwhile. */
  lemma ResolutionPersists(countries: seq<Country>, name: string, other: string)
    requires NoCaseVariant(name) && FindOrCreate(countries, name).countries == countries
    ensures var grown := FindOrCreate(countries, other).countries;
      FindOrCreate(grown, name) == Resolution(FindOrCreate(countries, name).country, grown)
  {
    var grown := FindOrCreate(countries, other).countries;
    if grown != countries {
      var rec := FindOrCreate(countries, other).country.value;
      FindByNameAppend(countries, [rec], name);
      assert [rec][1..] == [];
      if FindByName(countries, name).None? {
        UnmatchedPlaceholder(countries, name, other);
        if name in KnownRegions {
          CollisionPersists(countries, name, rec);
        }
      }
    }
  }

  /** The region another name creates does not match a name that resolved without creating. */
  lemma UnmatchedPlaceholder(countries: seq<Country>, name: string, other: string)
    requires NoCaseVariant(name) && FindOrCreate(countries, name).countries == countries
    requires FindByName(countries, name).None?
    requires FindOrCreate(countries, other).countries != countries
    ensures !NameMatches(FindOrCreate(countries, other).country.value, name)
  {
  }

  /** A region whose row collided still collides once the table has grown. */
  lemma CollisionPersists(countries: seq<Country>, name: string, rec: Country)
    requires name in KnownRegions && FindByName(countries, name).None?
    requires FindOrCreate(countries, name).countries == countries
    ensures PlaceholderCodes(name).Some?
    ensures Collides(countries + [rec], RegionRecord(name, PlaceholderCodes(name).value.0, PlaceholderCodes(name).value.1))
  {
    PlaceholderCodesDomain(name);
    var placeholder := RegionRecord(name, PlaceholderCodes(name).value.0, PlaceholderCodes(name).value.1);
    assert Collides(countries, placeholder);
    var c :| c in countries && (c.iso2 == placeholder.iso2 || c.iso3 == placeholder.iso3);
    assert c in countries + [rec];
  }

  /** A settled entry stays settled while other entries are processed, unless its name is a
      case-only variant of a region that one of them creates. */
  lemma SettledPersists(s: Seeding, e: Entry, other: Entry)
    requires DashesOk(e.range) && DashesOk(other.range)
    requires NoCaseVariant(Normalized(e.country)) && Settled(s.countries, s.pairs, e)
    ensures Settled(SeedStep(s, other).countries, SeedStep(s, other).pairs, e)
  {
    SeedStepGrows(s, other);
    assert SeedStep(s, other).countries == FindOrCreate(s.countries, Normalized(other.country)).countries;
    ResolutionPersists(s.countries, Normalized(e.country), Normalized(other.country));
  }

  lemma EntriesPrefix(entries: seq<Entry>, k: nat)
    requires RangesOk(entries) && NoCaseVariants(entries) && k <= |entries|
    ensures RangesOk(entries[..k]) && NoCaseVariants(entries[..k])
  {
    assert forall e :: e in entries[..k] ==> e in entries;
  }

  /** After a run, every entry of its input is settled. */
  lemma {:induction false} SettledAfterRun(s: Seeding, entries: seq<Entry>, k: nat)
    requires RangesOk(entries) && NoCaseVariants(entries) && k < |entries|
    ensures DashesOk(entries[k].range)
    ensures Settled(SeedAll(s, entries).countries, SeedAll(s, entries).pairs, entries[k])
  {
    var n := |entries| - 1;
    var front := entries[..n];
    assert entries[k] in entries && entries[n] in entries;
    EntriesPrefix(entries, n);
    if k == n {
      StepSettles(SeedAll(s, front), entries[k]);
    } else {
      assert front[k] == entries[k];
      SettledAfterRun(s, front, k);
      SettledPersists(SeedAll(s, front), entries[k], entries[n]);
    }
  }

  /** Entries that are all settled leave the tables and the inserted count unchanged. */
  lemma {:induction false} SettledRunChangesNothing(s: Seeding, entries: seq<Entry>)
    requires RangesOk(entries)
    requires forall e :: e in entries ==> DashesOk(e.range) && Settled(s.countries, s.pairs, e)
    ensures var t := SeedAll(s, entries);
      t.countries == s.countries && t.pairs == s.pairs && t.inserted == s.inserted
  {
    if entries != [] {
      var n := |entries| - 1;
      var front := entries[..n];
      assert entries[n] in entries;
      assert forall e :: e in front ==> e in entries;
      SettledRunChangesNothing(s, front);
      var m := SeedAll(s, front);
      SettledStepChangesNothing(m, entries[n]);
    }
  }

  /** Running the loop a second time on its own result with the same input adds no pair and no
      country, provided no entry names a region by a case-only variant of its name. */
  lemma SeedTwiceKeepsTables(s: Seeding, entries: seq<Entry>)
    requires RangesOk(entries) && NoCaseVariants(entries)
    ensures var d := SeedAll(s, entries);
      var r := SeedAll(Seeding(d.countries, d.pairs, 0, 0, 0), entries);
      r.countries == d.countries && r.pairs == d.pairs && r.inserted == 0
  {
    var d := SeedAll(s, entries);
    var again := Seeding(d.countries, d.pairs, 0, 0, 0);
    forall e | e in entries
      ensures DashesOk(e.range) && Settled(again.countries, again.pairs, e)
    {
      var k :| 0 <= k < |entries| && entries[k] == e;
      SettledAfterRun(s, entries, k);
    }
    SettledRunChangesNothing(again, entries);
  }

  // ---------------------------------------------------------------------------------------
  // The known-region test as `find_by_name` compares names
  // ---------------------------------------------------------------------------------------

  /** The first of `regions` whose name equals `name` ignoring ASCII case. */
  function SameNameIgnoringCase(regions: seq<string>, name: string): (r: Option<string>)
    ensures r.Some? ==> r.value in regions && Lower(r.value) == Lower(name)
    ensures r.None? <==> forall k :: k in regions ==> Lower(k) != Lower(name)
  {
    if regions == [] then None
    else if Lower(regions[0]) == Lower(name) then Some(regions[0])
    else SameNameIgnoringCase(regions[1..], name)
  }

  /** The corrected known-region test: the spelling of `KNOWN_REGIONS` (and of `REGION_CODE_MAP`)
      of a name that is a known region up to ASCII case. */
  function CanonicalRegion(name: string): Option<string> {
    SameNameIgnoringCase(KnownRegions, name)
  }

  /** No two known regions are spelled alike ignoring case. */
  lemma KnownRegionsDifferIgnoringCase(k1: string, k2: string)
    requires k1 in KnownRegions && k2 in KnownRegions && Lower(k1) == Lower(k2)
    ensures k1 == k2
  {
    assert Lower(k1)[0] == Lower(k2)[0] && Lower(k1)[1] == Lower(k2)[1];
  }

  /** A known region is its own canonical spelling; a name that is no case-only variant of a
      known region has a canonical spelling exactly when it is one. */
  lemma CanonicalRegionCases(name: string)
    ensures name in KnownRegions ==> CanonicalRegion(name) == Some(name)
    ensures NoCaseVariant(name) ==> (CanonicalRegion(name).Some? <==> name in KnownRegions)
  {
    if CanonicalRegion(name).Some? {
      if name in KnownRegions {
        KnownRegionsDifferIgnoringCase(CanonicalRegion(name).value, name);
      }
    } else {
      assert name !in KnownRegions;
    }
  }

  /** `find_or_create_region` with the corrected test: a name that matches no row but is a known
      region up to case creates the placeholder row under the region's own spelling. */
  function FindOrCreateAnyCase(countries: seq<Country>, name: string): (r: Resolution)
    ensures FindByName(countries, name).Some? ==> r == Resolution(FindByName(countries, name), countries)
    ensures CanonicalRegion(name).None? ==> r == Resolution(FindByName(countries, name), countries)
    ensures r.country.Some? ==> NameMatches(r.country.value, name) && r.country.value in r.countries
    ensures r.countries == countries ||
      (FindByName(countries, name).None? && CanonicalRegion(name).Some? && r.country.Some? &&
       PlaceholderCodes(CanonicalRegion(name).value).Some? &&
       r.country.value == RegionRecord(CanonicalRegion(name).value,
         PlaceholderCodes(CanonicalRegion(name).value).value.0, PlaceholderCodes(CanonicalRegion(name).value).value.1) &&
       !Collides(countries, r.country.value) && r.countries == countries + [r.country.value])
    ensures r.country.None? ==> r.countries == countries
  {
    var found := FindByName(countries, name);
    if found.Some? then Resolution(found, countries)
    else match CanonicalRegion(name)
      case None => Resolution(None, countries)
      case Some(region) =>
        PlaceholderCodesDomain(region);
        var (a2, a3) := PlaceholderCodes(region).value;
        var rec := RegionRecord(region, a2, a3);
        if Collides(countries, rec) then Resolution(FindByName(countries, name), countries)
        else Resolution(Some(rec), countries + [rec])
  }

  /** The correction changes nothing for a name that is no case-only variant of a known region. */
  lemma AnyCaseAgrees(countries: seq<Country>, name: string)
    requires NoCaseVariant(name)
    ensures FindOrCreateAnyCase(countries, name) == FindOrCreate(countries, name)
  {
    CanonicalRegionCases(name);
  }

  /** ...and on a case-only variant that matches no row it creates the region, where the code as
      written resolves nothing. */
  lemma AnyCaseCreatesVariant(name: string)
    requires CanonicalRegion(name).Some? && name !in KnownRegions
    ensures FindOrCreate([], name) == Resolution(None, [])
    ensures FindOrCreateAnyCase([], name).country.Some? && |FindOrCreateAnyCase([], name).countries| == 1
  {
  }

  /** A created region is found by the name that created it from then on. */
  lemma CreatedRegionIsFoundAnyCase(countries: seq<Country>, name: string)
    requires FindOrCreateAnyCase(countries, name).countries != countries
    ensures var r := FindOrCreateAnyCase(countries, name);
      FindByName(r.countries, name) == r.country && FindOrCreateAnyCase(r.countries, name) == r
  {
    var r := FindOrCreateAnyCase(countries, name);
    FindByNameAppend(countries, [r.country.value], name);
    assert [r.country.value][1..] == [];
  }

  /** One entry with the corrected test. */
  function SeedStepAnyCase(s: Seeding, e: Entry): Seeding
    requires DashesOk(e.range)
  {
    var r := FindOrCreateAnyCase(s.countries, Normalized(e.country));
    if r.country.None? then s.(countries := r.countries, errors := s.errors + 1)
    else SeedRange(s.(countries := r.countries), Expansion(e.range), r.country.value.iso2)
  }

  /** The whole loop with the corrected test. */
  function SeedAllAnyCase(s: Seeding, entries: seq<Entry>): Seeding
    requires RangesOk(entries)
  {
    if entries == [] then s
    else
      assert entries[|entries| - 1] in entries;
      SeedStepAnyCase(SeedAllAnyCase(s, entries[..|entries| - 1]), entries[|entries| - 1])
  }

  /** One corrected step resolves the name once and only adds pairs. */
  lemma SeedStepAnyCaseGrows(s: Seeding, e: Entry)
    requires DashesOk(e.range)
    ensures SeedStepAnyCase(s, e).countries == FindOrCreateAnyCase(s.countries, Normalized(e.country)).countries
    ensures s.pairs <= SeedStepAnyCase(s, e).pairs
  {
    var r := FindOrCreateAnyCase(s.countries, Normalized(e.country));
    if r.country.Some? && Expansion(e.range) != [] {
      InsertCodesMembers(s.pairs, Expansion(e.range), r.country.value.iso2);
    }
  }

  /** Processing the entry once more with the corrected test would change neither table. */
  predicate SettledAnyCase(countries: seq<Country>, pairs: set<Pair>, e: Entry)
    requires DashesOk(e.range)
  {
    var r := FindOrCreateAnyCase(countries, Normalized(e.country));
    r.countries == countries &&
    (r.country.Some? ==> forall code :: code in Expansion(e.range) ==> (code, r.country.value.iso2) in pairs)
  }

  lemma SettledStepChangesNothingAnyCase(s: Seeding, e: Entry)
    requires DashesOk(e.range) && SettledAnyCase(s.countries, s.pairs, e)
    ensures var t := SeedStepAnyCase(s, e);
      t.countries == s.countries && t.pairs == s.pairs && t.inserted == s.inserted
  {
    var r := FindOrCreateAnyCase(s.countries, Normalized(e.country));
    if r.country.Some? && Expansion(e.range) != [] {
      InsertCodesMembers(s.pairs, Expansion(e.range), r.country.value.iso2);
      InsertCodesCounts(s.pairs, Expansion(e.range), r.country.value.iso2);
    }
  }

  lemma StepSettlesAnyCase(s: Seeding, e: Entry)
    requires DashesOk(e.range)
    ensures SettledAnyCase(SeedStepAnyCase(s, e).countries, SeedStepAnyCase(s, e).pairs, e)
  {
    var n := Normalized(e.country);
    var r := FindOrCreateAnyCase(s.countries, n);
    if r.countries != s.countries {
      CreatedRegionIsFoundAnyCase(s.countries, n);
    }
    if r.country.Some? && Expansion(e.range) != [] {
      InsertCodesMembers(s.pairs, Expansion(e.range), r.country.value.iso2);
    }
  }

  /** The region another name creates never matches a name that resolved without creating a
      row: with the corrected test a matching name would have created that very row. */
  lemma UnmatchedPlaceholderAnyCase(countries: seq<Country>, name: string, other: string)
    requires FindOrCreateAnyCase(countries, name).countries == countries
    requires FindByName(countries, name).None?
    requires FindOrCreateAnyCase(countries, other).countries != countries
    ensures !NameMatches(FindOrCreateAnyCase(countries, other).country.value, name)
  {
    var rec := FindOrCreateAnyCase(countries, other).country.value;
    var created := CanonicalRegion(other).value;
    if NameMatches(rec, name) {
      assert Lower(created) == Lower(name);
      var region := CanonicalRegion(name).value;
      KnownRegionsDifferIgnoringCase(created, region);
      assert false;
    }
  }

  /** A region whose placeholder row collided still collides once the table has grown. */
  lemma CollisionPersistsAnyCase(countries: seq<Country>, name: string, rec: Country)
    requires CanonicalRegion(name).Some? && FindByName(countries, name).None?
    requires FindOrCreateAnyCase(countries, name).countries == countries
    ensures PlaceholderCodes(CanonicalRegion(name).value).Some?
    ensures var region := CanonicalRegion(name).value;
      Collides(countries + [rec], RegionRecord(region, PlaceholderCodes(region).value.0, PlaceholderCodes(region).value.1))
  {
    var region := CanonicalRegion(name).value;
    PlaceholderCodesDomain(region);
    var placeholder := RegionRecord(region, PlaceholderCodes(region).value.0, PlaceholderCodes(region).value.1);
    assert Collides(countries, placeholder);
    var c :| c in countries && (c.iso2 == placeholder.iso2 || c.iso3 == placeholder.iso3);
    assert c in countries + [rec];
  }

  /** With the corrected test, a name that resolves without creating a row keeps its result
      whatever other name is resolved meanwhile; no condition on case is needed. */
  lemma ResolutionPersistsAnyCase(countries: seq<Country>, name: string, other: string)
    requires FindOrCreateAnyCase(countries, name).countries == countries
    ensures var grown := FindOrCreateAnyCase(countries, other).countries;
      FindOrCreateAnyCase(grown, name) == Resolution(FindOrCreateAnyCase(countries, name).country, grown)
  {
    var grown := FindOrCreateAnyCase(countries, other).countries;
    if grown != countries {
      var rec := FindOrCreateAnyCase(countries, other).country.value;
      FindByNameAppend(countries, [rec], name);
      assert [rec][1..] == [];
      if FindByName(countries, name).None? {
        UnmatchedPlaceholderAnyCase(countries, name, other);
        if CanonicalRegion(name).Some? {
          CollisionPersistsAnyCase(countries, name, rec);
        }
      }
    }
  }

  lemma SettledPersistsAnyCase(s: Seeding, e: Entry, other: Entry)
    requires DashesOk(e.range) && DashesOk(other.range)
    requires SettledAnyCase(s.countries, s.pairs, e)
    ensures SettledAnyCase(SeedStepAnyCase(s, other).countries, SeedStepAnyCase(s, other).pairs, e)
  {
    SeedStepAnyCaseGrows(s, other);
    ResolutionPersistsAnyCase(s.countries, Normalized(e.country), Normalized(other.country));
  }

  lemma {:induction false} SettledAfterRunAnyCase(s: Seeding, entries: seq<Entry>, k: nat)
    requires RangesOk(entries) && k < |entries|
    ensures DashesOk(entries[k].range)
    ensures SettledAnyCase(SeedAllAnyCase(s, entries).countries, SeedAllAnyCase(s, entries).pairs, entries[k])
  {
    var n := |entries| - 1;
    var front := entries[..n];
    assert entries[k] in entries && entries[n] in entries;
    assert forall e :: e in front ==> e in entries;
    if k == n {
      StepSettlesAnyCase(SeedAllAnyCase(s, front), entries[k]);
    } else {
      assert front[k] == entries[k];
      SettledAfterRunAnyCase(s, front, k);
      SettledPersistsAnyCase(SeedAllAnyCase(s, front), entries[k], entries[n]);
    }
  }

  lemma {:induction false} SettledRunChangesNothingAnyCase(s: Seeding, entries: seq<Entry>)
    requires RangesOk(entries)
    requires forall e :: e in entries ==> DashesOk(e.range) && SettledAnyCase(s.countries, s.pairs, e)
    ensures var t := SeedAllAnyCase(s, entries);
      t.countries == s.countries && t.pairs == s.pairs && t.inserted == s.inserted
  {
    if entries != [] {
      var n := |entries| - 1;
      var front := entries[..n];
      assert entries[n] in entries;
      assert forall e :: e in front ==> e in entries;
      SettledRunChangesNothingAnyCase(s, front);
      SettledStepChangesNothingAnyCase(SeedAllAnyCase(s, front), entries[n]);
    }
  }

  /** With the corrected test, a second run on the result of the first adds no pair and no
      country, for every input. */
  lemma SeedTwiceAnyCaseKeepsTables(s: Seeding, entries: seq<Entry>)
    requires RangesOk(entries)
    ensures var d := SeedAllAnyCase(s, entries);
      var r := SeedAllAnyCase(Seeding(d.countries, d.pairs, 0, 0, 0), entries);
      r.countries == d.countries && r.pairs == d.pairs && r.inserted == 0
  {
    var d := SeedAllAnyCase(s, entries);
    var again := Seeding(d.countries, d.pairs, 0, 0, 0);
    forall e | e in entries
      ensures DashesOk(e.range) && SettledAnyCase(again.countries, again.pairs, e)
    {
      var k :| 0 <= k < |entries| && entries[k] == e;
      SettledAfterRunAnyCase(s, entries, k);
    }
    SettledRunChangesNothingAnyCase(again, entries);
  }

  /** A case-only variant of a known region stands for that region under the corrected test. */
  lemma VariantCanonical(variant: string, region: string)
    requires region in KnownRegions && Lower(variant) == Lower(region)
    ensures CanonicalRegion(variant) == Some(region)
  {
    KnownRegionsDifferIgnoringCase(CanonicalRegion(variant).value, region);
  }

  lemma SeedTwoAnyCase(s: Seeding, e1: Entry, e2: Entry)
    requires DashesOk(e1.range) && DashesOk(e2.range)
    ensures RangesOk([e1, e2])
    ensures SeedAllAnyCase(s, [e1, e2]) == SeedStepAnyCase(SeedStepAnyCase(s, e1), e2)
  {
    assert [e1, e2][..1] == [e1] && [e1][..0] == [];
    assert [e1, e2][1] == e2 && [e1][0] == e1;
    assert SeedAllAnyCase(s, [e1]) == SeedStepAnyCase(s, e1);
  }

  /** An entry that resolves to a country and has a one-code range adds that pair. */
  lemma SeedOneCodeAnyCase(s: Seeding, e: Entry, code: string)
    requires DashesOk(e.range) && Expansion(e.range) == [code]
    requires FindOrCreateAnyCase(s.countries, Normalized(e.country)).country.Some?
    ensures var r := FindOrCreateAnyCase(s.countries, Normalized(e.country));
      SeedStepAnyCase(s, e).countries == r.countries &&
      SeedStepAnyCase(s, e).pairs == s.pairs + {(code, r.country.value.iso2)}
  {
    var r := FindOrCreateAnyCase(s.countries, Normalized(e.country));
    InsertOneCode(s.pairs, code, r.country.value.iso2);
  }

  /** On an empty table a case-only variant creates its region's row, and the region's own
      name then finds that row. */
  lemma VariantCreatesRegion(variant: string, region: string)
    requires region in KnownRegions && Lower(variant) == Lower(region)
    ensures PlaceholderCodes(region).Some?
    ensures var rec := RegionRecord(region, PlaceholderCodes(region).value.0, PlaceholderCodes(region).value.1);
      FindOrCreateAnyCase([], variant) == Resolution(Some(rec), [rec]) &&
      FindOrCreateAnyCase([rec], region) == Resolution(Some(rec), [rec])
  {
    VariantCanonical(variant, region);
    PlaceholderCodesDomain(region);
    var rec := RegionRecord(region, PlaceholderCodes(region).value.0, PlaceholderCodes(region).value.1);
    assert FindByName([rec], region) == Some(rec);
  }

  /** On the input that makes the code as written add pairs on a second run, the corrected
      first run already gives both codes to the region: the variant creates the region under its
      own spelling, and the entry naming the region finds that row. */
  lemma FirstPassAnyCaseKeepsVariant(variant: string, region: string, first: string, second: string)
    requires CaseVariantCase(variant, region, first, second)
    ensures RangesOk([Entry(first, variant), Entry(second, region)])
    ensures var d := SeedAllAnyCase(Seeding([], {}, 0, 0, 0), [Entry(first, variant), Entry(second, region)]);
      PlaceholderCodes(region).Some? &&
      d.pairs == {(first, PlaceholderCodes(region).value.0), (second, PlaceholderCodes(region).value.0)} &&
      d.countries == [RegionRecord(region, PlaceholderCodes(region).value.0, PlaceholderCodes(region).value.1)]
  {
    var e1, e2 := Entry(first, variant), Entry(second, region);
    var s0 := Seeding([], {}, 0, 0, 0);
    SeedTwoAnyCase(s0, e1, e2);
    VariantCreatesRegion(variant, region);
    SeedOneCodeAnyCase(s0, e1, first);
    SeedOneCodeAnyCase(SeedStepAnyCase(s0, e1), e2, second);
  }

  /** Two capital letters form a range of that one code. */
  lemma TwoLetterRange(code: string)
    requires |code| == 2 && IsAsciiUpper(code[0]) && IsAsciiUpper(code[1])
    ensures DashesOk(code) && Expansion(code) == [code]
  {
    TwoLettersPlain(code);
    PlainDashesOk(code);
    CommaFreeExpansion(code);
  }

  lemma TwoLettersPlain(code: string)
    requires |code| == 2 && IsAsciiUpper(code[0]) && IsAsciiUpper(code[1])
    ensures Strip(code) == code && ',' !in code && '-' !in code
  {
    StripUnpadded(code);
    assert code == [code[0], code[1]];
  }

  lemma PlainDashesOk(code: string)
    requires Strip(code) == code && ',' !in code && '-' !in code
    ensures DashesOk(code)
  {
    CountZero(code, '-');
    assert PartOk(code);
    assert Split(code, ',') == [code];
  }

  /** The names and ranges of a counterexample to re-running the loop: a case-only variant of a
      region's name that is not itself a known name, and two one-code ranges. */
  predicate CaseVariantCase(variant: string, region: string, first: string, second: string) {
    Normalized(variant) == variant && Normalized(region) == region &&
    region in KnownRegions && variant !in KnownRegions && Lower(variant) == Lower(region) &&
    DashesOk(first) && Expansion(first) == [first] && DashesOk(second) && Expansion(second) == [second] &&
    first != second
  }

  lemma SeedTwo(s: Seeding, e1: Entry, e2: Entry)
    requires DashesOk(e1.range) && DashesOk(e2.range)
    ensures RangesOk([e1, e2])
    ensures SeedAll(s, [e1, e2]) == SeedStep(SeedStep(s, e1), e2)
  {
    assert [e1, e2][..1] == [e1] && [e1][..0] == [];
    assert [e1, e2][1] == e2 && [e1][0] == e1;
    assert SeedAll(s, [e1]) == SeedStep(s, e1);
  }

  /** An entry that resolves to a country and has a one-code range adds that pair. */
  lemma SeedOneCode(s: Seeding, e: Entry, code: string)
    requires DashesOk(e.range) && Expansion(e.range) == [code]
    requires FindOrCreate(s.countries, Normalized(e.country)).country.Some?
    ensures var r := FindOrCreate(s.countries, Normalized(e.country));
      SeedStep(s, e).countries == r.countries && SeedStep(s, e).pairs == s.pairs + {(code, r.country.value.iso2)}
  {
    var r := FindOrCreate(s.countries, Normalized(e.country));
    InsertOneCode(s.pairs, code, r.country.value.iso2);
  }

  lemma InsertOneCode(table: set<Pair>, code: string, iso2: string)
    ensures InsertCodes(table, [code], iso2).0 == table + {(code, iso2)}
  {
    assert [code][..0] == [];
  }

  /** An entry that resolves to nothing changes no table. */
  lemma SeedUnresolved(s: Seeding, e: Entry)
    requires DashesOk(e.range)
    requires FindOrCreate(s.countries, Normalized(e.country)).country.None?
    ensures SeedStep(s, e).countries == s.countries && SeedStep(s, e).pairs == s.pairs
  {
  }

  /** The first pass over [(first, variant), (second, region)] on empty tables drops the first
      entry and creates the region for the second. */
  lemma FirstPassDropsVariant(variant: string, region: string, first: string, second: string)
    requires CaseVariantCase(variant, region, first, second)
    ensures RangesOk([Entry(first, variant), Entry(second, region)])
    ensures var d := SeedAll(Seeding([], {}, 0, 0, 0), [Entry(first, variant), Entry(second, region)]);
      PlaceholderCodes(region).Some? &&
      d.pairs == {(second, PlaceholderCodes(region).value.0)} &&
      d.countries == [RegionRecord(region, PlaceholderCodes(region).value.0, PlaceholderCodes(region).value.1)]
  {
    var s0 := Seeding([], {}, 0, 0, 0);
    SeedTwo(s0, Entry(first, variant), Entry(second, region));
    assert FindOrCreate([], variant).country.None?;
    SeedUnresolved(s0, Entry(first, variant));
    var s1 := SeedStep(s0, Entry(first, variant));
    assert s1.countries == [] && s1.pairs == {};
    CreateOnEmpty(region);
    SeedOneCode(s1, Entry(second, region), second);
  }

  /** On an empty country table, a known region is created. */
  lemma CreateOnEmpty(region: string)
    requires region in KnownRegions
    ensures PlaceholderCodes(region).Some?
    ensures var rec := RegionRecord(region, PlaceholderCodes(region).value.0, PlaceholderCodes(region).value.1);
      FindOrCreate([], region) == Resolution(Some(rec), [rec])
  {
    PlaceholderCodesDomain(region);
  }

  /** The second pass matches the variant to the created region and adds its pair. */
  lemma SecondPassMatchesVariant(variant: string, region: string, first: string, second: string, d: Seeding)
    requires CaseVariantCase(variant, region, first, second)
    requires PlaceholderCodes(region).Some?
    requires d.countries == [RegionRecord(region, PlaceholderCodes(region).value.0, PlaceholderCodes(region).value.1)]
    ensures RangesOk([Entry(first, variant), Entry(second, region)])
    ensures (first, PlaceholderCodes(region).value.0) in SeedAll(d, [Entry(first, variant), Entry(second, region)]).pairs
  {
    SeedTwo(d, Entry(first, variant), Entry(second, region));
    var rec := d.countries[0];
    assert NameMatches(rec, variant);
    assert FindByName(d.countries, variant) == Some(rec);
    SeedOneCode(d, Entry(first, variant), first);
    var s1 := SeedStep(d, Entry(first, variant));
    SeedStepGrows(s1, Entry(second, region));
  }

  /** An entry naming a region by a case-only variant, then one naming the region itself: the
      first pass drops the first entry (nothing matches the variant and it is not a known name)
      and creates the region for the second; a second pass matches the variant to that region
      and adds a pair. The variant breaks `NoCaseVariant`. */
  lemma SeedTwiceCanAddPairs(variant: string, region: string, first: string, second: string)
    requires CaseVariantCase(variant, region, first, second)
    ensures !NoCaseVariant(Normalized(variant))
    ensures var entries := [Entry(first, variant), Entry(second, region)];
      RangesOk(entries) &&
      var d := SeedAll(Seeding([], {}, 0, 0, 0), entries);
      var r := SeedAll(Seeding(d.countries, d.pairs, 0, 0, 0), entries);
      r.pairs != d.pairs
  {
    FirstPassDropsVariant(variant, region, first, second);
    var d := SeedAll(Seeding([], {}, 0, 0, 0), [Entry(first, variant), Entry(second, region)]);
    SecondPassMatchesVariant(variant, region, first, second, Seeding(d.countries, d.pairs, 0, 0, 0));
  }

  /** "asia" before "Asia" is such a case. */
  lemma AsiaCaseVariant()
    ensures CaseVariantCase("asia", "Asia", "AA", "AB")
  {
    TwoLetterRange("AA");
    TwoLetterRange("AB");
    AsiaNames();
  }

  lemma AsiaNames()
    ensures Normalized("asia") == "asia" && Normalized("Asia") == "Asia"
    ensures "Asia" in KnownRegions && "asia" !in KnownRegions
    ensures Lower("asia") == Lower("Asia")
  {
    assert Lower("asia") == "asia" == Lower("Asia");
  }
}
