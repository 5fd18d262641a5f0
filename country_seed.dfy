/** src/seed_countries.py: the helpers that read one entry of countries.json, and the insert
    loop that adds the countries not yet in `countries`, then the 'XX' ("Unknown") catch-all. */
module CountrySeed {
  import opened Wrappers
  import opened Tables

  // ---------------------------------------------------------------------------------------
  // JSON values
  // ---------------------------------------------------------------------------------------

  /** A value as `json.load` returns it. An object keeps its members in document order; numbers
      are integers here. */
  datatype Json =
    | JNull
    | JBool(b: bool)
    | JNum(n: int)
    | JStr(s: string)
    | JArr(items: seq<Json>)
    | JObj(members: seq<(string, Json)>)

  /** Python truthiness. */
  predicate Truthy(j: Json) {
    match j
    case JNull => false
    case JBool(b) => b
    case JNum(n) => n != 0
    case JStr(s) => s != ""
    case JArr(xs) => xs != []
    case JObj(ms) => ms != []
  }

  /** The member `key` of an object; of two members with one key, the later one wins, as it
      does in `json.load`. */
  function Lookup(ms: seq<(string, Json)>, key: string): (r: Option<Json>)
    ensures r.Some? ==> (key, r.value) in ms
    ensures r.None? ==> forall m :: m in ms ==> m.0 != key
    decreases |ms|
  {
    if ms == [] then None
    else if ms[|ms| - 1].0 == key then Some(ms[|ms| - 1].1)
    else Lookup(ms[..|ms| - 1], key)
  }

  /** Why the seeding stops with a rollback: a Python exception while reading an entry, or
      the commit refused by a constraint of `countries`. */
  datatype SeedError = Crash | Rejected

  /** `d.get(key, default)`; a value that is not a dict has no `get`. */
  function Get(d: Json, key: string, default: Json): (r: Result<Json, SeedError>)
    ensures r.Success? <==> d.JObj?
  {
    if d.JObj? then Success(Lookup(d.members, key).GetOr(default)) else Failure(Crash)
  }

  /** `x[0]`: the first item of a list or the first character of a string; anything else
      raises. */
  function First(j: Json): (r: Result<Json, SeedError>)
    ensures r.Success? <==> (j.JArr? && j.items != []) || (j.JStr? && j.s != "")
  {
    match j
    case JArr(xs) => if xs != [] then Success(xs[0]) else Failure(Crash)
    case JStr(s) => if s != "" then Success(JStr([s[0]])) else Failure(Crash)
    case _ => Failure(Crash)
  }

  /** The value stored in a nullable text column: None for null, the text for a string. */
  function Column(j: Json): (r: Result<Option<string>, SeedError>)
    ensures j == JNull ==> r == Success(None)
    ensures j.JStr? ==> r == Success(Some(j.s))
    ensures r.Success? <==> j == JNull || j.JStr?
  {
    match j
    case JNull => Success(None)
    case JStr(s) => Success(Some(s))
    case _ => Failure(Crash)
  }

  // ---------------------------------------------------------------------------------------
  // get_first_value, get_calling_code, map_region
  // ---------------------------------------------------------------------------------------

  /** `get_first_value`: the first key of a non-empty object, else None. */
  function FirstValue(j: Json): (r: Option<string>)
    ensures r.Some? <==> j.JObj? && j.members != []
    ensures r.Some? ==> r.value == j.members[0].0
  {
    if !Truthy(j) || !j.JObj? then None else Some(j.members[0].0)
  }

  /** `get_calling_code`. */
  function CallingCode(idd: Json): (r: Result<Option<string>, SeedError>)
    ensures !idd.JObj? || idd.members == [] ==> r == Success(None)
  {
    if !Truthy(idd) || !idd.JObj? then Success(None)
    else
      var root := Lookup(idd.members, "root").GetOr(JStr(""));
      var suffixes := Lookup(idd.members, "suffixes").GetOr(JArr([]));
      if Truthy(root) && Truthy(suffixes) then
        var first :- First(suffixes);
        if root.JStr? && first.JStr? then Success(Some(root.s + first.s)) else Failure(Crash)
      else if Truthy(root) then Column(root)
      else Success(None)
  }

  /** Root and first suffix together when both are there... */
  lemma CallingCodeJoined(ms: seq<(string, Json)>, root: string, suffix: string, rest: seq<Json>)
    requires Lookup(ms, "root") == Some(JStr(root)) && root != ""
    requires Lookup(ms, "suffixes") == Some(JArr([JStr(suffix)] + rest))
    ensures CallingCode(JObj(ms)) == Success(Some(root + suffix))
  {
  }

  /** ...the root alone when there are no suffixes... */
  lemma CallingCodeRootOnly(ms: seq<(string, Json)>, root: string)
    requires Lookup(ms, "root") == Some(JStr(root)) && root != ""
    requires Lookup(ms, "suffixes").None? || Lookup(ms, "suffixes") == Some(JArr([]))
    ensures CallingCode(JObj(ms)) == Success(Some(root))
  {
  }

  /** ...and None when the root is missing or empty. */
  lemma CallingCodeNoRoot(ms: seq<(string, Json)>)
    requires Lookup(ms, "root").None? || Lookup(ms, "root") == Some(JStr(""))
    ensures CallingCode(JObj(ms)) == Success(None)
  {
  }

  /** The subregions `map_region` counts as North America. */
  const NorthernSubregions: seq<string> := ["Northern America", "Central America", "Caribbean"]

  /** `map_region`: the region names of countries.json in the form the rest of the database
      uses. */
  function MapRegion(region: Option<string>, subregion: Option<string>): (r: Option<string>)
    ensures region == Some("Americas") ==>
      (r == Some("North America") <==> subregion.Some? && subregion.value in NorthernSubregions)
    ensures region == Some("Americas") ==>
      (r == Some("South America") <==> !(subregion.Some? && subregion.value in NorthernSubregions))
    ensures region == Some("Antarctic") ==> r == Some("Antarctica")
    ensures region != Some("Americas") && region != Some("Antarctic") ==> r == region
  {
    match region
    case Some("Americas") =>
      if subregion.Some? && subregion.value in NorthernSubregions then Some("North America") else Some("South America")
    case Some("Antarctic") => Some("Antarctica")
    case _ => region
  }

  // ---------------------------------------------------------------------------------------
  // seed_countries
  // ---------------------------------------------------------------------------------------

  /** `country_data.get('cca2')` as the loop judges it: None for an entry it skips as having no
      code, else the code. */
  function Cca2(entry: Json): (r: Result<Option<string>, SeedError>)
    ensures r.Success? ==> entry.JObj?
    ensures r.Success? && r.value.Some? ==> r.value.value != ""
  {
    var v :- Get(entry, "cca2", JNull);
    if !Truthy(v) then Success(None)
    else if v.JStr? then Success(Some(v.s))
    else Failure(Crash)
  }

  /** The row the loop builds for an entry it inserts under `iso2`; `entry` is an object, since
      reading its code succeeded. */
  function CountryOf(entry: Json, iso2: string): (r: Result<Country, SeedError>)
    requires entry.JObj?
    ensures r.Success? ==> r.value.iso2 == iso2
    ensures r.Failure? ==> r.error == Crash
  {
    var ms := entry.members;
    var nameData := Lookup(ms, "name").GetOr(JObj([]));
    if !nameData.JObj? then Failure(Crash)
    else
      var common := Lookup(nameData.members, "common").GetOr(JNull);
      var official := Lookup(nameData.members, "official").GetOr(common);
      var region :- Column(Lookup(ms, "region").GetOr(JNull));
      var subregion :- Column(Lookup(ms, "subregion").GetOr(JNull));
      var tld :- First(Lookup(ms, "tld").GetOr(JArr([JNull])));
      var iso3 :- Column(Lookup(ms, "cca3").GetOr(JNull));
      var isoNumeric :- Column(Lookup(ms, "ccn3").GetOr(JNull));
      var name :- Column(official);
      var commonName :- Column(common);
      var callingCode :- CallingCode(Lookup(ms, "idd").GetOr(JObj([])));
      var tldText :- Column(tld);
      var flagEmoji :- Column(Lookup(ms, "flag").GetOr(JNull));
      Success(Country(iso2, iso3, isoNumeric, name, commonName, MapRegion(region, subregion), subregion,
                      FirstValue(Lookup(ms, "currencies").GetOr(JNull)), callingCode, tldText, flagEmoji))
  }

  /** The catch-all country for codes no scraped range assigns. */
  const UnknownCountry: Country := Country("XX", Some("XXX"), Some("999"), Some("Unknown"), Some("Unknown"),
    Some("Unknown"), Some("Unknown"), None, None, None, Some("\U{1F3F3}"))

  /** The `iso_alpha2` codes of the rows. */
  function Isos(rows: seq<Country>): (codes: set<string>)
    ensures forall c :: c in rows ==> c.iso2 in codes
    ensures forall x :: x in codes ==> exists c :: c in rows && c.iso2 == x
  {
    set c | c in rows :: c.iso2
  }

  /** The constraints of `countries` a commit checks: `iso_alpha2` unique, `iso_alpha3`
      unique where present, `name` not null. */
  predicate TableOk(rows: seq<Country>) {
    (forall i, j :: 0 <= i < j < |rows| ==> rows[i].iso2 != rows[j].iso2) &&
    (forall i, j :: 0 <= i < j < |rows| && rows[i].iso3.Some? ==> rows[i].iso3 != rows[j].iso3) &&
    (forall i :: 0 <= i < |rows| ==> rows[i].name.Some?)
  }

  /** What the loop has added to the session, and its counters. */
  datatype Pending = Pending(rows: seq<Country>, inserted: nat, skipped: nat)

  /** One turn of the loop: `entry` is skipped, turned into a row, or raises. */
  function Step(acc: Result<Pending, SeedError>, entry: Json, existing: set<string>): Result<Pending, SeedError> {
    var p :- acc;
    var code :- Cca2(entry);
    if code.None? || code.value in existing then Success(p.(skipped := p.skipped + 1))
    else
      var c :- CountryOf(entry, code.value);
      Success(Pending(p.rows + [c], p.inserted + 1, p.skipped))
  }

  /** The loop over the entries, with the codes present before it started. */
  function Process(data: seq<Json>, existing: set<string>): Result<Pending, SeedError>
    decreases |data|
  {
    if data == [] then Success(Pending([], 0, 0))
    else Step(Process(data[..|data| - 1], existing), data[|data| - 1], existing)
  }

  /** The commit of `countries` followed by `added`, which the constraints of the table accept
      or refuse as a whole; `inserted` is the count the script reports. */
  function Finish(countries: seq<Country>, added: seq<Country>, inserted: nat): Result<(seq<Country>, nat), SeedError> {
    if TableOk(countries + added) then Success((countries + added, inserted)) else Failure(Rejected)
  }

  /** After the loop: the catch-all row when 'XX' is missing, then the commit. */
  function Commit(countries: seq<Country>, p: Pending): Result<(seq<Country>, nat), SeedError> {
    if "XX" !in Isos(countries) then Finish(countries, p.rows + [UnknownCountry], p.inserted + 1)
    else Finish(countries, p.rows, p.inserted)
  }

  /** `seed_countries`: the table and the inserted count after the commit, or the error the
      rollback follows. */
  function Seed(countries: seq<Country>, data: seq<Json>): Result<(seq<Country>, nat), SeedError> {
    var p :- Process(data, Isos(countries));
    Commit(countries, p)
  }

  /** The table and the script's result after `seed_countries`: on an error the rollback
      leaves the table as it was. */
  function Outcome(countries: seq<Country>, data: seq<Json>): (seq<Country>, Result<nat, SeedError>) {
    match Seed(countries, data)
    case Success((table, inserted)) => (table, Success(inserted))
    case Failure(e) => (countries, Failure(e))
  }

  /** An error partway through the loop ends the whole loop with it. */
  lemma {:induction false} ProcessFailsOn(data: seq<Json>, existing: set<string>, k: nat)
    requires k <= |data| && Process(data[..k], existing).Failure?
    ensures Process(data, existing) == Failure(Process(data[..k], existing).error)
    decreases |data| - k
  {
    if k < |data| {
      var init := data[..|data| - 1];
      assert init[..k] == data[..k];
      ProcessFailsOn(init, existing, k);
    } else {
      assert data[..k] == data;
    }
  }

  /** ...and so ends `seed_countries` with it, before anything is committed. */
  lemma SeedFailsOn(countries: seq<Country>, data: seq<Json>, k: nat)
    requires k <= |data| && Process(data[..k], Isos(countries)).Failure?
    ensures Seed(countries, data) == Failure(Process(data[..k], Isos(countries)).error)
    ensures Outcome(countries, data) == (countries, Failure(Process(data[..k], Isos(countries)).error))
  {
    ProcessFailsOn(data, Isos(countries), k);
  }

  // ---------------------------------------------------------------------------------------
  // What the loop and the commit promise
  // ---------------------------------------------------------------------------------------

  /** Every entry is counted once, as inserted or as skipped, and each insertion is one row. */
  lemma {:induction false} ProcessCounts(data: seq<Json>, existing: set<string>)
    requires Process(data, existing).Success?
    ensures Process(data, existing).value.inserted == |Process(data, existing).value.rows|
    ensures Process(data, existing).value.inserted + Process(data, existing).value.skipped == |data|
    decreases |data|
  {
    if data != [] {
      ProcessCounts(data[..|data| - 1], existing);
    }
  }

  /** A finished loop read every entry: none of them raised. */
  lemma {:induction false} ProcessReadAll(data: seq<Json>, existing: set<string>)
    requires Process(data, existing).Success?
    ensures forall e :: e in data ==> Cca2(e).Success?
    decreases |data|
  {
    if data != [] {
      var init := data[..|data| - 1];
      ProcessReadAll(init, existing);
      assert forall e :: e in data ==> e in init || e == data[|data| - 1];
    }
  }

  /** Each row comes from an entry whose code was new to the table (skip soundness). */
  lemma {:induction false} ProcessRowsSound(data: seq<Json>, existing: set<string>)
    requires Process(data, existing).Success?
    ensures forall c :: c in Process(data, existing).value.rows ==>
      c.iso2 !in existing &&
      exists e :: e in data && Cca2(e) == Success(Some(c.iso2)) && CountryOf(e, c.iso2) == Success(c)
    decreases |data|
  {
    if data != [] {
      var init := data[..|data| - 1];
      ProcessRowsSound(init, existing);
      assert forall e :: e in init ==> e in data;
    }
  }

  /** Each entry whose code is new to the table becomes a row (skip completeness). */
  lemma {:induction false} ProcessRowsComplete(data: seq<Json>, existing: set<string>)
    requires Process(data, existing).Success?
    ensures forall e, x :: e in data && Cca2(e) == Success(Some(x)) && x !in existing ==>
      CountryOf(e, x).Success? && CountryOf(e, x).value in Process(data, existing).value.rows
    decreases |data|
  {
    if data != [] {
      var init := data[..|data| - 1];
      ProcessRowsComplete(init, existing);
      assert forall e :: e in data ==> e in init || e == data[|data| - 1];
    }
  }

  /** The number of rows with code `x`. */
  function RowsWith(rows: seq<Country>, x: string): (n: nat)
    ensures n <= |rows|
    ensures n == 0 <==> forall c :: c in rows ==> c.iso2 != x
  {
    if rows == [] then 0 else (if rows[0].iso2 == x then 1 else 0) + RowsWith(rows[1..], x)
  }

  lemma {:induction false} RowsWithAppend(a: seq<Country>, b: seq<Country>, x: string)
    ensures RowsWith(a + b, x) == RowsWith(a, x) + RowsWith(b, x)
  {
    if a != [] {
      assert (a + b)[1..] == a[1..] + b;
      RowsWithAppend(a[1..], b, x);
    } else {
      assert a + b == b;
    }
  }

  /** A table the commit accepts holds each code at most once. */
  lemma {:induction false} TableOkRowsWith(rows: seq<Country>, x: string)
    requires TableOk(rows)
    ensures RowsWith(rows, x) <= 1
  {
    if rows != [] {
      assert TableOk(rows[1..]) by {
        forall i, j | 0 <= i < j < |rows[1..]|
          ensures rows[1..][i].iso2 != rows[1..][j].iso2
        {
          assert rows[1..][i] == rows[i + 1] && rows[1..][j] == rows[j + 1];
        }
      }
      TableOkRowsWith(rows[1..], x);
      if rows[0].iso2 == x {
        forall c | c in rows[1..] ensures c.iso2 != x {
          var j :| 0 <= j < |rows[1..]| && rows[1..][j] == c;
          assert rows[j + 1] == c;
        }
      }
    }
  }

  /** The number of entries whose code is `x`. */
  function CodeEntries(data: seq<Json>, x: string): (n: nat)
    ensures n <= |data|
  {
    if data == [] then 0
    else CodeEntries(data[..|data| - 1], x) + (if Cca2(data[|data| - 1]) == Success(Some(x)) then 1 else 0)
  }

  /** `existing` is read once, before the loop: a code new to the table gets a row for every
      entry that carries it. */
  lemma {:induction false} ProcessRowsWith(data: seq<Json>, existing: set<string>, x: string)
    requires Process(data, existing).Success? && x !in existing
    ensures RowsWith(Process(data, existing).value.rows, x) == CodeEntries(data, x)
    decreases |data|
  {
    if data != [] {
      var init := data[..|data| - 1];
      ProcessRowsWith(init, existing, x);
      var p := Process(init, existing).value;
      var e := data[|data| - 1];
      var code := Cca2(e).value;
      if code.Some? && code.value !in existing {
        var c := CountryOf(e, code.value).value;
        RowsWithAppend(p.rows, [c], x);
      }
    }
  }

  /** So a code that is new to the table and carried by two entries makes the commit fail,
      and the rollback keeps the table as it was. */
  lemma DuplicateNewCodeRejected(countries: seq<Country>, data: seq<Json>, x: string)
    requires Process(data, Isos(countries)).Success?
    requires x !in Isos(countries) && CodeEntries(data, x) >= 2
    ensures Seed(countries, data) == Failure(Rejected)
    ensures Outcome(countries, data) == (countries, Failure(Rejected))
  {
    ProcessRowsWith(data, Isos(countries), x);
    CommitRejects(countries, Process(data, Isos(countries)).value, x);
  }

  /** Two rows with one code in the session: the commit is refused. */
  lemma CommitRejects(countries: seq<Country>, p: Pending, x: string)
    requires RowsWith(p.rows, x) >= 2
    ensures Commit(countries, p) == Failure(Rejected)
  {
    if "XX" !in Isos(countries) {
      RowsWithAppend(p.rows, [UnknownCountry], x);
      FinishRejects(countries, p.rows + [UnknownCountry], p.inserted + 1, x);
    } else {
      FinishRejects(countries, p.rows, p.inserted, x);
    }
  }

  lemma FinishRejects(countries: seq<Country>, added: seq<Country>, inserted: nat, x: string)
    requires RowsWith(added, x) >= 2
    ensures Finish(countries, added, inserted) == Failure(Rejected)
  {
    RowsWithAppend(countries, added, x);
    if TableOk(countries + added) {
      TableOkRowsWith(countries + added, x);
    }
  }

  /** A successful seeding appends to the table and reports how many rows it appended. */
  lemma SeedAppends(countries: seq<Country>, data: seq<Json>)
    requires Seed(countries, data).Success?
    ensures countries <= Seed(countries, data).value.0
    ensures |Seed(countries, data).value.0| == |countries| + Seed(countries, data).value.1
    ensures TableOk(Seed(countries, data).value.0)
  {
    ProcessCounts(data, Isos(countries));
  }

  /** A successful commit appends the loop's rows, and the catch-all row last, counted, exactly
      when 'XX' is missing from the table. */
  lemma CommitAppends(countries: seq<Country>, p: Pending)
    requires Commit(countries, p).Success?
    ensures "XX" !in Isos(countries) ==>
      Commit(countries, p).value == (countries + p.rows + [UnknownCountry], p.inserted + 1)
    ensures "XX" in Isos(countries) ==> Commit(countries, p).value == (countries + p.rows, p.inserted)
    ensures "XX" in Isos(Commit(countries, p).value.0)
  {
    var t := Commit(countries, p).value.0;
    if "XX" !in Isos(countries) {
      assert countries + (p.rows + [UnknownCountry]) == countries + p.rows + [UnknownCountry];
      assert t[|t| - 1] == UnknownCountry;
    } else {
      var c :| c in countries && c.iso2 == "XX";
      assert c in t;
    }
  }

  /** A successful seeding is the commit of what the loop collected. */
  lemma SeedCommits(countries: seq<Country>, data: seq<Json>)
    requires Seed(countries, data).Success?
    ensures Process(data, Isos(countries)).Success?
    ensures Seed(countries, data) == Commit(countries, Process(data, Isos(countries)).value)
  {
  }

  /** After a successful seeding the table has the 'XX' row: the catch-all row is the last row
      added, and counted, exactly when 'XX' was missing; otherwise only the loop's rows and
      count are committed. */
  lemma SeedHasUnknown(countries: seq<Country>, data: seq<Json>)
    requires Seed(countries, data).Success?
    ensures "XX" in Isos(Seed(countries, data).value.0)
    ensures "XX" !in Isos(countries) ==>
      Seed(countries, data).value ==
        (countries + Process(data, Isos(countries)).value.rows + [UnknownCountry],
         Process(data, Isos(countries)).value.inserted + 1)
    ensures "XX" in Isos(countries) ==>
      Seed(countries, data).value ==
        (countries + Process(data, Isos(countries)).value.rows,
         Process(data, Isos(countries)).value.inserted)
  {
    SeedCommits(countries, data);
    CommitAppends(countries, Process(data, Isos(countries)).value);
  }

  /** The second pass over codes that are all in the table skips every entry. */
  lemma {:induction false} ProcessAllKnown(data: seq<Json>, existing: set<string>, known: set<string>)
    requires Process(data, existing).Success?
    requires forall e, x :: e in data && Cca2(e) == Success(Some(x)) ==> x in known
    ensures Process(data, known) == Success(Pending([], 0, |data|))
    decreases |data|
  {
    if data != [] {
      var init, last := data[..|data| - 1], data[|data| - 1];
      assert Process(data, existing) == Step(Process(init, existing), last, existing);
      assert Process(init, existing).Success? && Cca2(last).Success?;
      assert forall e :: e in init ==> e in data;
      ProcessAllKnown(init, existing, known);
      assert Step(Success(Pending([], 0, |init|)), last, known) == Success(Pending([], 0, |data|));
    }
  }

  /** Seeding twice from the same file: the second run adds nothing and reports 0. */
  lemma SeedTwice(countries: seq<Country>, data: seq<Json>)
    requires Seed(countries, data).Success?
    ensures Seed(Seed(countries, data).value.0, data) == Success((Seed(countries, data).value.0, 0))
  {
    var t := Seed(countries, data).value.0;
    var existing := Isos(countries);
    var p := Process(data, existing).value;
    ProcessRowsComplete(data, existing);
    SeedHasUnknown(countries, data);
    forall e, x | e in data && Cca2(e) == Success(Some(x)) ensures x in Isos(t) {
      if x !in existing {
        var c := CountryOf(e, x).value;
        assert c in t;
      } else {
        var c :| c in countries && c.iso2 == x;
        assert c in t;
      }
    }
    ProcessAllKnown(data, existing, Isos(t));
    assert Commit(t, Pending([], 0, |data|)) == Finish(t, [], 0);
    assert t + [] == t;
  }

  /** The loop's state after one more entry. */
  lemma ProcessNext(data: seq<Json>, existing: set<string>, i: nat)
    requires i < |data|
    ensures Process(data[..i + 1], existing) == Step(Process(data[..i], existing), data[i], existing)
  {
    assert data[..i + 1][..i] == data[..i];
  }

  /** An entry whose `cca2` cannot be read ends the loop with an error. */
  lemma ProcessCrashes(data: seq<Json>, existing: set<string>, i: nat, p: Pending)
    requires i < |data| && Process(data[..i], existing) == Success(p) && Cca2(data[i]).Failure?
    ensures Process(data[..i + 1], existing) == Failure(Crash)
    ensures Process(data, existing) == Failure(Crash)
  {
    ProcessNext(data, existing, i);
    ProcessFailsOn(data, existing, i + 1);
  }

  /** An entry without a code, or with a code already in the table, is skipped. */
  lemma ProcessSkips(data: seq<Json>, existing: set<string>, i: nat, p: Pending)
    requires i < |data| && Process(data[..i], existing) == Success(p) && Cca2(data[i]).Success?
    requires Cca2(data[i]).value.None? || Cca2(data[i]).value.value in existing
    ensures Process(data[..i + 1], existing) == Success(Pending(p.rows, p.inserted, p.skipped + 1))
  {
    ProcessNext(data, existing, i);
    assert Step(Success(p), data[i], existing) == Success(Pending(p.rows, p.inserted, p.skipped + 1));
  }

  /** An entry with a new code whose row can be built adds that row. */
  lemma ProcessAdds(data: seq<Json>, existing: set<string>, i: nat, p: Pending, x: string, c: Country)
    requires i < |data| && Process(data[..i], existing) == Success(p) && Cca2(data[i]) == Success(Some(x))
    requires x !in existing && data[i].JObj? && CountryOf(data[i], x) == Success(c)
    ensures Process(data[..i + 1], existing) == Success(Pending(p.rows + [c], p.inserted + 1, p.skipped))
  {
    ProcessNext(data, existing, i);
    assert Step(Success(p), data[i], existing) == Success(Pending(p.rows + [c], p.inserted + 1, p.skipped));
  }

  /** An entry with a new code whose row cannot be built ends the loop with an error. */
  lemma ProcessRowFails(data: seq<Json>, existing: set<string>, i: nat, p: Pending, x: string)
    requires i < |data| && Process(data[..i], existing) == Success(p) && Cca2(data[i]) == Success(Some(x))
    requires x !in existing && data[i].JObj? && CountryOf(data[i], x).Failure?
    ensures Process(data[..i + 1], existing) == Failure(Crash)
    ensures Process(data, existing) == Failure(Crash)
  {
    ProcessNext(data, existing, i);
    assert Step(Success(p), data[i], existing) == Failure(Crash);
    ProcessFailsOn(data, existing, i + 1);
  }

  /** A run whose loop raises leaves the table as it was and reports the error. */
  lemma OutcomeOfFailure(countries: seq<Country>, data: seq<Json>)
    requires Process(data, Isos(countries)).Failure?
    ensures Outcome(countries, data) == (countries, Failure(Process(data, Isos(countries)).error))
  {
  }

  /** What a run whose loop ends with `p` leaves behind: the commit of the loop's rows, with the
      catch-all row and one more in the count when 'XX' is missing, or the table as it was. */
  lemma OutcomeOfPending(countries: seq<Country>, data: seq<Json>, p: Pending, added: seq<Country>, n: nat)
    requires Process(data, Isos(countries)) == Success(p)
    requires added == if "XX" !in Isos(countries) then p.rows + [UnknownCountry] else p.rows
    requires n == if "XX" !in Isos(countries) then p.inserted + 1 else p.inserted
    ensures TableOk(countries + added) ==> Outcome(countries, data) == (countries + added, Success(n))
    ensures !TableOk(countries + added) ==> Outcome(countries, data) == (countries, Failure(Rejected))
  {
    assert Seed(countries, data) == Commit(countries, p);
    assert Commit(countries, p) == Finish(countries, added, n);
  }

  /** The loop of `seed_countries` over the entries, against the codes read before it: the rows
      the session collects and the counters, or the exception that ends it. */
  method ProcessEntries(data: seq<Json>, existing: set<string>) returns (res: Result<Pending, SeedError>)
    ensures res == Process(data, existing)
  {
    var rows: seq<Country> := [];
    var inserted, skipped := 0, 0;
    for i := 0 to |data|
      invariant Process(data[..i], existing) == Success(Pending(rows, inserted, skipped))
    {
      ghost var p := Pending(rows, inserted, skipped);
      var code := Cca2(data[i]);
      if code.Failure? {
        ProcessCrashes(data, existing, i, p);
        return Failure(Crash);
      }
      if code.value.None? || code.value.value in existing {
        ProcessSkips(data, existing, i, p);
        skipped := skipped + 1;
        continue;
      }
      var iso2 := code.value.value;
      var c := CountryOf(data[i], iso2);
      if c.Failure? {
        ProcessRowFails(data, existing, i, p, iso2);
        return Failure(Crash);
      }
      ProcessAdds(data, existing, i, p, iso2, c.value);
      rows := rows + [c.value];
      inserted := inserted + 1;
    }
    assert data[..|data|] == data;
    res := Success(Pending(rows, inserted, skipped));
  }

  /** `seed_countries` over a database: the codes present are read once, the loop skips entries
      or turns them into rows, then the catch-all is added if missing, and the commit either
      keeps all of it or, refused, none. */
  method SeedCountries(db: Database, data: seq<Json>) returns (r: Result<nat, SeedError>)
    modifies db
    ensures (db.countries, r) == Outcome(old(db.countries), data)
    ensures db.regionCodes == old(db.regionCodes) && db.wmiRegions == old(db.wmiRegions)
    ensures db.factories == old(db.factories) && db.factoryLogos == old(db.factoryLogos)
  {
    var existing := Isos(db.countries);
    var res := ProcessEntries(data, existing);
    if res.Failure? {
      OutcomeOfFailure(db.countries, data);
      return Failure(res.error);
    }
    var rows, inserted := res.value.rows, res.value.inserted;
    if "XX" !in existing {
      rows := rows + [UnknownCountry];
      inserted := inserted + 1;
    }
    OutcomeOfPending(db.countries, data, res.value, rows, inserted);
    if !TableOk(db.countries + rows) {
      return Failure(Rejected);
    }
    db.countries := db.countries + rows;
    r := Success(inserted);
  }
}
