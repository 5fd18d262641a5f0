/** src/fill_missing_ranges.py: every two-character code of the 33 x 33 square that no row of
    `wmi_region_codes` holds is assigned to the 'XX' ("Unknown") country. */
module FillMissing {
  import opened Text
  import opened Tables
  import opened WmiAlphabet

  // ---------------------------------------------------------------------------------------
  // The square of codes, for any alphabet
  // ---------------------------------------------------------------------------------------

  /** The codes starting with `a`, in alphabet order. */
  function RowOf(a: char, symbols: string): (codes: seq<string>)
    ensures |codes| == |symbols|
    ensures forall j :: 0 <= j < |symbols| ==> codes[j] == [a, symbols[j]]
  {
    seq(|symbols|, j requires 0 <= j < |symbols| => [a, symbols[j]])
  }

  /** The rows of the given first characters, one after the other. */
  function Rows(firsts: string, symbols: string): seq<string> {
    if firsts == [] then []
    else Rows(firsts[..|firsts| - 1], symbols) + RowOf(firsts[|firsts| - 1], symbols)
  }

  lemma {:induction false} RowsLength(firsts: string, symbols: string)
    ensures |Rows(firsts, symbols)| == |firsts| * |symbols|
  {
    if firsts != [] {
      RowsLength(firsts[..|firsts| - 1], symbols);
      assert |firsts| * |symbols| == (|firsts| - 1) * |symbols| + |symbols|;
    }
  }

  /** A code is in the rows iff it is a first character followed by a symbol. */
  lemma {:induction false} RowsMembers(firsts: string, symbols: string, code: string)
    ensures code in Rows(firsts, symbols) <==> |code| == 2 && code[0] in firsts && code[1] in symbols
  {
    if firsts != [] {
      var front := firsts[..|firsts| - 1];
      var last := firsts[|firsts| - 1];
      RowsMembers(front, symbols, code);
      assert firsts == front + [last];
      if code in RowOf(last, symbols) {
        var j :| 0 <= j < |symbols| && RowOf(last, symbols)[j] == code;
      }
      if |code| == 2 && code[0] == last && code[1] in symbols {
        var j := IndexOf(symbols, code[1]);
        assert code == [last, symbols[j]];
        assert RowOf(last, symbols)[j] == code;
      }
    }
  }

  lemma DistinctConcat<T>(xs: seq<T>, ys: seq<T>)
    requires Distinct(xs) && Distinct(ys)
    requires forall x :: x in xs ==> x !in ys
    ensures Distinct(xs + ys)
  {
    forall i, j | 0 <= i < j < |xs + ys|
      ensures (xs + ys)[i] != (xs + ys)[j]
    {
      if i < |xs| && j >= |xs| {
        assert (xs + ys)[i] in xs && (xs + ys)[j] == ys[j - |xs|];
      }
    }
  }

  /** No code occurs twice in the rows of distinct characters over a distinct alphabet. */
  lemma {:induction false} RowsDistinct(firsts: string, symbols: string)
    requires Distinct(firsts) && Distinct(symbols)
    ensures Distinct(Rows(firsts, symbols))
  {
    if firsts != [] {
      var front := firsts[..|firsts| - 1];
      var last := firsts[|firsts| - 1];
      assert Distinct(front);
      RowsDistinct(front, symbols);
      var row := RowOf(last, symbols);
      assert Distinct(row) by {
        forall i, j | 0 <= i < j < |row| ensures row[i] != row[j] {
          assert row[i][1] == symbols[i] && row[j][1] == symbols[j];
        }
      }
      forall x | x in Rows(front, symbols) ensures x !in row {
        RowsMembers(front, symbols, x);
        assert last !in front;
      }
      DistinctConcat(Rows(front, symbols), row);
    }
  }

  /** A list without repetitions has as many elements as the set of its elements. */
  lemma {:induction false} DistinctCard<T>(xs: seq<T>)
    requires Distinct(xs)
    ensures |set x | x in xs| == |xs|
  {
    if xs != [] {
      var front := xs[..|xs| - 1];
      var last := xs[|xs| - 1];
      assert Distinct(front);
      DistinctCard(front);
      assert xs == front + [last];
      assert last !in front;
      assert (set x | x in xs) == (set x | x in front) + {last};
    }
  }

  // ---------------------------------------------------------------------------------------
  // fill_missing_wmi_ranges
  // ---------------------------------------------------------------------------------------

  /** `all_possible_codes`: the nested loops over the alphabet (`SeederAlphabet` in the script). */
  method AllPossibleCodes(symbols: string) returns (codes: seq<string>)
    ensures codes == Rows(symbols, symbols)
  {
    codes := [];
    for i := 0 to |symbols|
      invariant codes == Rows(symbols[..i], symbols)
    {
      ghost var before := codes;
      var row := RowOf(symbols[i], symbols);
      for j := 0 to |symbols|
        invariant codes == before + row[..j]
      {
        assert row[..j + 1] == row[..j] + [[symbols[i], symbols[j]]];
        codes := codes + [[symbols[i], symbols[j]]];
      }
      assert symbols[..i + 1][..i] == symbols[..i] && row[..|symbols|] == row;
    }
    assert symbols[..|symbols|] == symbols;
  }

  /** The square as a set. */
  function SquareCodes(): set<string> {
    set code | code in Rows(SeederAlphabet, SeederAlphabet)
  }

  /** The square holds 33 x 33 = 1089 codes, listed once each: exactly the two-character strings
      over the alphabet. */
  lemma SquareCodesSpace(code: string)
    ensures |Rows(SeederAlphabet, SeederAlphabet)| == 1089 && Distinct(Rows(SeederAlphabet, SeederAlphabet))
    ensures |SquareCodes()| == 1089
    ensures code in SquareCodes() <==> |code| == 2 && code[0] in SeederAlphabet && code[1] in SeederAlphabet
  {
    var a := SeederAlphabet;
    RowsLength(a, a);
    SeederAlphabetDistinct();
    RowsDistinct(a, a);
    DistinctCard(Rows(a, a));
    RowsMembers(a, a, code);
  }

  /** `Country.query.filter_by(iso_alpha2='XX').first()` finds a row. */
  predicate HasUnknown(countries: seq<Country>) {
    exists c :: c in countries && c.iso2 == "XX"
  }

  /** `set(code.code for code in WmiRegionCode.query.all())` */
  function CodesIn(pairs: set<Pair>): set<string> {
    set p | p in pairs :: p.0
  }

  /** The square codes no row holds, with whatever country. */
  function Missing(pairs: set<Pair>): set<string> {
    SquareCodes() - CodesIn(pairs)
  }

  /** The rows that assign codes to the 'XX' country. */
  function UnknownPairs(codes: set<string>): set<Pair> {
    set code | code in codes :: (code, "XX")
  }

  /** The `wmi_region_codes` table after a run, and the number of rows inserted. */
  function Fill(countries: seq<Country>, pairs: set<Pair>): (set<Pair>, nat) {
    if !HasUnknown(countries) then (pairs, 0)
    else
      var missing := Missing(pairs);
      if missing == {} then (pairs, 0) else (pairs + UnknownPairs(missing), |missing|)
  }

  /** `fill_missing_wmi_ranges`: the table after the run and `inserted_count`. */
  method FillMissingRanges(db: Database) returns (inserted: nat)
    modifies db
    ensures (db.regionCodes, inserted) == Fill(old(db.countries), old(db.regionCodes))
    ensures db.countries == old(db.countries) && db.wmiRegions == old(db.wmiRegions)
    ensures db.factories == old(db.factories) && db.factoryLogos == old(db.factoryLogos)
  {
    inserted := 0;
    if !HasUnknown(db.countries) {
      return;
    }
    var all := AllPossibleCodes(SeederAlphabet);
    var existing := set p | p in db.regionCodes :: p.0;
    var missing := (set code | code in all) - existing;
    assert missing == Missing(db.regionCodes);
    if missing == {} {
      return;
    }
    inserted := AssignToUnknown(db, missing);
  }

  /** The insertion loop: each missing code becomes a row of the 'XX' country. */
  method AssignToUnknown(db: Database, missing: set<string>) returns (inserted: nat)
    modifies db
    ensures db.regionCodes == old(db.regionCodes) + UnknownPairs(missing) && inserted == |missing|
    ensures db.countries == old(db.countries) && db.wmiRegions == old(db.wmiRegions)
    ensures db.factories == old(db.factories) && db.factoryLogos == old(db.factoryLogos)
  {
    inserted := 0;
    var rest := missing;
    ghost var done: set<string> := {};
    while rest != {}
      invariant done !! rest && done + rest == missing
      invariant db.regionCodes == old(db.regionCodes) + UnknownPairs(done)
      invariant inserted == |done|
      invariant db.countries == old(db.countries) && db.wmiRegions == old(db.wmiRegions)
      invariant db.factories == old(db.factories) && db.factoryLogos == old(db.factoryLogos)
      decreases |rest|
    {
      var code :| code in rest;
      UnknownPairsAdd(done, code);
      db.regionCodes := db.regionCodes + {(code, "XX")};
      inserted := inserted + 1;
      rest := rest - {code};
      done := done + {code};
    }
  }

  lemma UnknownPairsAdd(codes: set<string>, code: string)
    ensures UnknownPairs(codes + {code}) == UnknownPairs(codes) + {(code, "XX")}
  {
  }

  // ---------------------------------------------------------------------------------------
  // What a run does to the table
  // ---------------------------------------------------------------------------------------

  /** Existing rows stay; each added row assigns a square code that no row held to 'XX'; without
      an 'XX' country nothing changes. */
  lemma FillAddsOnlyMissing(countries: seq<Country>, pairs: set<Pair>)
    ensures pairs <= Fill(countries, pairs).0
    ensures forall p :: p in Fill(countries, pairs).0 && p !in pairs ==>
      p.1 == "XX" && p.0 in SquareCodes() && p.0 !in CodesIn(pairs)
    ensures !HasUnknown(countries) ==> Fill(countries, pairs) == (pairs, 0)
  {
  }

  /** With an 'XX' country, every square code is held by some row afterwards. */
  lemma FillCompletesSquare(countries: seq<Country>, pairs: set<Pair>)
    requires HasUnknown(countries)
    ensures SquareCodes() <= CodesIn(Fill(countries, pairs).0)
  {
    var after := Fill(countries, pairs).0;
    forall code | code in SquareCodes() ensures code in CodesIn(after) {
      if code !in CodesIn(pairs) {
        assert (code, "XX") in after;
      } else {
        var p :| p in pairs && p.0 == code;
        assert p in after;
      }
    }
  }

  /** The inserted count is 1089 less the square codes already held. */
  lemma FillCount(countries: seq<Country>, pairs: set<Pair>)
    requires HasUnknown(countries)
    ensures Fill(countries, pairs).1 == 1089 - |SquareCodes() * CodesIn(pairs)|
  {
    var sq := SquareCodes();
    var held := CodesIn(pairs);
    SquareCodesSpace("");
    assert sq == (sq - held) + (sq * held);
    assert (sq - held) * (sq * held) == {};
  }

  /** A second run finds nothing missing and inserts nothing. */
  lemma FillIdempotent(countries: seq<Country>, pairs: set<Pair>)
    ensures Fill(countries, Fill(countries, pairs).0) == (Fill(countries, pairs).0, 0)
  {
    if HasUnknown(countries) {
      FillCompletesSquare(countries, pairs);
      assert Missing(Fill(countries, pairs).0) == {};
    }
  }
}
