/** src/scrape_wmi_regions.py: `format_range`, `normalize_country_name` and the three phases of
    `parse_wmi_region_table`. The HTML is replaced by its rows: each row is the list of its cells,
    and each cell its stripped text with its `colspan` and `rowspan`. */
module RegionTable {
  import opened Wrappers
  import opened Text
  import opened WmiAlphabet
  import RegionCodes

  // The scraper's COLUMN_HEADERS and VIN_CHARACTERS are both the seeders' alphabet, '0' last.

  /** A table cell: `get_text(strip=True)`, `colspan` and `rowspan` (both 1 when absent). */
  datatype Cell = Cell(text: string, colspan: int, rowspan: int)

  /** An entry of `claimed_cells`: the raw country text, the rows it still covers, its width. */
  datatype Claim = Claim(country: string, remaining: int, colspan: int)

  /** The exceptions the scraper can raise: a span past the 33rd column (IndexError on
      COLUMN_HEADERS) and a row letter outside VIN_CHARACTERS (ValueError in the sort). */
  datatype ScrapeError = ColumnOverflow | UnknownRow

  /** An entry of the output: `{"range": ..., "country": ...}`. */
  datatype Rule = Rule(range: string, country: string)

  // ---------------------------------------------------------------------------------------
  // format_range
  // ---------------------------------------------------------------------------------------

  function FormatRange(startChar: char, endChar: char, rowLetter: char): string {
    var start := [rowLetter, startChar];
    var end := [rowLetter, endChar];
    if start == end then start else start + "-" + end
  }

  /** No symbol of the alphabet is a comma, a dash or white space. */
  lemma AlphabetPlain(c: char)
    requires c in SeederAlphabet
    ensures Plain(c)
  {
    AlphabetAlphanumeric();
    var k :| 0 <= k < |SeederAlphabet| && SeederAlphabet[k] == c;
    assert Alphanumeric(SeederAlphabet[k]);
  }

  predicate Alphanumeric(c: char) {
    'A' <= c <= 'Z' || '0' <= c <= '9'
  }

  lemma AlphabetAlphanumeric()
    ensures forall k :: 0 <= k < |SeederAlphabet| ==> Alphanumeric(SeederAlphabet[k])
  {
  }

  /** `expand_range` reads a formatted range back as the row letter followed by each column
      symbol from the start to the end, both included: the two scripts agree. */
  lemma FormatRangeExpansion(rowLetter: char, x: char, y: char, code: string)
    requires rowLetter in SeederAlphabet && x in SeederAlphabet && y in SeederAlphabet
    requires IndexOf(SeederAlphabet, x) <= IndexOf(SeederAlphabet, y)
    ensures RegionCodes.DashesOk(FormatRange(x, y, rowLetter))
    ensures code in RegionCodes.Expansion(FormatRange(x, y, rowLetter)) <==>
      RegionCodes.InRange(SeederAlphabet, code, [rowLetter, x], [rowLetter, y])
  {
    AlphabetPlain(rowLetter);
    AlphabetPlain(x);
    AlphabetPlain(y);
    if x == y {
      SingleCodeExpansion(rowLetter, x, code);
      SingleCodeInRange(SeederAlphabet, rowLetter, x, code);
    } else {
      DashedCodeExpansion(rowLetter, x, y, code);
    }
  }

  /** The range from a code to itself holds that code only. */
  lemma SingleCodeInRange(symbols: string, rowLetter: char, x: char, code: string)
    requires x in symbols
    ensures RegionCodes.InRange(symbols, code, [rowLetter, x], [rowLetter, x]) <==> code == [rowLetter, x]
  {
    if RegionCodes.InRange(symbols, code, [rowLetter, x], [rowLetter, x]) {
      assert symbols[IndexOf(symbols, code[1])] == code[1];
    }
  }

  /** A character that is not a comma, a dash or white space. */
  predicate Plain(c: char) {
    c != ',' && c != '-' && !IsSpace(c)
  }

  lemma SingleCodeExpansion(rowLetter: char, x: char, code: string)
    requires Plain(rowLetter) && Plain(x)
    ensures RegionCodes.DashesOk(FormatRange(x, x, rowLetter))
    ensures code in RegionCodes.Expansion(FormatRange(x, x, rowLetter)) <==> code == [rowLetter, x]
  {
    var r := [rowLetter, x];
    assert FormatRange(x, x, rowLetter) == r;
    PlainPart(r);
  }

  /** A two-character code without comma or dash is a part of its own. */
  lemma PlainPart(r: string)
    requires |r| == 2 && Trimmed(r) && '-' !in r && ',' !in r
    ensures RegionCodes.DashesOk(r) && RegionCodes.Expansion(r) == [r]
  {
    assert RegionCodes.DashesOk(r) by {
      StripUnpadded(r);
      PlainPartOk(r);
    }
    assert RegionCodes.Expansion(r) == [r] by {
      StripUnpadded(r);
      PlainPartExpansion(r);
    }
  }

  lemma PlainPartExpansion(r: string)
    requires |r| == 2 && Strip(r) == r && '-' !in r && ',' !in r && RegionCodes.DashesOk(r)
    ensures RegionCodes.Expansion(r) == [r]
  {
    RegionCodes.PlainCodeExpansion(r);
  }

  lemma PlainPartOk(r: string)
    requires Strip(r) == r && '-' !in r && ',' !in r
    ensures RegionCodes.DashesOk(r)
  {
    assert Split(r, ',') == [r];
    CountZero(r, '-');
    assert RegionCodes.PartOk(r);
  }

  lemma DashedCodeExpansion(rowLetter: char, x: char, y: char, code: string)
    requires Plain(rowLetter) && Plain(x) && Plain(y) && x != y
    requires x in SeederAlphabet && y in SeederAlphabet
    ensures RegionCodes.DashesOk(FormatRange(x, y, rowLetter))
    ensures code in RegionCodes.Expansion(FormatRange(x, y, rowLetter)) <==>
      RegionCodes.InRange(SeederAlphabet, code, [rowLetter, x], [rowLetter, y])
  {
    var a := [rowLetter, x];
    var b := [rowLetter, y];
    var r := a + ['-'] + b;
    assert FormatRange(x, y, rowLetter) == r;
    DashedPart(a, b);
    SplitAround(a, '-', b);
    StripUnpadded(a);
    StripUnpadded(b);
    RegionCodes.DashRangeExpansion(r, code);
  }

  /** Two dash-free, comma-free codes joined by a dash form one range part. */
  lemma DashedPart(a: string, b: string)
    requires |a| == 2 && |b| == 2 && Trimmed(a) && Trimmed(b)
    requires '-' !in a && '-' !in b && ',' !in a && ',' !in b
    ensures RegionCodes.DashesOk(a + ['-'] + b) && Strip(a + ['-'] + b) == a + ['-'] + b
    ensures ',' !in a + ['-'] + b && '-' in a + ['-'] + b
  {
    var r := a + ['-'] + b;
    assert r[0] == a[0] && r[4] == b[1];
    StripUnpadded(r);
    assert Split(r, ',') == [r];
    CountZero(a, '-');
    CountZero(b, '-');
    CountAppend(a + ['-'], b, '-');
    CountAppend(a, ['-'], '-');
    assert Count(['-'], '-') == 1;
    assert RegionCodes.PartOk(r);
  }

  // ---------------------------------------------------------------------------------------
  // normalize_country_name and the cleaning in phase 1
  // ---------------------------------------------------------------------------------------

  const SmallTag: string := "<small>"

  /** The `replacements` table of `normalize_country_name`. */
  const Replacements: seq<(string, string)> := [
    ("Swaziland", "Eswatini"),
    ("UAE", "United Arab Emirates"),
    ("Dom. Rep.", "Dominican Republic"),
    ("Bosnia & Herzogovina", "Bosnia and Herzegovina"),
    ("Bosnia & Herzegovina", "Bosnia and Herzegovina")
  ]

  /** `replacements.get(name)`: the value of the first entry whose key is `name`. */
  function Lookup(table: seq<(string, string)>, name: string): (r: Option<string>)
    ensures r.Some? <==> exists k :: 0 <= k < |table| && table[k].0 == name
    ensures r.Some? ==> exists k :: 0 <= k < |table| && table[k].0 == name && table[k].1 == r.value
  {
    if table == [] then None
    else if table[0].0 == name then Some(table[0].1)
    else
      var r := Lookup(table[1..], name);
      assert forall k :: 0 < k < |table| ==> table[k] == table[1..][k - 1];
      r
  }

  function Replacement(name: string): Option<string> {
    Lookup(Replacements, name)
  }

  /** A name with no white space at either end. */
  predicate Trimmed(s: string) {
    s == [] || (!IsSpace(s[0]) && !IsSpace(s[|s| - 1]))
  }

  /** An official name: no tag, no parenthesis, no white space at either end. */
  predicate PlainName(s: string) {
    s != [] && '<' !in s && '(' !in s && Trimmed(s)
  }

  /** The official names of the table are plain... */
  lemma OfficialNamesPlain()
    ensures forall k :: 0 <= k < |Replacements| ==> PlainName(Replacements[k].1)
  {
    assert PlainName("Eswatini");
    assert PlainName("United Arab Emirates");
    assert PlainName("Dominican Republic");
    assert PlainName("Bosnia and Herzegovina");
  }

  /** ...and none of them is itself a key of the table. */
  lemma OfficialNamesUnlisted()
    ensures forall k, j :: 0 <= k < |Replacements| && 0 <= j < |Replacements| ==> Replacements[k].1 != Replacements[j].0
  {
    forall k, j | 0 <= k < |Replacements| && 0 <= j < |Replacements|
      ensures Replacements[k].1 != Replacements[j].0
    {
      assert Replacements[k].1[0] != Replacements[j].0[0] || |Replacements[k].1| != |Replacements[j].0|;
    }
  }

  /** The official names hold no tag, no parenthesis and no outer white space, and are not
      themselves replaced. */
  lemma ReplacementPlain(name: string)
    requires Replacement(name).Some?
    ensures PlainName(Replacement(name).value) && Replacement(Replacement(name).value).None?
  {
    OfficialNamesPlain();
    OfficialNamesUnlisted();
  }

  function NormalizeCountryName(country: string): string {
    var name := Strip(BeforeFirst(country, SmallTag));
    match Replacement(name)
    case Some(official) => official
    case None => name
  }

  /** A name outside the table, already stripped and without a `<small>` tag, is unchanged. */
  lemma NormalizeUnlisted(country: string)
    requires !IsSubstring(SmallTag, country) && Trimmed(country) && Replacement(country).None?
    ensures NormalizeCountryName(country) == country
  {
    BeforeFirstAbsent(country, SmallTag);
    StripUnpadded(country);
  }

  /** Everything from the first `<small>` on is dropped, and the rest stripped before lookup. */
  lemma NormalizeDropsSmall(name: string, tail: string)
    requires '<' !in name
    ensures NormalizeCountryName(name + SmallTag + tail) == NormalizeCountryName(name)
  {
    BeforeFirstLead(name, SmallTag, tail);
    AbsentLead(SmallTag, name);
    BeforeFirstAbsent(name, SmallTag);
  }

  /** A stripped name without a `<small>` tag is looked up as it is: replaced when listed,
      unchanged otherwise. */
  lemma NormalizeTrimmed(name: string)
    requires '<' !in name && Trimmed(name)
    ensures NormalizeCountryName(name) == Replacement(name).GetOr(name)
  {
    AbsentLead(SmallTag, name);
    BeforeFirstAbsent(name, SmallTag);
    StripUnpadded(name);
  }

  /** For example `UAE` becomes `United Arab Emirates`. */
  lemma NormalizeUae()
    ensures NormalizeCountryName("UAE") == "United Arab Emirates"
  {
    NormalizeTrimmed("UAE");
  }

  /** Normalizing twice is normalizing once. */
  lemma NormalizeIdempotent(country: string)
    ensures NormalizeCountryName(NormalizeCountryName(country)) == NormalizeCountryName(country)
  {
    var before := BeforeFirst(country, SmallTag);
    var name := Strip(before);
    BeforeFirstFree(country, SmallTag);
    StripAbsent(SmallTag, before);
    BeforeFirstAbsent(name, SmallTag);
    StripIdempotent(before);
    match Replacement(name)
    case None =>
    case Some(official) =>
      ReplacementPlain(name);
      AbsentLead(SmallTag, official);
      NormalizeUnlisted(official);
  }

  /** What phase 1 writes for a country text: normalized, `<small>` tags removed, and cut
      before the first parenthesis, stripped. */
  function CleanCountry(text: string): string {
    CutParen(ReplaceAll(ReplaceAll(NormalizeCountryName(text), SmallTag, ""), "</small>", ""))
  }

  /** `name.split('(')[0].strip()` */
  function CutParen(name: string): string {
    Strip(Split(name, '(')[0])
  }

  /** A cleaned country has no parenthesis and no white space at either end. */
  lemma CleanCountryShape(text: string)
    ensures '(' !in CleanCountry(text) && Trimmed(CleanCountry(text))
  {
    CutParenShape(ReplaceAll(ReplaceAll(NormalizeCountryName(text), SmallTag, ""), "</small>", ""));
  }

  lemma CutParenShape(name: string)
    ensures '(' !in CutParen(name) && Trimmed(CutParen(name))
  {
    var before := Split(name, '(')[0];
    assert before in Split(name, '(');
    StripSlice(before, '(');
  }

  /** A plain name (no tag, no parenthesis, stripped, not in the table) is written as is. */
  lemma CleanPlain(text: string)
    requires '<' !in text && '(' !in text && Trimmed(text) && Replacement(text).None?
    ensures CleanCountry(text) == text
  {
    AbsentLead(SmallTag, text);
    NormalizeUnlisted(text);
    ReplaceAllAbsent(text, SmallTag, "");
    ReplaceAllAbsent(text, "</small>", "");
    StripUnpadded(text);
  }

  /** A listed spelling is written as its official name. */
  lemma CleanListed(text: string)
    requires Replacement(Strip(BeforeFirst(text, SmallTag))).Some?
    ensures CleanCountry(text) == Replacement(Strip(BeforeFirst(text, SmallTag))).value
  {
    var official := Replacement(Strip(BeforeFirst(text, SmallTag))).value;
    ReplacementPlain(Strip(BeforeFirst(text, SmallTag)));
    ReplaceAllAbsent(official, SmallTag, "");
    ReplaceAllAbsent(official, "</small>", "");
    StripUnpadded(official);
  }

  // ---------------------------------------------------------------------------------------
  // Phase 1: the column loop over one data row
  // ---------------------------------------------------------------------------------------

  /** `row_letter + COLUMN_HEADERS[i]` */
  function CodeAt(rowLetter: char, col: nat): string
    requires col < |SeederAlphabet|
  {
    [rowLetter, SeederAlphabet[col]]
  }

  /** The column of a symbol is its index: no symbol occurs twice. */
  lemma ColumnIndex(i: nat)
    requires i < |SeederAlphabet|
    ensures IndexOf(SeederAlphabet, SeederAlphabet[i]) == i
  {
    SeederAlphabetDistinct();
    IndexOfDistinct(SeederAlphabet, i);
  }

  /** Codes of different columns differ. */
  lemma CodeAtInjective(rowLetter: char, i: nat, j: nat)
    requires i < |SeederAlphabet| && j < |SeederAlphabet| && i != j
    ensures CodeAt(rowLetter, i) != CodeAt(rowLetter, j)
  {
    ColumnIndex(i);
    ColumnIndex(j);
  }

  /** `code` is one of the `n` codes from column `col` of the row. */
  predicate Painted(code: string, rowLetter: char, col: nat, n: nat) {
    exists i :: col <= i < col + n && i < |SeederAlphabet| && code == CodeAt(rowLetter, i)
  }

  /** The inner `for` loop: `wmi_map[row_letter + COLUMN_HEADERS[i]] = country` for each of the
      `n` columns from `col`. */
  function Paint(wmiMap: map<string, string>, rowLetter: char, col: nat, n: nat, country: string): map<string, string>
    requires col + n <= |SeederAlphabet|
  {
    if n == 0 then wmiMap
    else Paint(wmiMap, rowLetter, col, n - 1, country)[CodeAt(rowLetter, col + n - 1) := country]
  }

  /** Painting sets each spanned code to the country... */
  lemma {:induction false} PaintSets(wmiMap: map<string, string>, rowLetter: char, col: nat, n: nat, country: string)
    requires col + n <= |SeederAlphabet|
    ensures var r := Paint(wmiMap, rowLetter, col, n, country);
      forall i :: col <= i < col + n ==> CodeAt(rowLetter, i) in r && r[CodeAt(rowLetter, i)] == country
  {
    if n > 0 {
      PaintSets(wmiMap, rowLetter, col, n - 1, country);
      forall i | col <= i < col + n - 1 {
        CodeAtInjective(rowLetter, i, col + n - 1);
      }
    }
  }

  /** ...keeps every code already present... */
  lemma {:induction false} PaintGrows(wmiMap: map<string, string>, rowLetter: char, col: nat, n: nat, country: string)
    requires col + n <= |SeederAlphabet|
    ensures wmiMap.Keys <= Paint(wmiMap, rowLetter, col, n, country).Keys
  {
    if n > 0 {
      PaintGrows(wmiMap, rowLetter, col, n - 1, country);
    }
  }

  /** ...and changes nothing else. */
  lemma {:induction false} PaintOnly(wmiMap: map<string, string>, rowLetter: char, col: nat, n: nat, country: string)
    requires col + n <= |SeederAlphabet|
    ensures var r := Paint(wmiMap, rowLetter, col, n, country);
      forall code :: code in r && !Painted(code, rowLetter, col, n) ==> code in wmiMap && r[code] == wmiMap[code]
  {
    if n > 0 {
      PaintOnly(wmiMap, rowLetter, col, n - 1, country);
    }
  }

  /** Painting leaves the codes of the other columns of the row as they were. */
  lemma PaintKeeps(wmiMap: map<string, string>, rowLetter: char, col: nat, n: nat, country: string, i: nat)
    requires col + n <= |SeederAlphabet| && i < |SeederAlphabet| && (i < col || col + n <= i)
    ensures var r := Paint(wmiMap, rowLetter, col, n, country);
      (CodeAt(rowLetter, i) in r <==> CodeAt(rowLetter, i) in wmiMap) &&
      (CodeAt(rowLetter, i) in wmiMap ==> r[CodeAt(rowLetter, i)] == wmiMap[CodeAt(rowLetter, i)])
  {
    PaintGrows(wmiMap, rowLetter, col, n, country);
    PaintOnly(wmiMap, rowLetter, col, n, country);
    if Painted(CodeAt(rowLetter, i), rowLetter, col, n) {
      var j :| col <= j < col + n && j < |SeederAlphabet| && CodeAt(rowLetter, i) == CodeAt(rowLetter, j);
      CodeAtInjective(rowLetter, i, j);
    }
  }

  /** The inner `for` loop as written; it raises IndexError at the first column past the last. */
  method PaintSpan(wmiMap: map<string, string>, rowLetter: char, col: nat, n: nat, country: string)
    returns (r: Result<map<string, string>, ScrapeError>)
    requires col < |SeederAlphabet|
    ensures col + n <= |SeederAlphabet| ==> r == Success(Paint(wmiMap, rowLetter, col, n, country))
    ensures col + n > |SeederAlphabet| ==> r == Failure(ColumnOverflow)
  {
    var m := wmiMap;
    for i := col to col + n
      invariant i <= |SeederAlphabet|
      invariant m == Paint(wmiMap, rowLetter, col, i - col, country)
    {
      if i >= |SeederAlphabet| {
        return Failure(ColumnOverflow);
      }
      m := m[CodeAt(rowLetter, i) := country];
    }
    return Success(m);
  }

  /** Every cell of the row has a positive `colspan`. */
  predicate CellsOk(cells: seq<Cell>) {
    forall k :: 0 <= k < |cells| ==> cells[k].colspan >= 1
  }

  /** Every claim has a positive width. */
  predicate ClaimsOk(claims: map<int, Claim>) {
    forall col :: col in claims ==> claims[col].colspan >= 1
  }

  /** What one turn of the column loop reads at `col`, with the claims and cell cursor after it:
      the claim on that column, else the next unread cell, else nothing. The empty country stands
      for both `None` and `''`, which the loop treats alike. */
  datatype Slot = Slot(country: string, colspan: int, claims: map<int, Claim>, cursor: nat)

  function ReadSlot(cells: seq<Cell>, claimed: map<int, Claim>, col: nat, claims: map<int, Claim>, cursor: nat): (s: Slot)
    requires CellsOk(cells) && ClaimsOk(claimed)
    ensures s.colspan >= 1
  {
    if col in claimed then
      var c := claimed[col];
      Slot(c.country, c.colspan, claims[col := c.(remaining := c.remaining - 1)], cursor)
    else if cursor < |cells| then
      var cell := cells[cursor];
      var next := if cell.rowspan > 1 && cell.text != "" then claims[col := Claim(cell.text, cell.rowspan - 1, cell.colspan)] else claims;
      Slot(cell.text, cell.colspan, next, cursor + 1)
    else
      Slot("", 1, claims, cursor)
  }

  /** Steps 1 and 2 of a turn of the column loop as written. */
  method TakeSlot(cells: seq<Cell>, claimed: map<int, Claim>, col: nat, claims: map<int, Claim>, cursor: nat)
    returns (s: Slot)
    requires CellsOk(cells) && ClaimsOk(claimed)
    ensures s == ReadSlot(cells, claimed, col, claims, cursor)
  {
    var country := "";
    var colspan := 1;
    var newClaimed := claims;
    var cellCursor := cursor;
    if col in claimed {
      var c := claimed[col];
      country, colspan := c.country, c.colspan;
      newClaimed := newClaimed[col := c.(remaining := c.remaining - 1)];
    } else if cellCursor < |cells| {
      var cell := cells[cellCursor];
      colspan := cell.colspan;
      country := cell.text;
      if cell.rowspan > 1 {
        if country != "" {
          newClaimed := newClaimed[col := Claim(country, cell.rowspan - 1, colspan)];
        }
      }
      cellCursor := cellCursor + 1;
    }
    return Slot(country, colspan, newClaimed, cellCursor);
  }

  /** The state of phase 1: `wmi_map`, `new_claimed_cells` and `cell_cursor`. */
  datatype Fill = Fill(wmiMap: map<string, string>, claims: map<int, Claim>, cursor: nat)

  /** The `wmi_map` after step 3 of a turn: the span painted with the cleaned country, or
      unchanged when the turn has no country. */
  function Turn(wmiMap: map<string, string>, rowLetter: char, col: nat, slot: Slot, clean: string -> string): map<string, string>
    requires slot.colspan >= 1 && (slot.country == "" || col + slot.colspan <= |SeederAlphabet|)
  {
    if slot.country == "" then wmiMap
    else Paint(wmiMap, rowLetter, col, slot.colspan, clean(slot.country))
  }

  /** The column loop from `col_cursor == col` to the end of the row; a span past the last
      column raises. */
  function FillFrom(rowLetter: char, cells: seq<Cell>, claimed: map<int, Claim>, col: nat, st: Fill, clean: string -> string): Result<Fill, ScrapeError>
    requires CellsOk(cells) && ClaimsOk(claimed)
    decreases |SeederAlphabet| - col
  {
    if col >= |SeederAlphabet| then Success(st)
    else
      var slot := ReadSlot(cells, claimed, col, st.claims, st.cursor);
      if slot.country != "" && col + slot.colspan > |SeederAlphabet| then Failure(ColumnOverflow)
      else
        var next := Fill(Turn(st.wmiMap, rowLetter, col, slot, clean), slot.claims, slot.cursor);
        FillFrom(rowLetter, cells, claimed, col + slot.colspan, next, clean)
  }

  /** The state after the turn at `col`, when that turn does not raise. */
  function Next(rowLetter: char, cells: seq<Cell>, claimed: map<int, Claim>, col: nat, st: Fill, clean: string -> string): Fill
    requires CellsOk(cells) && ClaimsOk(claimed)
    requires var slot := ReadSlot(cells, claimed, col, st.claims, st.cursor);
      slot.country == "" || col + slot.colspan <= |SeederAlphabet|
  {
    var slot := ReadSlot(cells, claimed, col, st.claims, st.cursor);
    Fill(Turn(st.wmiMap, rowLetter, col, slot, clean), slot.claims, slot.cursor)
  }

  /** A turn that does not raise hands the rest of the row to the next turn, at the column after
      its span; a turn whose span passes the last column raises. */
  lemma FillStep(rowLetter: char, cells: seq<Cell>, claimed: map<int, Claim>, col: nat, st: Fill, clean: string -> string)
    requires CellsOk(cells) && ClaimsOk(claimed) && col < |SeederAlphabet|
    ensures var slot := ReadSlot(cells, claimed, col, st.claims, st.cursor);
      if slot.country != "" && col + slot.colspan > |SeederAlphabet| then
        FillFrom(rowLetter, cells, claimed, col, st, clean) == Failure(ColumnOverflow)
      else
        FillFrom(rowLetter, cells, claimed, col, st, clean) ==
        FillFrom(rowLetter, cells, claimed, col + slot.colspan, Next(rowLetter, cells, claimed, col, st, clean), clean)
  {
  }

  /** `code` is the code of one of the columns from `col` to the last in the row. */
  predicate InRowFrom(code: string, rowLetter: char, col: nat) {
    exists i :: col <= i < |SeederAlphabet| && code == CodeAt(rowLetter, i)
  }

  /** The rest of the row leaves alone every code that is not one of its own columns from `col`
      on: the codes of other rows and of the columns already done. */
  lemma {:induction false} FillKeeps(rowLetter: char, cells: seq<Cell>, claimed: map<int, Claim>, col: nat, st: Fill,
                                     clean: string -> string, f: Fill, code: string)
    requires CellsOk(cells) && ClaimsOk(claimed)
    requires FillFrom(rowLetter, cells, claimed, col, st, clean) == Success(f)
    requires !InRowFrom(code, rowLetter, col)
    ensures (code in f.wmiMap <==> code in st.wmiMap) && (code in st.wmiMap ==> f.wmiMap[code] == st.wmiMap[code])
    decreases |SeederAlphabet| - col
  {
    if col < |SeederAlphabet| {
      var slot := ReadSlot(cells, claimed, col, st.claims, st.cursor);
      FillStep(rowLetter, cells, claimed, col, st, clean);
      var next := Next(rowLetter, cells, claimed, col, st, clean);
      if slot.country != "" {
        PaintGrows(st.wmiMap, rowLetter, col, slot.colspan, clean(slot.country));
        PaintOnly(st.wmiMap, rowLetter, col, slot.colspan, clean(slot.country));
      }
      FillKeeps(rowLetter, cells, claimed, col + slot.colspan, next, clean, f, code);
    }
  }

  /** Every column in the span of a turn with a country ends up with that cleaned country: no
      later turn of the row writes there again. */
  lemma SpanFilled(rowLetter: char, cells: seq<Cell>, claimed: map<int, Claim>, col: nat, st: Fill,
                   clean: string -> string, f: Fill, i: nat)
    requires CellsOk(cells) && ClaimsOk(claimed) && col < |SeederAlphabet|
    requires FillFrom(rowLetter, cells, claimed, col, st, clean) == Success(f)
    requires var slot := ReadSlot(cells, claimed, col, st.claims, st.cursor);
      slot.country != "" && col <= i < col + slot.colspan
    ensures var slot := ReadSlot(cells, claimed, col, st.claims, st.cursor);
      i < |SeederAlphabet| && CodeAt(rowLetter, i) in f.wmiMap && f.wmiMap[CodeAt(rowLetter, i)] == clean(slot.country)
  {
    var slot := ReadSlot(cells, claimed, col, st.claims, st.cursor);
    var end, next := FillPainted(rowLetter, cells, claimed, col, st, clean, f);
    var code := CodeAt(rowLetter, i);
    PaintSets(st.wmiMap, rowLetter, col, slot.colspan, clean(slot.country));
    NotLater(rowLetter, i, end);
    FillKeeps(rowLetter, cells, claimed, end, next, clean, f, code);
  }

  /** A turn with a country that does not raise paints its span and hands on. */
  lemma FillPainted(rowLetter: char, cells: seq<Cell>, claimed: map<int, Claim>, col: nat, st: Fill,
                    clean: string -> string, f: Fill) returns (end: nat, next: Fill)
    requires CellsOk(cells) && ClaimsOk(claimed) && col < |SeederAlphabet|
    requires FillFrom(rowLetter, cells, claimed, col, st, clean) == Success(f)
    requires ReadSlot(cells, claimed, col, st.claims, st.cursor).country != ""
    ensures var slot := ReadSlot(cells, claimed, col, st.claims, st.cursor);
      end == col + slot.colspan <= |SeederAlphabet| &&
      next == Fill(Paint(st.wmiMap, rowLetter, col, slot.colspan, clean(slot.country)), slot.claims, slot.cursor)
    ensures FillFrom(rowLetter, cells, claimed, end, next, clean) == Success(f)
  {
    var slot := ReadSlot(cells, claimed, col, st.claims, st.cursor);
    FillStep(rowLetter, cells, claimed, col, st, clean);
    end := col + slot.colspan;
    next := Fill(Paint(st.wmiMap, rowLetter, col, slot.colspan, clean(slot.country)), slot.claims, slot.cursor);
  }

  /** The code of a column before `col` is not one of the columns from `col` on. */
  lemma NotLater(rowLetter: char, i: nat, col: nat)
    requires i < col && i < |SeederAlphabet|
    ensures !InRowFrom(CodeAt(rowLetter, i), rowLetter, col)
  {
    if InRowFrom(CodeAt(rowLetter, i), rowLetter, col) {
      var j :| col <= j < |SeederAlphabet| && CodeAt(rowLetter, i) == CodeAt(rowLetter, j);
      CodeAtInjective(rowLetter, i, j);
    }
  }

  /** Where a claim of `new_claimed_cells` comes from: the claim on its column from the rows
      above, one row used up, or a cell of this row (never the row letter's) that spans more rows
      and has a text. */
  predicate ClaimOrigin(cells: seq<Cell>, claimed: map<int, Claim>, col: int, c: Claim) {
    (col in claimed && c == claimed[col].(remaining := claimed[col].remaining - 1)) ||
    (col !in claimed && exists t :: 1 <= t < |cells| && FreshClaim(cells, t, c))
  }

  /** The cell at `t` (not the row letter's) spans more rows, has a text, and claims `c`. */
  predicate FreshClaim(cells: seq<Cell>, t: int, c: Claim) {
    1 <= t < |cells| && cells[t].rowspan > 1 && cells[t].text != "" &&
    c == Claim(cells[t].text, cells[t].rowspan - 1, cells[t].colspan)
  }

  predicate ClaimsTraced(cells: seq<Cell>, claimed: map<int, Claim>, claims: map<int, Claim>) {
    forall col :: col in claims ==> ClaimOrigin(cells, claimed, col, claims[col])
  }

  /** One turn keeps the claims it builds well formed and traced. */
  lemma SlotClaims(cells: seq<Cell>, claimed: map<int, Claim>, col: nat, claims: map<int, Claim>, cursor: nat)
    requires CellsOk(cells) && ClaimsOk(claimed) && ClaimsOk(claims) && cursor >= 1
    requires ClaimsTraced(cells, claimed, claims)
    ensures var slot := ReadSlot(cells, claimed, col, claims, cursor);
      ClaimsOk(slot.claims) && ClaimsTraced(cells, claimed, slot.claims) && slot.cursor >= 1
  {
    var slot := ReadSlot(cells, claimed, col, claims, cursor);
    if col !in claimed && cursor < |cells| {
      if cells[cursor].rowspan > 1 && cells[cursor].text != "" {
        assert FreshClaim(cells, cursor, Claim(cells[cursor].text, cells[cursor].rowspan - 1, cells[cursor].colspan));
      }
    }
  }

  /** The claims built by the rest of the row stay well formed and traced. */
  lemma {:induction false} FillClaims(rowLetter: char, cells: seq<Cell>, claimed: map<int, Claim>, col: nat, st: Fill,
                                      clean: string -> string)
    requires CellsOk(cells) && ClaimsOk(claimed) && ClaimsOk(st.claims) && st.cursor >= 1
    requires ClaimsTraced(cells, claimed, st.claims)
    requires FillFrom(rowLetter, cells, claimed, col, st, clean).Success?
    ensures var f := FillFrom(rowLetter, cells, claimed, col, st, clean).value;
      ClaimsOk(f.claims) && ClaimsTraced(cells, claimed, f.claims)
    decreases |SeederAlphabet| - col
  {
    if col < |SeederAlphabet| {
      var slot := ReadSlot(cells, claimed, col, st.claims, st.cursor);
      FillStep(rowLetter, cells, claimed, col, st, clean);
      SlotClaims(cells, claimed, col, st.claims, st.cursor);
      FillClaims(rowLetter, cells, claimed, col + slot.colspan, Next(rowLetter, cells, claimed, col, st, clean), clean);
    }
  }

  /** Phase 1 as written: a `while` loop over `col_cursor` with the inner `for` loop over a span.
      The cleaning of step 3 is `clean` (the scraper passes `CleanCountry`). */
  method FillRow(rowLetter: char, cells: seq<Cell>, claimed: map<int, Claim>, wmiMap: map<string, string>, clean: string -> string)
    returns (r: Result<Fill, ScrapeError>)
    requires CellsOk(cells) && ClaimsOk(claimed)
    ensures r == FillFrom(rowLetter, cells, claimed, 0, Fill(wmiMap, map[], 1), clean)
  {
    var m := wmiMap;
    var colCursor := 0;
    var cellCursor := 1;
    var newClaimed: map<int, Claim> := map[];
    ghost var goal := FillFrom(rowLetter, cells, claimed, 0, Fill(wmiMap, map[], 1), clean);
    while colCursor < |SeederAlphabet|
      invariant FillFrom(rowLetter, cells, claimed, colCursor, Fill(m, newClaimed, cellCursor), clean) == goal
      decreases |SeederAlphabet| - colCursor
    {
      ghost var st := Fill(m, newClaimed, cellCursor);
      var slot := TakeSlot(cells, claimed, colCursor, newClaimed, cellCursor);
      var country, colspan := slot.country, slot.colspan;
      newClaimed, cellCursor := slot.claims, slot.cursor;
      FillStep(rowLetter, cells, claimed, colCursor, st, clean);
      if country != "" {
        var painted := PaintSpan(m, rowLetter, colCursor, colspan, clean(country));
        if painted.Failure? {
          return Failure(ColumnOverflow);
        }
        m := painted.value;
      }
      colCursor := colCursor + colspan;
    }
    return Success(Fill(m, newClaimed, cellCursor));
  }

  /** Every key of the map is a row letter followed by a column symbol. */
  predicate Shaped(code: string) {
    |code| == 2 && exists j :: 0 <= j < |SeederAlphabet| && code == CodeAt(code[0], j)
  }

  predicate KeysShaped(wmiMap: map<string, string>) {
    forall code :: code in wmiMap ==> Shaped(code)
  }

  /** The row writes only codes of its own letter. */
  lemma FillShaped(rowLetter: char, cells: seq<Cell>, claimed: map<int, Claim>, col: nat, st: Fill,
                   clean: string -> string, f: Fill)
    requires CellsOk(cells) && ClaimsOk(claimed) && KeysShaped(st.wmiMap)
    requires FillFrom(rowLetter, cells, claimed, col, st, clean) == Success(f)
    ensures KeysShaped(f.wmiMap)
  {
    forall code | code in f.wmiMap
      ensures Shaped(code)
    {
      if InRowFrom(code, rowLetter, col) {
        var i :| col <= i < |SeederAlphabet| && code == CodeAt(rowLetter, i);
        assert code[0] == rowLetter;
      } else {
        FillKeeps(rowLetter, cells, claimed, col, st, clean, f, code);
      }
    }
  }

  // ---------------------------------------------------------------------------------------
  // Phase 2 and the row loop
  // ---------------------------------------------------------------------------------------

  /** Phase 2: the claims with rows left over are carried to the next row. */
  function Prune(claims: map<int, Claim>): map<int, Claim> {
    map col | col in claims && claims[col].remaining > 0 :: claims[col]
  }

  /** The state the row loop carries: `wmi_map` and `claimed_cells`. */
  datatype Scan = Scan(wmiMap: map<string, string>, claimed: map<int, Claim>)

  /** `is_header_row`: the first cell's stripped text is empty, a no-break space or a space. */
  predicate IsHeaderRow(cells: seq<Cell>) {
    |cells| > 0 && (cells[0].text == "" || cells[0].text == "\U{00A0}" || cells[0].text == " ")
  }

  /** A row the loop fills: not a header, not a row without content cells while nothing is
      claimed, and with a one-character row letter in its first cell. */
  predicate DataRow(cells: seq<Cell>, claimed: map<int, Claim>) {
    !IsHeaderRow(cells) && !(|cells| < 2 && claimed == map[]) && |cells| > 0 && |cells[0].text| == 1
  }

  /** One turn of the row loop. */
  function ScrapeRow(s: Scan, cells: seq<Cell>): Result<Scan, ScrapeError>
    requires CellsOk(cells) && ClaimsOk(s.claimed)
  {
    if IsHeaderRow(cells) then Success(s)
    else if |cells| < 2 && s.claimed == map[] then Success(s)
    else if |cells| == 0 || |cells[0].text| != 1 then Success(s)
    else
      match FillFrom(cells[0].text[0], cells, s.claimed, 0, Fill(s.wmiMap, map[], 1), CleanCountry)
      case Failure(e) => Failure(e)
      case Success(f) => Success(Scan(f.wmiMap, Prune(f.claims)))
  }

  /** A skipped row changes nothing; after a filled row every claim has rows left and comes from
      the claim on its column one row used up, or from a cell of the row with a text and a
      `rowspan` above 1; the keys stay codes and the claims well formed. */
  lemma RowClaims(s: Scan, cells: seq<Cell>)
    requires CellsOk(cells) && ClaimsOk(s.claimed) && KeysShaped(s.wmiMap)
    requires ScrapeRow(s, cells).Success?
    ensures var r := ScrapeRow(s, cells).value;
      KeysShaped(r.wmiMap) && ClaimsOk(r.claimed) &&
      (!DataRow(cells, s.claimed) ==> r == s) &&
      (DataRow(cells, s.claimed) ==> forall col :: col in r.claimed ==>
         r.claimed[col].remaining >= 1 && ClaimOrigin(cells, s.claimed, col, r.claimed[col]))
  {
    if DataRow(cells, s.claimed) {
      var start := Fill(s.wmiMap, map[], 1);
      var f := FillFrom(cells[0].text[0], cells, s.claimed, 0, start, CleanCountry).value;
      FillClaims(cells[0].text[0], cells, s.claimed, 0, start, CleanCountry);
      FillShaped(cells[0].text[0], cells, s.claimed, 0, start, CleanCountry, f);
    }
  }

  /** Every row has cells of positive width. */
  predicate RowsOk(rows: seq<seq<Cell>>) {
    forall k :: 0 <= k < |rows| ==> CellsOk(rows[k])
  }

  /** The row loop over the rows of the table, in order. */
  function ScrapeAll(rows: seq<seq<Cell>>): (r: Result<Scan, ScrapeError>)
    requires RowsOk(rows)
    ensures r.Success? ==> ClaimsOk(r.value.claimed) && KeysShaped(r.value.wmiMap)
  {
    if rows == [] then Success(Scan(map[], map[]))
    else
      match ScrapeAll(rows[..|rows| - 1])
      case Failure(e) => Failure(e)
      case Success(s) =>
        var r := ScrapeRow(s, rows[|rows| - 1]);
        if r.Success? then RowClaims(s, rows[|rows| - 1]); r else r
  }

  /** An exception ends the loop: the rows after it are not read. */
  lemma {:induction false} FailureStops(rows: seq<seq<Cell>>, k: nat)
    requires RowsOk(rows) && k <= |rows| && ScrapeAll(rows[..k]).Failure?
    ensures ScrapeAll(rows) == ScrapeAll(rows[..k])
    decreases |rows|
  {
    if k < |rows| {
      var front := rows[..|rows| - 1];
      assert front[..k] == rows[..k];
      FailureStops(front, k);
    } else {
      assert rows[..k] == rows;
    }
  }

  /** Phases 1 and 2 as written: the `for` loop over the rows. */
  method ScrapeRows(rows: seq<seq<Cell>>) returns (r: Result<Scan, ScrapeError>)
    requires RowsOk(rows)
    ensures r == ScrapeAll(rows)
  {
    var wmiMap: map<string, string> := map[];
    var claimed: map<int, Claim> := map[];
    for k := 0 to |rows|
      invariant ScrapeAll(rows[..k]) == Success(Scan(wmiMap, claimed))
    {
      assert rows[..k + 1][..k] == rows[..k];
      var cells := rows[k];
      if IsHeaderRow(cells) {
        continue;
      }
      if |cells| < 2 && claimed == map[] {
        continue;
      }
      if |cells| == 0 || |cells[0].text| != 1 {
        continue;
      }
      var filled := FillRow(cells[0].text[0], cells, claimed, wmiMap, CleanCountry);
      if filled.Failure? {
        FailureStops(rows, k + 1);
        return Failure(filled.error);
      }
      wmiMap := filled.value.wmiMap;
      claimed := Prune(filled.value.claims);
    }
    assert rows[..|rows|] == rows;
    return Success(Scan(wmiMap, claimed));
  }
}
