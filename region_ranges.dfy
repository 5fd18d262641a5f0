/** src/scrape_wmi_regions.py, phase 3 of `parse_wmi_region_table`: the codes of each row, in
    column order, are collapsed into range strings, one per run of equal countries; the rows come
    out in alphabet order. */
module RegionRanges {
  import opened Wrappers
  import opened Text
  import opened WmiAlphabet
  import RegionCodes
  import opened RegionTable

  // ---------------------------------------------------------------------------------------
  // Runs and segments of one row
  // ---------------------------------------------------------------------------------------

  /** A code of the row, by its column, with its country. */
  datatype Item = Item(col: nat, country: string)

  /** The codes of a row sorted by column (`codes_in_row`), all within the 33 columns. */
  predicate Ascending(items: seq<Item>) {
    (forall a, b :: 0 <= a < b < |items| ==> items[a].col < items[b].col) &&
    (forall a :: 0 <= a < |items| ==> items[a].col < |SeederAlphabet|)
  }

  /** The index of the first code after `i` whose country differs from that of `i`, or the end
      of the row. */
  function RunEnd(items: seq<Item>, i: nat): (e: nat)
    requires i < |items|
    ensures i < e <= |items|
    decreases |items| - i
  {
    if i + 1 < |items| && items[i + 1].country == items[i].country then RunEnd(items, i + 1) else i + 1
  }

  /** Every code of a run has the country of its first code... */
  lemma {:induction false} RunEndSame(items: seq<Item>, i: nat, j: nat)
    requires i <= j < |items| && j < RunEnd(items, i)
    ensures items[j].country == items[i].country
    decreases j - i
  {
    if i < j {
      RunEndSame(items, i + 1, j);
    }
  }

  /** ...and the code that ends it has another. */
  lemma {:induction false} RunEndDiffers(items: seq<Item>, i: nat)
    requires i < |items| && RunEnd(items, i) < |items|
    ensures items[RunEnd(items, i)].country != items[i].country
    decreases |items| - i
  {
    if i + 1 < |items| && items[i + 1].country == items[i].country {
      RunEndDiffers(items, i + 1);
    }
  }

  /** A range of columns `first..last` of a row, both included, with its country. */
  datatype Segment = Segment(first: nat, last: nat, country: string)

  /** The ranges phase 3 emits for the codes from index `i` on, `i` starting a run: one per run,
      from the run's first column to the column before the code that ends it (gaps included), or
      to the row's last code; a run without a country emits nothing. */
  function SegsFrom(items: seq<Item>, i: nat): seq<Segment>
    requires Ascending(items) && i <= |items|
    decreases |items| - i
  {
    if i == |items| then []
    else
      var e := RunEnd(items, i);
      var last := if e < |items| then items[e].col - 1 else items[|items| - 1].col;
      (if items[i].country != "" then [Segment(items[i].col, last, items[i].country)] else []) + SegsFrom(items, e)
  }

  function Segs(items: seq<Item>): seq<Segment>
    requires Ascending(items)
  {
    SegsFrom(items, 0)
  }

  /** The segments lie between two columns and have a country. */
  predicate Within(segs: seq<Segment>, lo: nat, hi: nat) {
    forall k :: 0 <= k < |segs| ==> lo <= segs[k].first <= segs[k].last <= hi && segs[k].country != ""
  }

  /** Each segment ends before the next one starts. */
  predicate Ordered(segs: seq<Segment>) {
    forall a, b :: 0 <= a < b < |segs| ==> segs[a].last < segs[b].first
  }

  /** The segments from `i` lie between the column of `i` and the row's last column. */
  lemma {:induction false} SegsWithin(items: seq<Item>, i: nat)
    requires Ascending(items) && i < |items|
    ensures Within(SegsFrom(items, i), items[i].col, items[|items| - 1].col)
    decreases |items| - i
  {
    var e := RunEnd(items, i);
    if e < |items| {
      SegsWithin(items, e);
    }
  }

  /** The ranges of a row are disjoint and in column order. */
  lemma {:induction false} SegsOrdered(items: seq<Item>, i: nat)
    requires Ascending(items) && i <= |items|
    ensures Ordered(SegsFrom(items, i))
    decreases |items| - i
  {
    if i < |items| {
      var e := RunEnd(items, i);
      SegsOrdered(items, e);
      if e < |items| {
        SegsWithin(items, e);
      }
    }
  }

  /** A range holds only codes of its own country: every code between its ends has it. */
  lemma {:induction false} SegSound(items: seq<Item>, i: nat, k: nat, t: nat)
    requires Ascending(items) && i <= |items| && k < |SegsFrom(items, i)| && t < |items|
    requires SegsFrom(items, i)[k].first <= items[t].col <= SegsFrom(items, i)[k].last
    ensures items[t].country == SegsFrom(items, i)[k].country
    decreases |items| - i
  {
    var e := RunEnd(items, i);
    var rest := SegsFrom(items, e);
    if items[i].country != "" && k == 0 {
      RunEndSame(items, i, t);
    } else {
      var k' := if items[i].country != "" then k - 1 else k;
      assert SegsFrom(items, i)[k] == rest[k'];
      SegSound(items, e, k', t);
    }
  }

  /** The segment spans the code's column and has its country. */
  predicate Covers(seg: Segment, item: Item) {
    seg.first <= item.col <= seg.last && seg.country == item.country
  }

  /** Every code from `i` on with a country lies in a range with that country. */
  lemma {:induction false} SegCovers(items: seq<Item>, i: nat, t: nat)
    requires Ascending(items) && i <= t < |items| && items[t].country != ""
    ensures exists k :: 0 <= k < |SegsFrom(items, i)| && Covers(SegsFrom(items, i)[k], items[t])
    decreases |items| - i
  {
    var e := RunEnd(items, i);
    var segs := SegsFrom(items, i);
    if t < e {
      RunEndSame(items, i, t);
      assert Covers(segs[0], items[t]);
    } else {
      SegCovers(items, e, t);
      var k' :| 0 <= k' < |SegsFrom(items, e)| && Covers(SegsFrom(items, e)[k'], items[t]);
      var k := if items[i].country != "" then k' + 1 else k';
      assert segs[k] == SegsFrom(items, e)[k'];
    }
  }

  /** A range starts at a code of its country and ends at the row's last code or just before a
      code with another country. */
  lemma {:induction false} SegEnds(items: seq<Item>, i: nat, k: nat)
    requires Ascending(items) && i <= |items| && k < |SegsFrom(items, i)|
    ensures var seg := SegsFrom(items, i)[k];
      (exists t :: 0 <= t < |items| && items[t].col == seg.first && items[t].country == seg.country) &&
      (seg.last == items[|items| - 1].col ||
       exists t :: 0 <= t < |items| && items[t].col == seg.last + 1 && items[t].country != seg.country)
    decreases |items| - i
  {
    var e := RunEnd(items, i);
    var rest := SegsFrom(items, e);
    if items[i].country != "" && k == 0 {
      if e < |items| {
        RunEndDiffers(items, i);
        assert items[e].col == SegsFrom(items, i)[k].last + 1;
      }
    } else {
      var k' := if items[i].country != "" then k - 1 else k;
      assert SegsFrom(items, i)[k] == rest[k'];
      SegEnds(items, e, k');
    }
  }

  // ---------------------------------------------------------------------------------------
  // The loop over the codes of one row
  // ---------------------------------------------------------------------------------------

  /** The rule of a range of the row: `format_range` of the headers of its end columns, with its
      country. The column headers are a parameter, `SeederAlphabet` in the parser. */
  function RuleOf(headers: string, rowLetter: char, seg: Segment): Rule
    requires seg.first < |headers| && seg.last < |headers|
  {
    Rule(FormatRange(headers[seg.first], headers[seg.last], rowLetter), seg.country)
  }

  /** The segments lie within `width` columns. */
  predicate InColumns(segs: seq<Segment>, width: nat) {
    forall k :: 0 <= k < |segs| ==> segs[k].first < width && segs[k].last < width
  }

  /** The rules of `segs`, in the same order. */
  function RulesOf(headers: string, rowLetter: char, segs: seq<Segment>): (rules: seq<Rule>)
    requires InColumns(segs, |headers|)
    ensures |rules| == |segs|
  {
    if segs == [] then [] else RulesOf(headers, rowLetter, segs[..|segs| - 1]) + [RuleOf(headers, rowLetter, segs[|segs| - 1])]
  }

  /** The rule of a range carries the range's country. */
  lemma RuleOfCountry(headers: string, rowLetter: char, seg: Segment)
    requires seg.first < |headers| && seg.last < |headers|
    ensures RuleOf(headers, rowLetter, seg).country == seg.country
  {
  }

  /** `rules` are the rules of `segs`. */
  predicate Renders(headers: string, rowLetter: char, segs: seq<Segment>, rules: seq<Rule>) {
    InColumns(segs, |headers|) && rules == RulesOf(headers, rowLetter, segs)
  }

  /** The rule at each position is that of the segment there. */
  lemma {:induction false} RulesOfAt(headers: string, rowLetter: char, segs: seq<Segment>, k: nat)
    requires InColumns(segs, |headers|) && k < |segs|
    ensures RulesOf(headers, rowLetter, segs)[k] == RuleOf(headers, rowLetter, segs[k])
    decreases |segs|
  {
    if k < |segs| - 1 {
      RulesOfAt(headers, rowLetter, segs[..|segs| - 1], k);
    }
  }

  /** When the run starting at `s` is ended by the code at `k`... */
  lemma RunEndAt(items: seq<Item>, s: nat, k: nat)
    requires s < k < |items| && RunEnd(items, s) >= k && items[k].country != items[s].country
    ensures RunEnd(items, s) == k
  {
    if RunEnd(items, s) > k {
      RunEndSame(items, s, k);
    }
  }

  /** ...and when it goes on past it. */
  lemma RunEndPast(items: seq<Item>, s: nat, k: nat)
    requires s <= k < |items| && RunEnd(items, s) >= k && items[k].country == items[s].country
    ensures RunEnd(items, s) > k
  {
    if RunEnd(items, s) == k {
      RunEndDiffers(items, s);
    }
  }

  /** A run ended by the code at `k` gives its range, if any, and the rest starts at `k`. */
  lemma SegsChange(items: seq<Item>, s: nat, k: nat)
    requires Ascending(items) && s < k < |items| && RunEnd(items, s) == k
    ensures SegsFrom(items, s) ==
      (if items[s].country != "" then [Segment(items[s].col, items[k].col - 1, items[s].country)] else []) + SegsFrom(items, k)
  {
    assert items[s].col < items[k].col;
    var rest := SegsFrom(items, k);
    if items[s].country != "" {
      assert SegsFrom(items, s) == [Segment(items[s].col, items[k].col - 1, items[s].country)] + rest;
    } else {
      assert SegsFrom(items, s) == [] + rest;
    }
  }

  /** A run that reaches the end of the row gives the last range, if any. */
  lemma SegsLast(items: seq<Item>, s: nat)
    requires Ascending(items) && s < |items| && RunEnd(items, s) == |items|
    ensures SegsFrom(items, s) ==
      if items[s].country != "" then [Segment(items[s].col, items[|items| - 1].col, items[s].country)] else []
  {
  }

  /** Moving a prefix of the pending part to the emitted part keeps the whole. */
  lemma Regroup<T>(done: seq<T>, head: seq<T>, rest: seq<T>, pending: seq<T>, whole: seq<T>)
    requires done + pending == whole && pending == head + rest
    ensures (done + head) + rest == whole
  {
  }

  /** Closing a run ended by the code at `k` moves its range, if any, to the emitted ones. */
  lemma CloseRun(items: seq<Item>, s: nat, k: nat, done: seq<Segment>)
    requires Ascending(items) && s < k < |items| && RunEnd(items, s) == k
    requires done + SegsFrom(items, s) == Segs(items)
    ensures items[s].col < items[k].col
    ensures items[s].country != "" ==>
      (done + [Segment(items[s].col, items[k].col - 1, items[s].country)]) + SegsFrom(items, k) == Segs(items)
    ensures items[s].country == "" ==> done + SegsFrom(items, k) == Segs(items)
  {
    SegsChange(items, s, k);
    var head := if items[s].country != "" then [Segment(items[s].col, items[k].col - 1, items[s].country)] else [];
    Regroup(done, head, SegsFrom(items, k), SegsFrom(items, s), Segs(items));
    if items[s].country == "" {
      assert done + head == done;
    }
  }

  /** Closing the run that reaches the row's last code completes the ranges. */
  lemma CloseLast(items: seq<Item>, s: nat, k: nat, done: seq<Segment>)
    requires Ascending(items) && s <= k < |items| && RunEnd(items, s) > k
    requires items[k].col == items[|items| - 1].col
    requires done + SegsFrom(items, s) == Segs(items)
    ensures k == |items| - 1
    ensures items[s].country != "" ==> done + [Segment(items[s].col, items[k].col, items[s].country)] == Segs(items)
    ensures items[s].country == "" ==> done == Segs(items)
  {
    SegsLast(items, s);
  }

  /** Appending the rule of one more segment keeps `Renders`. */
  lemma RendersSnoc(headers: string, rowLetter: char, segs: seq<Segment>, rules: seq<Rule>, seg: Segment)
    requires Renders(headers, rowLetter, segs, rules) && seg.first < |headers| && seg.last < |headers|
    ensures Renders(headers, rowLetter, segs + [seg], rules + [RuleOf(headers, rowLetter, seg)])
  {
    assert (segs + [seg])[..|segs|] == segs;
  }

  /** Step 1 of a country change: the range from the column `start` up to the column before the
      new code at `col` (first formatted up to `col`, then corrected). */
  method CloseRange(headers: string, rowLetter: char, start: nat, col: nat, country: string) returns (rule: Rule)
    requires start < col < |headers|
    ensures rule == RuleOf(headers, rowLetter, Segment(start, col - 1, country))
  {
    var rangeStr := FormatRange(headers[start], headers[col], rowLetter);
    var prev := col - 1;
    if prev >= 0 {
      rangeStr := FormatRange(headers[start], headers[prev], rowLetter);
    }
    rule := Rule(rangeStr, country);
  }

  /** The range closed at the row's last code, which ends at that code's column `col`. */
  method LastRange(headers: string, rowLetter: char, start: nat, col: nat, country: string) returns (rule: Rule)
    requires start <= col < |headers|
    ensures rule == RuleOf(headers, rowLetter, Segment(start, col, country))
  {
    rule := Rule(FormatRange(headers[start], headers[col], rowLetter), country);
  }

  /** What the loop over the codes of a row knows before the code at `k`: `rules` render the
      ranges `done` closed so far; `current` and `start` describe the run from `s`, the ranges of
      which are still to come. */
  ghost predicate RowState(headers: string, rowLetter: char, items: seq<Item>, k: nat,
                           current: Option<string>, start: Option<nat>, s: nat,
                           done: seq<Segment>, rules: seq<Rule>)
    requires Ascending(items) && k <= |items|
  {
    Renders(headers, rowLetter, done, rules) &&
    (k == 0 ==> current.None? && start.None? && done == [] && s == 0) &&
    (0 < k ==> s < k && current == Some(items[s].country) && start == Some(items[s].col) && RunEnd(items, s) >= k) &&
    (k < |items| ==> done + SegsFrom(items, s) == Segs(items)) &&
    (k == |items| ==> done == Segs(items))
  }

  /** What the loop knows at the code at `k` once its country is taken in: the run from `s`
      goes on at least to `k`. */
  ghost predicate RunState(headers: string, rowLetter: char, items: seq<Item>, k: nat,
                           current: Option<string>, start: Option<nat>, s: nat,
                           done: seq<Segment>, rules: seq<Rule>)
    requires Ascending(items) && k < |items|
  {
    Renders(headers, rowLetter, done, rules) &&
    s <= k && current == Some(items[s].country) && start == Some(items[s].col) && RunEnd(items, s) > k &&
    done + SegsFrom(items, s) == Segs(items)
  }

  /** One code of the row: close the range of the previous country when the country changes,
      start a new one, and close it at the row's last code. */
  method VisitCode(headers: string, rowLetter: char, items: seq<Item>, k: nat,
                   current: Option<string>, start: Option<nat>, rules: seq<Rule>,
                   ghost s: nat, ghost done: seq<Segment>)
    returns (current': Option<string>, start': Option<nat>, rules': seq<Rule>,
             ghost s': nat, ghost done': seq<Segment>)
    requires Ascending(items) && |headers| == |SeederAlphabet| && k < |items|
    requires RowState(headers, rowLetter, items, k, current, start, s, done, rules)
    ensures RowState(headers, rowLetter, items, k + 1, current', start', s', done', rules')
  {
    current', start', rules', s', done' := TakeCountry(headers, rowLetter, items, k, current, start, rules, s, done);
    rules', done' := CloseAtLast(headers, rowLetter, items, k, current', start', rules', s', done');
  }

  /** Steps 1 and 2 of a code: on a change of country, close the range of the previous one, if
      it has a country, and start a new run at this code. */
  method TakeCountry(headers: string, rowLetter: char, items: seq<Item>, k: nat,
                     current: Option<string>, start: Option<nat>, rules: seq<Rule>,
                     ghost s: nat, ghost done: seq<Segment>)
    returns (current': Option<string>, start': Option<nat>, rules': seq<Rule>,
             ghost s': nat, ghost done': seq<Segment>)
    requires Ascending(items) && |headers| == |SeederAlphabet| && k < |items|
    requires RowState(headers, rowLetter, items, k, current, start, s, done, rules)
    ensures RunState(headers, rowLetter, items, k, current', start', s', done', rules')
  {
    current', start', rules', s', done' := current, start, rules, s, done;
    var country := items[k].country;
    if current' != Some(country) {
      if 0 < k {
        RunEndAt(items, s, k);
        CloseRun(items, s, k, done);
      }
      if current'.Some? && current'.value != "" && start'.Some? {
        var rule := CloseRange(headers, rowLetter, start'.value, items[k].col, current'.value);
        ghost var seg := Segment(start'.value, items[k].col - 1, current'.value);
        RendersSnoc(headers, rowLetter, done', rules', seg);
        rules' := rules' + [rule];
        done' := done' + [seg];
      }
      current' := Some(country);
      start' := Some(items[k].col);
      s' := k;
    } else {
      RunEndPast(items, s, k);
    }
  }

  /** Step 3 of a code: at the row's last code, close the current range if it has a country. */
  method CloseAtLast(headers: string, rowLetter: char, items: seq<Item>, k: nat,
                     current: Option<string>, start: Option<nat>, rules: seq<Rule>,
                     ghost s: nat, ghost done: seq<Segment>)
    returns (rules': seq<Rule>, ghost done': seq<Segment>)
    requires Ascending(items) && |headers| == |SeederAlphabet| && k < |items|
    requires RunState(headers, rowLetter, items, k, current, start, s, done, rules)
    ensures RowState(headers, rowLetter, items, k + 1, current, start, s, done', rules')
  {
    rules', done' := rules, done;
    // `code == codes_in_row[-1]`: the codes of a row differ exactly when their columns do.
    if items[k].col == items[|items| - 1].col {
      CloseLast(items, s, k, done');
      if current.Some? && current.value != "" && start.Some? {
        var rule := LastRange(headers, rowLetter, start.value, items[k].col, current.value);
        ghost var seg := Segment(start.value, items[k].col, current.value);
        RendersSnoc(headers, rowLetter, done', rules', seg);
        rules' := rules' + [rule];
        done' := done' + [seg];
      }
    }
  }

  /** The loop over `codes_in_row` as written, with `current_country` and the column of
      `current_range_start`, starting with neither. */
  method ConsolidateRow(headers: string, rowLetter: char, items: seq<Item>) returns (rules: seq<Rule>)
    requires Ascending(items) && |headers| == |SeederAlphabet|
    ensures Renders(headers, rowLetter, Segs(items), rules)
  {
    rules := [];
    var current: Option<string> := None;
    var start: Option<nat> := None;
    ghost var s: nat := 0;
    ghost var done: seq<Segment> := [];
    for k := 0 to |items|
      invariant RowState(headers, rowLetter, items, k, current, start, s, done, rules)
    {
      current, start, rules, s, done := VisitCode(headers, rowLetter, items, k, current, start, rules, s, done);
    }
  }

  // ---------------------------------------------------------------------------------------
  // The codes of a row and the rows of the map
  // ---------------------------------------------------------------------------------------

  /** `codes_in_row` from column `j` on: the codes of the map in the row `rowLetter`, sorted by
      column, with their countries; `headers` are the column symbols. */
  function ItemsFrom(headers: string, m: map<string, string>, rowLetter: char, j: nat): seq<Item>
    requires j <= |headers|
    decreases |headers| - j
  {
    if j == |headers| then []
    else
      var code := [rowLetter, headers[j]];
      (if code in m then [Item(j, m[code])] else []) + ItemsFrom(headers, m, rowLetter, j + 1)
  }

  /** The codes of a row come in strictly ascending columns, from `j` on. */
  lemma {:induction false} ItemsAscending(headers: string, m: map<string, string>, rowLetter: char, j: nat)
    requires j <= |headers| == |SeederAlphabet|
    ensures Ascending(ItemsFrom(headers, m, rowLetter, j))
    ensures forall t :: 0 <= t < |ItemsFrom(headers, m, rowLetter, j)| ==> j <= ItemsFrom(headers, m, rowLetter, j)[t].col
    decreases |headers| - j
  {
    if j < |headers| {
      ItemsAscending(headers, m, rowLetter, j + 1);
    }
  }

  /** Each is a code of the map in that row, with the map's country... */
  lemma {:induction false} ItemsSound(headers: string, m: map<string, string>, rowLetter: char, j: nat, t: nat)
    requires j <= |headers| && t < |ItemsFrom(headers, m, rowLetter, j)|
    ensures var item := ItemsFrom(headers, m, rowLetter, j)[t];
      item.col < |headers| && [rowLetter, headers[item.col]] in m && item.country == m[[rowLetter, headers[item.col]]]
    decreases |headers| - j
  {
    if !([rowLetter, headers[j]] in m && t == 0) {
      ItemsSound(headers, m, rowLetter, j + 1, if [rowLetter, headers[j]] in m then t - 1 else t);
    }
  }

  /** ...and every code of the map in that row from column `j` on is one of them. */
  lemma {:induction false} ItemsComplete(headers: string, m: map<string, string>, rowLetter: char, j: nat, i: nat)
    requires j <= i < |headers| && [rowLetter, headers[i]] in m
    ensures exists t :: 0 <= t < |ItemsFrom(headers, m, rowLetter, j)| && ItemsFrom(headers, m, rowLetter, j)[t].col == i
    decreases i - j
  {
    var items := ItemsFrom(headers, m, rowLetter, j);
    if i == j {
      assert items[0].col == i;
    } else {
      var rest := ItemsFrom(headers, m, rowLetter, j + 1);
      ItemsComplete(headers, m, rowLetter, j + 1, i);
      var t :| 0 <= t < |rest| && rest[t].col == i;
      var t' := if [rowLetter, headers[j]] in m then t + 1 else t;
      assert items[t'] == rest[t];
    }
  }

  /** The ranges of the row `rowLetter` of the map. */
  function RowSegs(headers: string, m: map<string, string>, rowLetter: char): seq<Segment>
    requires |headers| == |SeederAlphabet|
  {
    ItemsAscending(headers, m, rowLetter, 0);
    Segs(ItemsFrom(headers, m, rowLetter, 0))
  }

  /** They lie within the 33 columns, in order, and each has a country. */
  lemma RowSegsWithin(headers: string, m: map<string, string>, rowLetter: char)
    requires |headers| == |SeederAlphabet|
    ensures Within(RowSegs(headers, m, rowLetter), 0, |headers| - 1) && Ordered(RowSegs(headers, m, rowLetter))
    ensures InColumns(RowSegs(headers, m, rowLetter), |headers|)
  {
    var items := ItemsFrom(headers, m, rowLetter, 0);
    ItemsAscending(headers, m, rowLetter, 0);
    SegsOrdered(items, 0);
    if items != [] {
      SegsWithin(items, 0);
    }
  }

  /** The row letters of the map's codes. */
  function Letters(m: map<string, string>): set<char> {
    set code | code in m && |code| > 0 :: code[0]
  }

  /** The scraper's `VIN_CHARACTERS.index` is defined on every row letter; otherwise sorting the rows raises. */
  predicate LettersKnown(m: map<string, string>) {
    forall c :: c in Letters(m) ==> c in SeederAlphabet
  }

  /** The letters of `order` from index `i` on that are in `letters`, in that order. */
  function RowsFrom(order: string, letters: set<char>, i: nat): seq<char>
    requires i <= |order|
    decreases |order| - i
  {
    if i == |order| then [] else (if order[i] in letters then [order[i]] else []) + RowsFrom(order, letters, i + 1)
  }

  /** `unique_rows`: the row letters, each once, sorted by the scraper's `VIN_CHARACTERS.index`, '0' last. */
  function UniqueRows(m: map<string, string>): seq<char> {
    RowsFrom(SeederAlphabet, Letters(m), 0)
  }

  /** The rows are the letters present in the order... */
  lemma {:induction false} RowsFromMembers(order: string, letters: set<char>, i: nat, c: char)
    requires i <= |order|
    ensures c in RowsFrom(order, letters, i) <==> c in letters && c in order[i..]
    decreases |order| - i
  {
    if i < |order| {
      RowsFromMembers(order, letters, i + 1, c);
      assert order[i..] == [order[i]] + order[i + 1..];
    }
  }

  /** ...and follow it strictly, so that none comes twice. */
  lemma {:induction false} RowsFromSorted(order: string, letters: set<char>, i: nat)
    requires i <= |order| && Distinct(order)
    ensures forall a :: 0 <= a < |RowsFrom(order, letters, i)| ==>
      RowsFrom(order, letters, i)[a] in order[i..]
    ensures forall a, b :: 0 <= a < b < |RowsFrom(order, letters, i)| ==>
      IndexOf(order, RowsFrom(order, letters, i)[a]) < IndexOf(order, RowsFrom(order, letters, i)[b])
    decreases |order| - i
  {
    if i < |order| {
      var rest := RowsFrom(order, letters, i + 1);
      RowsFromSorted(order, letters, i + 1);
      IndexOfDistinct(order, i);
      forall a | 0 <= a < |rest|
        ensures rest[a] in order[i..] && i < IndexOf(order, rest[a])
      {
        var p :| i + 1 <= p < |order| && order[p] == rest[a];
        IndexOfDistinct(order, p);
      }
    }
  }

  /** `unique_rows` holds exactly the known row letters, in the scraper's `VIN_CHARACTERS` order. */
  lemma UniqueRowsSorted(m: map<string, string>)
    ensures forall c :: c in UniqueRows(m) <==> c in Letters(m) && c in SeederAlphabet
    ensures forall a, b :: 0 <= a < b < |UniqueRows(m)| ==>
      UniqueRows(m)[a] in SeederAlphabet && UniqueRows(m)[b] in SeederAlphabet &&
      IndexOf(SeederAlphabet, UniqueRows(m)[a]) < IndexOf(SeederAlphabet, UniqueRows(m)[b])
  {
    SeederAlphabetDistinct();
    RowsFromSorted(SeederAlphabet, Letters(m), 0);
    forall c
      ensures c in UniqueRows(m) <==> c in Letters(m) && c in SeederAlphabet
    {
      RowsFromMembers(SeederAlphabet, Letters(m), 0, c);
    }
  }

  /** When the last letter of the order is present, the rows end with it. */
  lemma {:induction false} RowsFromEndsWith(order: string, letters: set<char>, i: nat)
    requires i < |order| && order[|order| - 1] in letters
    ensures |RowsFrom(order, letters, i)| > 0
    ensures RowsFrom(order, letters, i)[|RowsFrom(order, letters, i)| - 1] == order[|order| - 1]
    decreases |order| - i
  {
    if i < |order| - 1 {
      RowsFromEndsWith(order, letters, i + 1);
    }
  }

  /** The scraper's `VIN_CHARACTERS` ends with '0', so a row '0' comes after every other row. */
  lemma ZeroRowLast(m: map<string, string>)
    requires '0' in Letters(m)
    ensures |UniqueRows(m)| > 0 && UniqueRows(m)[|UniqueRows(m)| - 1] == '0'
  {
    SeederAlphabetOrder();
    RowsFromEndsWith(SeederAlphabet, Letters(m), 0);
  }

  // ---------------------------------------------------------------------------------------
  // The rules of the whole map
  // ---------------------------------------------------------------------------------------

  /** The rules phase 3 emits for `rows`, row after row; `headers` are the column symbols. */
  function AllRules(headers: string, m: map<string, string>, rows: seq<char>): (rules: seq<Rule>)
    requires |headers| == |SeederAlphabet|
  {
    if rows == [] then []
    else
      var rowLetter := rows[|rows| - 1];
      RowSegsWithin(headers, m, rowLetter);
      AllRules(headers, m, rows[..|rows| - 1]) + RulesOf(headers, rowLetter, RowSegs(headers, m, rowLetter))
  }

  /** The loop over `unique_rows`: each row's codes consolidated in turn, the rules appended. */
  method ConsolidateRows(headers: string, m: map<string, string>, rows: seq<char>) returns (rules: seq<Rule>)
    requires |headers| == |SeederAlphabet|
    ensures rules == AllRules(headers, m, rows)
  {
    rules := [];
    for i := 0 to |rows|
      invariant rules == AllRules(headers, m, rows[..i])
    {
      var items := ItemsFrom(headers, m, rows[i], 0);
      ItemsAscending(headers, m, rows[i], 0);
      var rowRules := ConsolidateRow(headers, rows[i], items);
      assert rows[..i + 1][..i] == rows[..i];
      rules := rules + rowRules;
    }
    assert rows[..|rows|] == rows;
  }

  /** Phase 3 as written: sort the row letters, which fails on a letter outside
      `VIN_CHARACTERS`, then consolidate each row's codes; `headers` are the column symbols,
      `SeederAlphabet` in the parser. */
  method Consolidate(headers: string, m: map<string, string>) returns (r: Result<seq<Rule>, ScrapeError>)
    requires |headers| == |SeederAlphabet|
    ensures r.Success? <==> LettersKnown(m)
    ensures r.Success? ==> r.value == AllRules(headers, m, UniqueRows(m))
  {
    if !LettersKnown(m) {
      return Failure(UnknownRow);
    }
    var rules := ConsolidateRows(headers, m, UniqueRows(m));
    return Success(rules);
  }

  // ---------------------------------------------------------------------------------------
  // Where each rule comes from
  // ---------------------------------------------------------------------------------------

  /** The index at which the rules of the row at index `a` start. */
  function Offset(headers: string, m: map<string, string>, rows: seq<char>, a: nat): nat
    requires |headers| == |SeederAlphabet| && a <= |rows|
  {
    |AllRules(headers, m, rows[..a])|
  }

  /** The `k`th range of the row at index `a` gives the rule at `Offset(a) + k`... */
  lemma {:induction false} AllRulesAt(headers: string, m: map<string, string>, rows: seq<char>, a: nat, k: nat)
    requires |headers| == |SeederAlphabet| && a < |rows| && k < |RowSegs(headers, m, rows[a])|
    requires InColumns(RowSegs(headers, m, rows[a]), |headers|)
    ensures Offset(headers, m, rows, a) + k < |AllRules(headers, m, rows)|
    ensures AllRules(headers, m, rows)[Offset(headers, m, rows, a) + k] == RuleOf(headers, rows[a], RowSegs(headers, m, rows[a])[k])
    decreases |rows|
  {
    var n := |rows| - 1;
    AllRulesSplit(headers, m, rows);
    var prefix := AllRules(headers, m, rows[..n]);
    var last := RulesOf(headers, rows[n], RowSegs(headers, m, rows[n]));
    if a == n {
      assert rows[..a] == rows[..n];
      RulesOfAt(headers, rows[a], RowSegs(headers, m, rows[a]), k);
      ConcatRight(prefix, last, k);
    } else {
      assert rows[..n][a] == rows[a] && rows[..n][..a] == rows[..a];
      AllRulesAt(headers, m, rows[..n], a, k);
      ConcatLeft(prefix, last, Offset(headers, m, rows, a) + k);
    }
  }

  /** The rules of the rows are those of all rows but the last, then those of the last. */
  lemma AllRulesSplit(headers: string, m: map<string, string>, rows: seq<char>)
    requires |headers| == |SeederAlphabet| && rows != []
    ensures InColumns(RowSegs(headers, m, rows[|rows| - 1]), |headers|)
    ensures AllRules(headers, m, rows) ==
      AllRules(headers, m, rows[..|rows| - 1]) + RulesOf(headers, rows[|rows| - 1], RowSegs(headers, m, rows[|rows| - 1]))
  {
    RowSegsWithin(headers, m, rows[|rows| - 1]);
  }

  lemma ConcatLeft<T>(p: seq<T>, q: seq<T>, t: nat)
    requires t < |p|
    ensures t < |p + q| && (p + q)[t] == p[t]
  {
  }

  lemma ConcatRight<T>(p: seq<T>, q: seq<T>, k: nat)
    requires k < |q|
    ensures |p| + k < |p + q| && (p + q)[|p| + k] == q[k]
  {
  }

  /** ...and every rule is one of those. */
  lemma {:induction false} AllRulesOrigin(headers: string, m: map<string, string>, rows: seq<char>, t: nat)
    returns (a: nat, k: nat)
    requires |headers| == |SeederAlphabet| && t < |AllRules(headers, m, rows)|
    ensures a < |rows| && k < |RowSegs(headers, m, rows[a])| && t == Offset(headers, m, rows, a) + k
    decreases |rows|
  {
    var n := |rows| - 1;
    RowSegsWithin(headers, m, rows[n]);
    var prefix := AllRules(headers, m, rows[..n]);
    if t < |prefix| {
      a, k := AllRulesOrigin(headers, m, rows[..n], t);
      assert rows[..n][a] == rows[a] && rows[..n][..a] == rows[..a];
    } else {
      a, k := n, t - |prefix|;
    }
  }

  /** The rules of a row all come before those of any later row. */
  lemma {:induction false} OffsetsGrow(headers: string, m: map<string, string>, rows: seq<char>, a: nat, b: nat)
    requires |headers| == |SeederAlphabet| && a < b <= |rows|
    ensures Offset(headers, m, rows, a) + |RowSegs(headers, m, rows[a])| <= Offset(headers, m, rows, b)
    decreases b - a
  {
    RowSegsWithin(headers, m, rows[b - 1]);
    assert rows[..b][..b - 1] == rows[..b - 1];
    if a < b - 1 {
      OffsetsGrow(headers, m, rows, a, b - 1);
    }
  }

  // ---------------------------------------------------------------------------------------
  // What the emitted ranges say about the map
  // ---------------------------------------------------------------------------------------

  /** The rules the parser emits for the map: phase 3 with `SeederAlphabet` as column symbols. */
  function Rules(m: map<string, string>): seq<Rule> {
    AllRules(SeederAlphabet, m, UniqueRows(m))
  }

  /** `code` is the code of the row in one of the columns of `seg`, `symbols` naming the columns. */
  predicate SegHolds(symbols: string, rowLetter: char, seg: Segment, code: string) {
    exists j :: seg.first <= j <= seg.last && j < |symbols| && code == [rowLetter, symbols[j]]
  }

  /** With symbols that do not repeat, the codes in the range from the column `first` to the
      column `last` of a row are those of the columns between. */
  lemma InRangeColumns(symbols: string, rowLetter: char, seg: Segment, code: string)
    requires Distinct(symbols) && seg.first <= seg.last < |symbols|
    ensures RegionCodes.InRange(symbols, code, [rowLetter, symbols[seg.first]], [rowLetter, symbols[seg.last]]) <==>
      SegHolds(symbols, rowLetter, seg, code)
  {
    IndexOfDistinct(symbols, seg.first);
    IndexOfDistinct(symbols, seg.last);
    if SegHolds(symbols, rowLetter, seg, code) {
      var j :| seg.first <= j <= seg.last && j < |symbols| && code == [rowLetter, symbols[j]];
      IndexOfDistinct(symbols, j);
    }
    if RegionCodes.InRange(symbols, code, [rowLetter, symbols[seg.first]], [rowLetter, symbols[seg.last]]) {
      var j := IndexOf(symbols, code[1]);
      assert code == [rowLetter, symbols[j]];
    }
  }

  /** `expand_range` reads the rule of a range back as the codes of its columns. */
  lemma RuleExpansion(rowLetter: char, seg: Segment, code: string)
    requires rowLetter in SeederAlphabet && seg.first <= seg.last < |SeederAlphabet|
    ensures RegionCodes.DashesOk(RuleOf(SeederAlphabet, rowLetter, seg).range)
    ensures Expands(RuleOf(SeederAlphabet, rowLetter, seg).range, code) <==> SegHolds(SeederAlphabet, rowLetter, seg, code)
  {
    SeederAlphabetDistinct();
    ColumnIndex(seg.first);
    ColumnIndex(seg.last);
    FormatRangeExpansion(rowLetter, SeederAlphabet[seg.first], SeederAlphabet[seg.last], code);
    InRangeColumns(SeederAlphabet, rowLetter, seg, code);
  }

  /** `expand_range(raw)` succeeds and yields `code`. */
  predicate Expands(raw: string, code: string) {
    RegionCodes.DashesOk(raw) && code in RegionCodes.Expansion(raw)
  }

  /** A row of `unique_rows` is a symbol of the alphabet, and its ranges lie in the columns. */
  lemma RowFacts(m: map<string, string>, a: nat)
    requires a < |UniqueRows(m)|
    ensures UniqueRows(m)[a] in SeederAlphabet
    ensures Within(RowSegs(SeederAlphabet, m, UniqueRows(m)[a]), 0, |SeederAlphabet| - 1)
    ensures Ordered(RowSegs(SeederAlphabet, m, UniqueRows(m)[a]))
    ensures InColumns(RowSegs(SeederAlphabet, m, UniqueRows(m)[a]), |SeederAlphabet|)
  {
    UniqueRowsSorted(m);
    assert UniqueRows(m)[a] in UniqueRows(m);
    RowSegsWithin(SeederAlphabet, m, UniqueRows(m)[a]);
  }

  /** The `k`th range of the row at index `a` is a range of columns of that row... */
  lemma RowSegAt(m: map<string, string>, a: nat, k: nat)
    requires a < |UniqueRows(m)| && k < |RowSegs(SeederAlphabet, m, UniqueRows(m)[a])|
    ensures UniqueRows(m)[a] in SeederAlphabet
    ensures RowSegs(SeederAlphabet, m, UniqueRows(m)[a])[k].first <= RowSegs(SeederAlphabet, m, UniqueRows(m)[a])[k].last < |SeederAlphabet|
  {
    RowFacts(m, a);
  }

  /** ...and its rule is emitted at `Offset(a) + k`. */
  lemma RowRuleAt(m: map<string, string>, a: nat, k: nat)
    requires a < |UniqueRows(m)| && k < |RowSegs(SeederAlphabet, m, UniqueRows(m)[a])|
    ensures Offset(SeederAlphabet, m, UniqueRows(m), a) + k < |Rules(m)|
    ensures RowSegs(SeederAlphabet, m, UniqueRows(m)[a])[k].last < |SeederAlphabet|
    ensures RowSegs(SeederAlphabet, m, UniqueRows(m)[a])[k].first < |SeederAlphabet|
    ensures Rules(m)[Offset(SeederAlphabet, m, UniqueRows(m), a) + k] ==
      RuleOf(SeederAlphabet, UniqueRows(m)[a], RowSegs(SeederAlphabet, m, UniqueRows(m)[a])[k])
  {
    RowsRuleAt(SeederAlphabet, m, UniqueRows(m), a, k);
  }

  /** The same for any header row and any list of row letters. */
  lemma RowsRuleAt(headers: string, m: map<string, string>, rows: seq<char>, a: nat, k: nat)
    requires |headers| == |SeederAlphabet| && a < |rows| && k < |RowSegs(headers, m, rows[a])|
    ensures Offset(headers, m, rows, a) + k < |AllRules(headers, m, rows)|
    ensures RowSegs(headers, m, rows[a])[k].last < |headers|
    ensures RowSegs(headers, m, rows[a])[k].first < |headers|
    ensures AllRules(headers, m, rows)[Offset(headers, m, rows, a) + k] ==
      RuleOf(headers, rows[a], RowSegs(headers, m, rows[a])[k])
  {
    RowSegsWithin(headers, m, rows[a]);
    AllRulesAt(headers, m, rows, a, k);
  }

  /** The rule emitted for the `k`th range of the row at index `a` has the range's country... */
  lemma RuleAt(m: map<string, string>, a: nat, k: nat)
    requires a < |UniqueRows(m)| && k < |RowSegs(SeederAlphabet, m, UniqueRows(m)[a])|
    ensures Offset(SeederAlphabet, m, UniqueRows(m), a) + k < |Rules(m)|
    ensures Rules(m)[Offset(SeederAlphabet, m, UniqueRows(m), a) + k].country == RowSegs(SeederAlphabet, m, UniqueRows(m)[a])[k].country
  {
    var rows := UniqueRows(m);
    RowFacts(m, a);
    AllRulesAt(SeederAlphabet, m, rows, a, k);
    RuleOfCountry(SeederAlphabet, rows[a], RowSegs(SeederAlphabet, m, rows[a])[k]);
  }

  /** ...is a range string the region seeder accepts... */
  lemma RuleAtDashes(m: map<string, string>, a: nat, k: nat)
    requires a < |UniqueRows(m)| && k < |RowSegs(SeederAlphabet, m, UniqueRows(m)[a])|
    ensures Offset(SeederAlphabet, m, UniqueRows(m), a) + k < |Rules(m)|
    ensures RegionCodes.DashesOk(Rules(m)[Offset(SeederAlphabet, m, UniqueRows(m), a) + k].range)
  {
    var rows := UniqueRows(m);
    RowFacts(m, a);
    AllRulesAt(SeederAlphabet, m, rows, a, k);
    RuleExpansion(rows[a], RowSegs(SeederAlphabet, m, rows[a])[k], []);
  }

  /** Every rule is a range string the region seeder accepts, with a country. */
  lemma RulesWellFormed(m: map<string, string>, t: nat)
    requires t < |Rules(m)|
    ensures RegionCodes.DashesOk(Rules(m)[t].range) && Rules(m)[t].country != ""
  {
    var a, k := AllRulesOrigin(SeederAlphabet, m, UniqueRows(m), t);
    RuleAt(m, a, k);
    RuleAtDashes(m, a, k);
    RowFacts(m, a);
  }

  /** The map's country of every code of the row in the columns of one of its ranges is the
      range's country. */
  lemma SegCountry(headers: string, m: map<string, string>, rowLetter: char, k: nat, j: nat)
    requires |headers| == |SeederAlphabet| && k < |RowSegs(headers, m, rowLetter)|
    requires RowSegs(headers, m, rowLetter)[k].first <= j <= RowSegs(headers, m, rowLetter)[k].last
    requires j < |headers| && [rowLetter, headers[j]] in m
    ensures m[[rowLetter, headers[j]]] == RowSegs(headers, m, rowLetter)[k].country
  {
    var items := ItemsFrom(headers, m, rowLetter, 0);
    ItemsAscending(headers, m, rowLetter, 0);
    ItemsComplete(headers, m, rowLetter, 0, j);
    var i :| 0 <= i < |items| && items[i].col == j;
    ItemsSound(headers, m, rowLetter, 0, i);
    SegSound(items, 0, k, i);
  }

  /** The map's country of every code a rule expands to is the rule's country: a range may take in
      columns with no code, never a code of another country. */
  lemma RangesSound(m: map<string, string>, t: nat, code: string)
    requires t < |Rules(m)| && Expands(Rules(m)[t].range, code) && code in m
    ensures m[code] == Rules(m)[t].country
  {
    var a, k := AllRulesOrigin(SeederAlphabet, m, UniqueRows(m), t);
    RowFacts(m, a);
    RowRuleAt(m, a, k);
    RowRuleSound(m, UniqueRows(m)[a], k, code);
  }

  /** The map's country of every code the rule of the `k`th range of a row expands to is the
      range's country. */
  lemma RowRuleSound(m: map<string, string>, rowLetter: char, k: nat, code: string)
    requires rowLetter in SeederAlphabet && k < |RowSegs(SeederAlphabet, m, rowLetter)|
    requires Within(RowSegs(SeederAlphabet, m, rowLetter), 0, |SeederAlphabet| - 1)
    requires Expands(RuleOf(SeederAlphabet, rowLetter, RowSegs(SeederAlphabet, m, rowLetter)[k]).range, code)
    requires code in m
    ensures m[code] == RuleOf(SeederAlphabet, rowLetter, RowSegs(SeederAlphabet, m, rowLetter)[k]).country
  {
    var seg := RowSegs(SeederAlphabet, m, rowLetter)[k];
    RuleExpansion(rowLetter, seg, code);
    RuleOfCountry(SeederAlphabet, rowLetter, seg);
    var j :| seg.first <= j <= seg.last && j < |SeederAlphabet| && code == [rowLetter, SeederAlphabet[j]];
    SegCountry(SeederAlphabet, m, rowLetter, k, j);
  }

  /** Every code of the row with a country lies in one of the row's ranges, with that country. */
  lemma SegOfCode(headers: string, m: map<string, string>, rowLetter: char, j: nat) returns (k: nat)
    requires |headers| == |SeederAlphabet| && j < |headers|
    requires [rowLetter, headers[j]] in m && m[[rowLetter, headers[j]]] != ""
    ensures k < |RowSegs(headers, m, rowLetter)|
    ensures RowSegs(headers, m, rowLetter)[k].first <= j <= RowSegs(headers, m, rowLetter)[k].last
    ensures RowSegs(headers, m, rowLetter)[k].country == m[[rowLetter, headers[j]]]
  {
    var items := ItemsFrom(headers, m, rowLetter, 0);
    ItemsAscending(headers, m, rowLetter, 0);
    ItemsComplete(headers, m, rowLetter, 0, j);
    var i :| 0 <= i < |items| && items[i].col == j;
    ItemsSound(headers, m, rowLetter, 0, i);
    SegCovers(items, 0, i);
    k :| k < |SegsFrom(items, 0)| && Covers(SegsFrom(items, 0)[k], items[i]);
  }

  /** Every code of the map with a country is taken in by a rule with that country: the rules
      lose no code. */
  lemma RangesCover(m: map<string, string>, code: string) returns (t: nat)
    requires KeysShaped(m) && LettersKnown(m) && code in m && m[code] != ""
    ensures t < |Rules(m)| && Expands(Rules(m)[t].range, code) && Rules(m)[t].country == m[code]
  {
    var a, j := CodeRow(m, code);
    var k := SegOfCode(SeederAlphabet, m, UniqueRows(m)[a], j);
    t := CoverAt(m, a, k, j);
  }

  /** A code of the map is the code of a column of one of the rows. */
  lemma CodeRow(m: map<string, string>, code: string) returns (a: nat, j: nat)
    requires KeysShaped(m) && LettersKnown(m) && code in m
    ensures a < |UniqueRows(m)| && j < |SeederAlphabet| && code == [UniqueRows(m)[a], SeederAlphabet[j]]
  {
    var rows := UniqueRows(m);
    assert Shaped(code);
    j :| 0 <= j < |SeederAlphabet| && code == CodeAt(code[0], j);
    assert code[0] in Letters(m);
    UniqueRowsSorted(m);
    a :| 0 <= a < |rows| && rows[a] == code[0];
  }

  /** The rule of the `k`th range of the row at index `a` takes in the code of every column of
      that range, with the range's country. */
  lemma CoverAt(m: map<string, string>, a: nat, k: nat, j: nat) returns (t: nat)
    requires a < |UniqueRows(m)| && k < |RowSegs(SeederAlphabet, m, UniqueRows(m)[a])|
    requires var seg := RowSegs(SeederAlphabet, m, UniqueRows(m)[a])[k];
      seg.first <= j <= seg.last && j < |SeederAlphabet|
    ensures t < |Rules(m)|
    ensures Expands(Rules(m)[t].range, [UniqueRows(m)[a], SeederAlphabet[j]])
    ensures Rules(m)[t].country == RowSegs(SeederAlphabet, m, UniqueRows(m)[a])[k].country
  {
    var rowLetter := UniqueRows(m)[a];
    var seg := RowSegs(SeederAlphabet, m, rowLetter)[k];
    RowFacts(m, a);
    RowRuleAt(m, a, k);
    t := Offset(SeederAlphabet, m, UniqueRows(m), a) + k;
    ColumnHeld(SeederAlphabet, rowLetter, seg, j);
    RuleExpansion(rowLetter, seg, [rowLetter, SeederAlphabet[j]]);
    RuleOfCountry(SeederAlphabet, rowLetter, seg);
  }

  /** A column of a range holds its code. */
  lemma ColumnHeld(symbols: string, rowLetter: char, seg: Segment, j: nat)
    requires seg.first <= j <= seg.last && j < |symbols|
    ensures SegHolds(symbols, rowLetter, seg, [rowLetter, symbols[j]])
  {
  }

  /** The column of a range that holds `code`. */
  lemma HeldColumn(symbols: string, rowLetter: char, seg: Segment, code: string) returns (j: nat)
    requires SegHolds(symbols, rowLetter, seg, code)
    ensures seg.first <= j <= seg.last && j < |symbols| && code == [rowLetter, symbols[j]]
    ensures Distinct(symbols) ==> j == IndexOf(symbols, code[1])
  {
    j :| seg.first <= j <= seg.last && j < |symbols| && code == [rowLetter, symbols[j]];
    if Distinct(symbols) {
      IndexOfDistinct(symbols, j);
    }
  }

  /** The column of a range whose rule expands to `code`. */
  lemma ExpandedColumn(rowLetter: char, seg: Segment, code: string) returns (j: nat)
    requires rowLetter in SeederAlphabet && seg.first <= seg.last < |SeederAlphabet|
    requires Expands(RuleOf(SeederAlphabet, rowLetter, seg).range, code)
    ensures seg.first <= j <= seg.last && |code| == 2 && code[0] == rowLetter
    ensures code[1] in SeederAlphabet && j == IndexOf(SeederAlphabet, code[1])
  {
    RuleExpansion(rowLetter, seg, code);
    SeederAlphabetDistinct();
    j := HeldColumn(SeederAlphabet, rowLetter, seg, code);
  }

  /** A code the rule of the `k`th range of the row at index `a` expands to is the code of the
      row in a column of that range. */
  lemma RuleColumn(m: map<string, string>, t: nat, a: nat, k: nat, code: string) returns (j: nat)
    requires a < |UniqueRows(m)| && k < |RowSegs(SeederAlphabet, m, UniqueRows(m)[a])|
    requires t == Offset(SeederAlphabet, m, UniqueRows(m), a) + k && t < |Rules(m)|
    requires Expands(Rules(m)[t].range, code)
    ensures RowSegs(SeederAlphabet, m, UniqueRows(m)[a])[k].first <= j <= RowSegs(SeederAlphabet, m, UniqueRows(m)[a])[k].last
    ensures |code| == 2 && code[0] == UniqueRows(m)[a]
    ensures code[1] in SeederAlphabet && j == IndexOf(SeederAlphabet, code[1])
  {
    RowSegAt(m, a, k);
    RowRuleAt(m, a, k);
    j := ExpandedColumn(UniqueRows(m)[a], RowSegs(SeederAlphabet, m, UniqueRows(m)[a])[k], code);
  }

  /** A row comes once in `unique_rows`. */
  lemma RowOnce(m: map<string, string>, a: nat, b: nat)
    requires a < |UniqueRows(m)| && b < |UniqueRows(m)| && UniqueRows(m)[a] == UniqueRows(m)[b]
    ensures a == b
  {
    UniqueRowsSorted(m);
  }

  /** A column of the row lies in at most one of its ranges. */
  lemma SegOnce(headers: string, m: map<string, string>, rowLetter: char, k: nat, l: nat, j: nat)
    requires |headers| == |SeederAlphabet| && k < |RowSegs(headers, m, rowLetter)| && l < |RowSegs(headers, m, rowLetter)|
    requires RowSegs(headers, m, rowLetter)[k].first <= j <= RowSegs(headers, m, rowLetter)[k].last
    requires RowSegs(headers, m, rowLetter)[l].first <= j <= RowSegs(headers, m, rowLetter)[l].last
    ensures k == l
  {
    RowSegsWithin(headers, m, rowLetter);
  }

  /** No code is taken in by two rules. */
  lemma RangesDisjoint(m: map<string, string>, t: nat, u: nat, code: string)
    requires t < |Rules(m)| && Expands(Rules(m)[t].range, code)
    requires u < |Rules(m)| && Expands(Rules(m)[u].range, code)
    ensures t == u
  {
    var rows := UniqueRows(m);
    var a, k := AllRulesOrigin(SeederAlphabet, m, rows, t);
    var b, l := AllRulesOrigin(SeederAlphabet, m, rows, u);
    var i := RuleColumn(m, t, a, k, code);
    var j := RuleColumn(m, u, b, l, code);
    RowOnce(m, a, b);
    SegOnce(SeederAlphabet, m, rows[a], k, l, i);
  }

  /** The range of a rule starts with the row letter. */
  lemma RuleOfRow(headers: string, rowLetter: char, seg: Segment)
    requires seg.first < |headers| && seg.last < |headers|
    ensures |RuleOf(headers, rowLetter, seg).range| >= 2 && RuleOf(headers, rowLetter, seg).range[0] == rowLetter
  {
  }

  /** The rule at `t`, of the `k`th range of the row at index `a`, is a range of that row. */
  lemma RuleRow(m: map<string, string>, t: nat, a: nat, k: nat)
    requires a < |UniqueRows(m)| && k < |RowSegs(SeederAlphabet, m, UniqueRows(m)[a])|
    requires t == Offset(SeederAlphabet, m, UniqueRows(m), a) + k && t < |Rules(m)|
    ensures |Rules(m)[t].range| >= 2 && Rules(m)[t].range[0] == UniqueRows(m)[a]
  {
    RowRuleAt(m, a, k);
    RuleOfRow(SeederAlphabet, UniqueRows(m)[a], RowSegs(SeederAlphabet, m, UniqueRows(m)[a])[k]);
  }

  /** The rules come row by row, in `VIN_CHARACTERS` order of the row letters. */
  lemma RulesInRowOrder(m: map<string, string>, t: nat, u: nat)
    requires t < u < |Rules(m)|
    ensures |Rules(m)[t].range| >= 2 && |Rules(m)[u].range| >= 2
    ensures Rules(m)[t].range[0] in SeederAlphabet && Rules(m)[u].range[0] in SeederAlphabet
    ensures IndexOf(SeederAlphabet, Rules(m)[t].range[0]) <= IndexOf(SeederAlphabet, Rules(m)[u].range[0])
  {
    var rows := UniqueRows(m);
    var a, k := AllRulesOrigin(SeederAlphabet, m, rows, t);
    var b, l := AllRulesOrigin(SeederAlphabet, m, rows, u);
    RuleRow(m, t, a, k);
    RuleRow(m, u, b, l);
    if b < a {
      OffsetsGrow(SeederAlphabet, m, rows, b, a);
    }
    UniqueRowsSorted(m);
    assert rows[a] in rows && rows[b] in rows;
  }

  // ---------------------------------------------------------------------------------------
  // The parser
  // ---------------------------------------------------------------------------------------

  /** `parse_wmi_region_table` on the rows of the second `wikitable`: the row loop fills the
      map, phase 3 turns it into rules. It fails where the row loop raises, or where a row
      letter is not a VIN character. */
  method ParseWmiRegionTable(rows: seq<seq<Cell>>) returns (r: Result<seq<Rule>, ScrapeError>)
    requires RowsOk(rows)
    ensures ScrapeAll(rows).Failure? ==> r == Failure(ScrapeAll(rows).error)
    ensures ScrapeAll(rows).Success? ==>
      (r.Success? <==> LettersKnown(ScrapeAll(rows).value.wmiMap)) &&
      (r.Success? ==> r.value == Rules(ScrapeAll(rows).value.wmiMap))
  {
    var scan := ScrapeRows(rows);
    if scan.Failure? {
      return Failure(scan.error);
    }
    r := Consolidate(SeederAlphabet, scan.value.wmiMap);
  }
}
