/** src/wmi_region_code_seeder.py: expansion of two-character region-code ranges, the region
    placeholder records, the name mapping, and the loop that fills `wmi_region_codes`. */
module RegionCodes {
  import opened Wrappers
  import opened Text
  import opened Tables
  import opened WmiAlphabet

  // ---------------------------------------------------------------------------------------
  // expand_range
  // ---------------------------------------------------------------------------------------

  /** `start, end = range_str.split('-')` raises ValueError unless each comma-separated part
      holds at most one '-'; the model asks this of its callers. */
  predicate DashesOk(raw: string) {
    forall p :: p in Split(Strip(raw), ',') ==> PartOk(p)
  }

  /** A whole row: the character followed by each symbol, in alphabet order. */
  function Row(first: string): (codes: seq<string>)
    ensures |codes| == |SeederAlphabet|
  {
    seq(|SeederAlphabet|, i requires 0 <= i < |SeederAlphabet| => first + [SeederAlphabet[i]])
  }

  /** `expand_range` on a stripped string without a comma. */
  function ExpandPart(s: string): seq<string>
    requires Count(s, '-') <= 1
  {
    if '-' in s then
      CountZero(s, '-');
      SplitCount(s, '-');
      var halves := Split(s, '-');
      var start := Strip(halves[0]);
      var end := Strip(halves[1]);
      if |start| == 2 && |end| == 2 then Span(SeederAlphabet, start[..1], start[1], end[1]) else []
    else if |s| == 1 then Row(s)
    else if |s| == 2 then [s]
    else []
  }

  /** A part ready for `ExpandPart` once stripped: no comma, at most one dash. */
  predicate PartOk(p: string) {
    ',' !in p && Count(p, '-') <= 1
  }

  lemma StrippedPartOk(p: string)
    requires PartOk(p)
    ensures PartOk(Strip(p))
  {
    StripSlice(p, '-');
    StripSlice(p, ',');
  }

  /** The expansions of comma-separated parts, each stripped, concatenated in order. */
  function ExpandParts(parts: seq<string>): seq<string>
    requires forall p :: p in parts ==> PartOk(p)
  {
    if parts == [] then []
    else
      StrippedPartOk(parts[0]);
      ExpandPart(Strip(parts[0])) + ExpandParts(parts[1..])
  }

  /** What `expand_range(range_str)` returns. */
  function Expansion(raw: string): seq<string>
    requires DashesOk(raw)
  {
    var s := Strip(raw);
    if ',' in s then ExpandParts(Split(s, ','))
    else
      assert Split(s, ',') == [s] && s in [s];
      ExpandPart(s)
  }

  /** A stripped comma-free part is expanded by the part rule, and satisfies the precondition of
      the recursive call. */
  lemma PartExpansion(p: string)
    requires PartOk(p)
    ensures DashesOk(Strip(p)) && PartOk(Strip(p))
    ensures Expansion(Strip(p)) == ExpandPart(Strip(p))
  {
    StripIdempotent(p);
    StrippedPartOk(p);
    UnpaddedPartExpansion(Strip(p));
  }

  lemma UnpaddedPartExpansion(q: string)
    requires PartOk(q) && Strip(q) == q
    ensures DashesOk(q) && Expansion(q) == ExpandPart(q)
  {
    assert Split(q, ',') == [q];
  }

  lemma {:induction false} ExpandPartsAppend(xs: seq<string>, ys: seq<string>)
    requires forall p :: p in xs ==> PartOk(p)
    requires forall p :: p in ys ==> PartOk(p)
    ensures ExpandParts(xs + ys) == ExpandParts(xs) + ExpandParts(ys)
  {
    if xs == [] {
      assert xs + ys == ys;
    } else {
      assert (xs + ys)[0] == xs[0] && (xs + ys)[1..] == xs[1..] + ys;
      ExpandPartsAppend(xs[1..], ys);
    }
  }

  /** `expand_range`: recursion on the comma-separated parts, append loops for the codes. */
  method ExpandRange(rangeStr: string) returns (codes: seq<string>)
    requires DashesOk(rangeStr)
    ensures codes == Expansion(rangeStr)
    decreases |rangeStr|
  {
    var s := Strip(rangeStr);
    if ',' !in s {
      assert Split(s, ',') == [s] && s in [s];
      codes := ExpandStripped(s);
      return;
    }
    codes := [];
    var pieces := Split(s, ',');
    for k := 0 to |pieces|
      invariant codes == ExpandParts(pieces[..k])
    {
      CommaStep(pieces, k);
      assert pieces[k] in pieces;
      var sub := ExpandRange(Strip(pieces[k]));
      codes := codes + sub;
    }
    assert pieces[..|pieces|] == pieces;
  }

  lemma ExpandPartsSingle(p: string)
    requires PartOk(p)
    ensures PartOk(Strip(p)) && ExpandParts([p]) == ExpandPart(Strip(p))
  {
    StrippedPartOk(p);
    assert [p][1..] == [];
  }

  lemma ExpandPartsSnoc(xs: seq<string>, p: string)
    requires forall q :: q in xs ==> PartOk(q)
    requires PartOk(p)
    ensures PartOk(Strip(p))
    ensures ExpandParts(xs + [p]) == ExpandParts(xs) + ExpandPart(Strip(p))
  {
    ExpandPartsAppend(xs, [p]);
    ExpandPartsSingle(p);
  }

  /** One step of the loop over the parts of a comma list. */
  lemma CommaStep(pieces: seq<string>, k: nat)
    requires forall q :: q in pieces ==> PartOk(q)
    requires k < |pieces|
    ensures DashesOk(Strip(pieces[k]))
    ensures ExpandParts(pieces[..k + 1]) == ExpandParts(pieces[..k]) + Expansion(Strip(pieces[k]))
  {
    var p := pieces[k];
    assert p in pieces;
    PartExpansion(p);
    assert pieces[..k + 1] == pieces[..k] + [p];
    ExpandPartsSnoc(pieces[..k], p);
  }

  /** The body of `expand_range` once the string is stripped and holds no comma. */
  method ExpandStripped(s: string) returns (codes: seq<string>)
    requires Count(s, '-') <= 1
    ensures codes == ExpandPart(s)
  {
    codes := [];
    if '-' in s {
      CountZero(s, '-');
      SplitCount(s, '-');
      var halves := Split(s, '-');
      var start := Strip(halves[0]);
      var end := Strip(halves[1]);
      if |start| == 2 && |end| == 2 {
        codes := AppendSpan(SeederAlphabet, start[..1], start[1], end[1]);
      }
    } else if |s| == 1 {
      for i := 0 to |SeederAlphabet|
        invariant codes == Row(s)[..i]
      {
        codes := codes + [s + [SeederAlphabet[i]]];
      }
    } else if |s| == 2 {
      codes := [s];
    }
  }

  lemma SliceParts(pieces: seq<string>, k: nat)
    requires forall q :: q in pieces ==> PartOk(q)
    requires k <= |pieces|
    ensures pieces == pieces[..k] + pieces[k..]
    ensures forall q :: q in pieces[..k] ==> PartOk(q)
    ensures forall q :: q in pieces[k..] ==> PartOk(q)
  {
    assert forall q :: q in pieces[..k] ==> q in pieces;
    assert forall q :: q in pieces[k..] ==> q in pieces;
  }

  /** The expansion of a list of parts, cut around its k-th part. */
  lemma ExpandPartsAround(pieces: seq<string>, k: nat)
    requires forall q :: q in pieces ==> PartOk(q)
    requires k < |pieces|
    ensures DashesOk(Strip(pieces[k]))
    ensures ExpandParts(pieces) == ExpandParts(pieces[..k]) + Expansion(Strip(pieces[k])) + ExpandParts(pieces[k + 1..])
  {
    CommaStep(pieces, k);
    var front, back := pieces[..k + 1], pieces[k + 1..];
    SliceParts(pieces, k + 1);
    ExpandPartsAppend(front, back);
  }

  /** In a comma list, the expansion of the k-th stripped part sits, in order, between those of
      the parts before and after it. */
  lemma CommaListExpansion(raw: string, k: nat)
    requires DashesOk(raw) && ',' in Strip(raw) && k < |Split(Strip(raw), ',')|
    ensures var parts := Split(Strip(raw), ',');
      DashesOk(Strip(parts[k])) &&
      Expansion(raw) == ExpandParts(parts[..k]) + Expansion(Strip(parts[k])) + ExpandParts(parts[k + 1..])
  {
    ExpandPartsAround(Split(Strip(raw), ','), k);
  }

  /** Without a comma, the stripped string is one part. */
  lemma CommaFreeExpansion(raw: string)
    requires DashesOk(raw) && ',' !in Strip(raw)
    ensures PartOk(Strip(raw)) && Expansion(raw) == ExpandPart(Strip(raw))
  {
    var s := Strip(raw);
    assert Split(s, ',') == [s] && s in [s];
  }

  /** Every code `expand_range` returns has two characters. */
  lemma ExpansionCodesHaveTwoCharacters(raw: string)
    requires DashesOk(raw)
    ensures forall code :: code in Expansion(raw) ==> |code| == 2
  {
    var s := Strip(raw);
    if ',' in s {
      PartsCodesHaveTwoCharacters(Split(s, ','));
    } else {
      assert Split(s, ',') == [s] && s in [s];
      PartCodesHaveTwoCharacters(s);
    }
  }

  lemma PartCodesHaveTwoCharacters(s: string)
    requires Count(s, '-') <= 1
    ensures forall code :: code in ExpandPart(s) ==> |code| == 2
  {
    if '-' in s {
      CountZero(s, '-');
      SplitCount(s, '-');
    }
  }

  lemma {:induction false} PartsCodesHaveTwoCharacters(parts: seq<string>)
    requires forall p :: p in parts ==> PartOk(p)
    ensures forall code :: code in ExpandParts(parts) ==> |code| == 2
  {
    if parts != [] {
      StrippedPartOk(parts[0]);
      PartCodesHaveTwoCharacters(Strip(parts[0]));
      PartsCodesHaveTwoCharacters(parts[1..]);
    }
  }

  /** A single character expands to its whole row of 33 codes, 'A' first and '0' last. */
  lemma SingleCharacterRow(raw: string)
    requires DashesOk(raw) && |Strip(raw)| == 1 && Strip(raw) != "," && Strip(raw) != "-"
    ensures |Expansion(raw)| == 33
    ensures forall i :: 0 <= i < 33 ==> Expansion(raw)[i] == Strip(raw) + [SeederAlphabet[i]]
  {
    var s := Strip(raw);
    assert ',' !in s && '-' !in s by {
      assert s == [s[0]];
    }
    CommaFreeExpansion(raw);
  }

  /** Two characters without a dash or comma expand to themselves; any other length to nothing. */
  lemma PlainCodeExpansion(raw: string)
    requires DashesOk(raw) && ',' !in Strip(raw) && '-' !in Strip(raw)
    ensures |Strip(raw)| == 2 ==> Expansion(raw) == [Strip(raw)]
    ensures |Strip(raw)| != 1 && |Strip(raw)| != 2 ==> Expansion(raw) == []
  {
    CommaFreeExpansion(raw);
  }

  /** The two halves of a part with one dash. */
  lemma DashHalves(s: string)
    requires PartOk(s) && '-' in s
    ensures |Split(s, '-')| == 2
  {
    CountZero(s, '-');
    SplitCount(s, '-');
  }

  /** Predicate form of "`code` lies in the range from `start` to `end`". */
  predicate InRange(symbols: string, code: string, start: string, end: string)
    requires |start| == 2 && |end| == 2 && start[1] in symbols && end[1] in symbols
  {
    |code| == 2 && code[0] == start[0] && code[1] in symbols &&
    IndexOf(symbols, start[1]) <= IndexOf(symbols, code[1]) <= IndexOf(symbols, end[1])
  }

  /** The codes of a dash part with two-character ends in the alphabet are those of a span. */
  lemma DashPartSpan(s: string)
    requires PartOk(s) && '-' in s
    ensures |Split(s, '-')| == 2
    ensures var start := Strip(Split(s, '-')[0]);
      var end := Strip(Split(s, '-')[1]);
      |start| == 2 && |end| == 2 ==> ExpandPart(s) == Span(SeederAlphabet, start[..1], start[1], end[1])
  {
    DashHalves(s);
  }

  /** The codes of a dash part are exactly those in range. */
  lemma DashPartMembers(s: string, code: string)
    requires PartOk(s) && '-' in s
    ensures |Split(s, '-')| == 2
    ensures var start := Strip(Split(s, '-')[0]);
      var end := Strip(Split(s, '-')[1]);
      |start| == 2 && |end| == 2 && start[1] in SeederAlphabet && end[1] in SeederAlphabet ==>
        (code in ExpandPart(s) <==> InRange(SeederAlphabet, code, start, end))
  {
    DashPartSpan(s);
    var start := Strip(Split(s, '-')[0]);
    var end := Strip(Split(s, '-')[1]);
    if |start| == 2 && |end| == 2 && start[1] in SeederAlphabet && end[1] in SeederAlphabet {
      SeederAlphabetDistinct();
      SpanInRange(SeederAlphabet, start, end, code);
    }
  }

  lemma SpanInRange(symbols: string, start: string, end: string, code: string)
    requires Distinct(symbols)
    requires |start| == 2 && |end| == 2 && start[1] in symbols && end[1] in symbols
    ensures code in Span(symbols, start[..1], start[1], end[1]) <==> InRange(symbols, code, start, end)
  {
    if code in Span(symbols, start[..1], start[1], end[1]) {
      SpanSound(symbols, start[..1], start[1], end[1], code);
    }
    if InRange(symbols, code, start, end) {
      SpanComplete(symbols, start[..1], start[1], end[1], code[1]);
      assert code == start[..1] + [code[1]];
    }
  }

  /** A dash part whose ends are not two characters, or not in the alphabet, gives nothing. */
  lemma DashPartEmpty(s: string)
    requires PartOk(s) && '-' in s
    ensures |Split(s, '-')| == 2
    ensures var start := Strip(Split(s, '-')[0]);
      var end := Strip(Split(s, '-')[1]);
      |start| != 2 || |end| != 2 || start[1] !in SeederAlphabet || end[1] !in SeederAlphabet ==>
        ExpandPart(s) == []
  {
    DashHalves(s);
  }

  /** A dash range `XA-YB` with two-character ends lists X followed by each symbol from A to B,
      in alphabet order; the first character of the end is ignored, and an end outside the
      alphabet or after the start gives nothing. */
  lemma DashRangeExpansion(raw: string, code: string)
    requires DashesOk(raw) && ',' !in Strip(raw) && '-' in Strip(raw)
    ensures var halves := Split(Strip(raw), '-');
      |halves| == 2 &&
      var start := Strip(halves[0]);
      var end := Strip(halves[1]);
      (|start| == 2 && |end| == 2 && start[1] in SeederAlphabet && end[1] in SeederAlphabet ==>
        (code in Expansion(raw) <==> InRange(SeederAlphabet, code, start, end))) &&
      (|start| != 2 || |end| != 2 || start[1] !in SeederAlphabet || end[1] !in SeederAlphabet ==> Expansion(raw) == [])
  {
    CommaFreeExpansion(raw);
    DashPartMembers(Strip(raw), code);
    DashPartEmpty(Strip(raw));
  }
}
