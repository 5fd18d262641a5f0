/** src/wmi_factory_code_seeder.py: expansion of three-character WMI ranges, the parsing of the
    `WMI` field of a factory entry, and the upsert that fills `wmi_factories`. */
module FactoryCodes {
  import opened Wrappers
  import opened Text
  import opened Tables
  import opened WmiAlphabet

  // ---------------------------------------------------------------------------------------
  // expand_wmi_range
  // ---------------------------------------------------------------------------------------

  /** `start, end = range_str.split('-')` raises ValueError on a second '-'; the model asks
      callers for at most one. */
  predicate OneDash(raw: string) {
    Count(raw, '-') <= 1
  }

  /** `expand_wmi_range`: a range `PQA-PQB` with three-character ends lists the prefix of the start
      followed by each symbol from A to B; a bare three-character string is itself; anything
      else is nothing. */
  function WmiExpansion(raw: string): seq<string>
    requires OneDash(raw)
  {
    var s := Strip(raw);
    StripSlice(raw, '-');
    if '-' in s then
      CountZero(s, '-');
      SplitCount(s, '-');
      var halves := Split(s, '-');
      var start := Strip(halves[0]);
      var end := Strip(halves[1]);
      if |start| == 3 && |end| == 3 then Span(SeederAlphabet, start[..2], start[2], end[2]) else []
    else if |s| == 3 then [s]
    else []
  }

  /** `expand_wmi_range`, with its append loop. */
  method ExpandWmiRange(rangeStr: string) returns (codes: seq<string>)
    requires OneDash(rangeStr)
    ensures codes == WmiExpansion(rangeStr)
  {
    var s := Strip(rangeStr);
    StripSlice(rangeStr, '-');
    codes := [];
    if '-' in s {
      CountZero(s, '-');
      SplitCount(s, '-');
      var halves := Split(s, '-');
      var start := Strip(halves[0]);
      var end := Strip(halves[1]);
      if |start| == 3 && |end| == 3 {
        codes := AppendSpan(SeederAlphabet, start[..2], start[2], end[2]);
      }
    } else if |s| == 3 {
      codes := codes + [s];
    }
  }

  /** `code` is the prefix followed by a symbol from `a` to `b`, in the order of `symbols`. */
  predicate InSpan(symbols: string, prefix: string, a: char, b: char, code: string)
    requires a in symbols && b in symbols
  {
    |code| == |prefix| + 1 && code[..|prefix|] == prefix && code[|prefix|] in symbols &&
    IndexOf(symbols, a) <= IndexOf(symbols, code[|prefix|]) <= IndexOf(symbols, b)
  }

  /** The codes of a span are exactly those in it. */
  lemma SpanMembers(symbols: string, prefix: string, a: char, b: char, code: string)
    requires Distinct(symbols) && a in symbols && b in symbols
    ensures code in Span(symbols, prefix, a, b) <==> InSpan(symbols, prefix, a, b, code)
  {
    if code in Span(symbols, prefix, a, b) {
      SpanSound(symbols, prefix, a, b, code);
    }
    if InSpan(symbols, prefix, a, b, code) {
      SpanComplete(symbols, prefix, a, b, code[|prefix|]);
      assert code == prefix + [code[|prefix|]];
    }
  }

  /** The codes of a span come in alphabet order, each once. */
  lemma SpanOrdered(symbols: string, prefix: string, a: char, b: char, i: nat, j: nat)
    requires Distinct(symbols) && a in symbols && b in symbols
    requires i < j < |Span(symbols, prefix, a, b)|
    ensures |Span(symbols, prefix, a, b)[i]| == |prefix| + 1 == |Span(symbols, prefix, a, b)[j]|
    ensures Span(symbols, prefix, a, b)[i][|prefix|] in symbols
    ensures Span(symbols, prefix, a, b)[j][|prefix|] in symbols
    ensures IndexOf(symbols, Span(symbols, prefix, a, b)[i][|prefix|])
          < IndexOf(symbols, Span(symbols, prefix, a, b)[j][|prefix|])
  {
    var ia := IndexOf(symbols, a);
    SpanAt(symbols, prefix, a, b, i);
    SpanAt(symbols, prefix, a, b, j);
    IndexOfDistinct(symbols, ia + i);
    IndexOfDistinct(symbols, ia + j);
  }

  /** A dashed range with three-character ends in the alphabet gives exactly the codes formed
      from the start's two-character prefix and a third symbol between the two third symbols,
      in alphabet order; the prefix of the end is ignored. Other dashed strings give nothing. */
  lemma WmiRangeMembers(raw: string, code: string)
    requires OneDash(raw) && '-' in Strip(raw)
    ensures |Split(Strip(raw), '-')| == 2
    ensures var start := Strip(Split(Strip(raw), '-')[0]);
      var end := Strip(Split(Strip(raw), '-')[1]);
      if |start| == 3 && |end| == 3 && start[2] in SeederAlphabet && end[2] in SeederAlphabet then
        (code in WmiExpansion(raw) <==> InSpan(SeederAlphabet, start[..2], start[2], end[2], code))
      else WmiExpansion(raw) == []
  {
    var s := Strip(raw);
    StripSlice(raw, '-');
    CountZero(s, '-');
    SplitCount(s, '-');
    var start := Strip(Split(s, '-')[0]);
    var end := Strip(Split(s, '-')[1]);
    if |start| == 3 && |end| == 3 && start[2] in SeederAlphabet && end[2] in SeederAlphabet {
      SeederAlphabetDistinct();
      SpanMembers(SeederAlphabet, start[..2], start[2], end[2], code);
    }
  }

  /** Without a dash, a three-character string is returned as it is, unchecked, and any other
      length gives nothing. */
  lemma WmiBareCode(raw: string)
    requires OneDash(raw) && '-' !in Strip(raw)
    ensures |Strip(raw)| == 3 ==> WmiExpansion(raw) == [Strip(raw)]
    ensures |Strip(raw)| != 3 ==> WmiExpansion(raw) == []
  {
  }

  /** Every code `expand_wmi_range` returns has three characters. */
  lemma WmiCodesHaveThreeCharacters(raw: string)
    requires OneDash(raw)
    ensures forall code :: code in WmiExpansion(raw) ==> |code| == 3
  {
  }

  // ---------------------------------------------------------------------------------------
  // parse_complex_wmi
  // ---------------------------------------------------------------------------------------

  /** `[p.strip() for p in parts]` */
  function Trimmed(parts: seq<string>): (r: seq<string>)
    ensures |r| == |parts| && forall i :: 0 <= i < |parts| ==> r[i] == Strip(parts[i])
  {
    seq(|parts|, i requires 0 <= i < |parts| => Strip(parts[i]))
  }

  /** Every part can go through `expand_wmi_range`. */
  predicate Expandable(parts: seq<string>) {
    forall p :: p in parts ==> OneDash(p)
  }

  /** The expansion of each part, in order. */
  function Expansions(parts: seq<string>): (r: seq<seq<string>>)
    requires Expandable(parts)
    ensures |r| == |parts|
  {
    seq(|parts|, i requires 0 <= i < |parts| => WmiExpansion(parts[i]))
  }

  lemma ExpansionsSlice(parts: seq<string>, k: nat)
    requires Expandable(parts) && k < |parts|
    ensures Expandable(parts[..k]) && Expandable(parts[..k + 1]) && OneDash(parts[k])
    ensures Expansions(parts[..k + 1]) == Expansions(parts[..k]) + [WmiExpansion(parts[k])]
  {
    var e := Expansions(parts);
    assert parts[k] in parts;
    ExpansionsTake(parts, k);
    ExpansionsTake(parts, k + 1);
    assert e[..k + 1] == e[..k] + [e[k]];
  }

  lemma TrimmedExpandable(parts: seq<string>)
    requires Expandable(parts)
    ensures Expandable(Trimmed(parts))
  {
    forall p | p in Trimmed(parts) ensures OneDash(p) {
      var i :| 0 <= i < |parts| && Trimmed(parts)[i] == p;
      StrippedOneDash(parts[i]);
    }
  }

  lemma StrippedOneDash(raw: string)
    requires OneDash(raw)
    ensures OneDash(Strip(raw))
  {
    StripSlice(raw, '-');
  }

  /** `parse_complex_wmi`: the comma-split, trimmed parts, expanded one after the other. */
  function ComplexExpansion(wmiStr: string): seq<string>
    requires Expandable(Split(wmiStr, ','))
  {
    TrimmedExpandable(Split(wmiStr, ','));
    Concat(Expansions(Trimmed(Split(wmiStr, ','))))
  }

  /** `parse_complex_wmi`, with its extend loop. */
  method ParseComplexWmi(wmiStr: string) returns (allCodes: seq<string>)
    requires Expandable(Split(wmiStr, ','))
    ensures allCodes == ComplexExpansion(wmiStr)
  {
    var pieces := Split(wmiStr, ',');
    TrimmedExpandable(pieces);
    var parts := seq(|pieces|, i requires 0 <= i < |pieces| => Strip(pieces[i]));
    assert parts == Trimmed(pieces);
    allCodes := [];
    for k := 0 to |parts|
      invariant Expandable(parts[..k])
      invariant allCodes == Concat(Expansions(parts[..k]))
    {
      assert parts[k] in parts;
      var codes := ExpandWmiRange(parts[k]);
      ComplexStep(parts, k, codes);
      allCodes := allCodes + codes;
    }
    assert parts[..|parts|] == parts;
  }

  /** One step of the extend loop. */
  lemma ComplexStep(parts: seq<string>, k: nat, codes: seq<string>)
    requires Expandable(parts) && k < |parts| && OneDash(parts[k]) && codes == WmiExpansion(parts[k])
    ensures Expandable(parts[..k]) && Expandable(parts[..k + 1])
    ensures Concat(Expansions(parts[..k + 1])) == Concat(Expansions(parts[..k])) + codes
  {
    ExpansionsSlice(parts, k);
    ConcatSnoc(Expansions(parts[..k]), codes);
  }

  /** The codes of `parse_complex_wmi` are those of its trimmed parts, in order: the codes of
      the parts before the k-th, then the k-th part's, then those of the rest. */
  lemma ComplexExpansionParts(wmiStr: string, k: nat)
    requires Expandable(Split(wmiStr, ',')) && k < |Split(wmiStr, ',')|
    ensures OneDash(Strip(Split(wmiStr, ',')[k]))
    ensures var parts := Trimmed(Split(wmiStr, ','));
      Expandable(parts[..k]) && Expandable(parts[k + 1..]) &&
      ComplexExpansion(wmiStr) ==
        Concat(Expansions(parts[..k])) + WmiExpansion(parts[k]) + Concat(Expansions(parts[k + 1..]))
  {
    var parts := Trimmed(Split(wmiStr, ','));
    TrimmedExpandable(Split(wmiStr, ','));
    ExpansionsAround(parts, k);
    ConcatAppend(Expansions(parts[..k]) + [WmiExpansion(parts[k])], Expansions(parts[k + 1..]));
    ConcatAppend(Expansions(parts[..k]), [WmiExpansion(parts[k])]);
    assert Concat([WmiExpansion(parts[k])]) == WmiExpansion(parts[k]);
  }

  lemma ExpansionsAround(parts: seq<string>, k: nat)
    requires Expandable(parts) && k < |parts|
    ensures Expandable(parts[..k]) && Expandable(parts[k + 1..]) && OneDash(parts[k])
    ensures Expansions(parts) == Expansions(parts[..k]) + [WmiExpansion(parts[k])] + Expansions(parts[k + 1..])
  {
    var e := Expansions(parts);
    assert parts[k] in parts;
    ExpansionsTake(parts, k);
    ExpansionsDrop(parts, k + 1);
    assert e == e[..k] + [e[k]] + e[k + 1..];
  }

  lemma ExpansionsTake(parts: seq<string>, k: nat)
    requires Expandable(parts) && k <= |parts|
    ensures Expandable(parts[..k]) && Expansions(parts[..k]) == Expansions(parts)[..k]
  {
    assert forall p :: p in parts[..k] ==> p in parts;
  }

  lemma ExpansionsDrop(parts: seq<string>, k: nat)
    requires Expandable(parts) && k <= |parts|
    ensures Expandable(parts[k..]) && Expansions(parts[k..]) == Expansions(parts)[k..]
  {
    assert forall p :: p in parts[k..] ==> p in parts;
  }

  /** A code comes out of `parse_complex_wmi` iff it comes out of some trimmed part. */
  lemma ComplexExpansionMembers(wmiStr: string, code: string)
    requires Expandable(Split(wmiStr, ','))
    ensures Expandable(Trimmed(Split(wmiStr, ',')))
    ensures code in ComplexExpansion(wmiStr) <==>
      exists j :: 0 <= j < |Trimmed(Split(wmiStr, ','))| && code in WmiExpansion(Trimmed(Split(wmiStr, ','))[j])
  {
    TrimmedExpandable(Split(wmiStr, ','));
    assert ComplexExpansion(wmiStr) == Concat(Expansions(Trimmed(Split(wmiStr, ','))));
    ExpansionsMembers(Trimmed(Split(wmiStr, ',')), code);
  }

  lemma ExpansionsMembers(parts: seq<string>, code: string)
    requires Expandable(parts)
    ensures code in Concat(Expansions(parts)) <==> exists j :: 0 <= j < |parts| && code in WmiExpansion(parts[j])
  {
    var xss := Expansions(parts);
    ConcatMember(xss, code);
    if code in Concat(xss) {
      var j :| 0 <= j < |xss| && code in xss[j];
      assert code in WmiExpansion(parts[j]);
    }
    if exists j :: 0 <= j < |parts| && code in WmiExpansion(parts[j]) {
      var j :| 0 <= j < |parts| && code in WmiExpansion(parts[j]);
      assert code in xss[j];
    }
  }
}
