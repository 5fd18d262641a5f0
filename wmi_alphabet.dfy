/** The alphabet order shared by the WMI seeding scripts (src/wmi_region_code_seeder.py,
    src/wmi_factory_code_seeder.py, src/fill_missing_ranges.py): the decoder's 33 symbols with
    '0' moved after '9'. Range expansion walks this order, so 'A'..'0' covers a whole row. */
module WmiAlphabet {
  import opened Wrappers
  import opened Text
  import Vin

  const SeederAlphabet: string := "ABCDEFGHJKLMNPRSTUVWXYZ1234567890"

  /** The seeders' alphabet holds the decoder's 33 symbols... */
  lemma SeederAlphabetIsPermutation()
    ensures |SeederAlphabet| == |Vin.VinCharacters| == 33
    ensures multiset(SeederAlphabet) == multiset(Vin.VinCharacters)
  {
    var v := Vin.VinCharacters;
    SeederAlphabetRotated();
    assert v == v[..23] + [v[23]] + v[24..];
    SwapTail(v[..23], [v[23]], v[24..]);
  }

  /** The seeders' alphabet is the decoder's with its '0' moved to the end. */
  lemma SeederAlphabetRotated()
    ensures SeederAlphabet == Vin.VinCharacters[..23] + Vin.VinCharacters[24..] + [Vin.VinCharacters[23]]
  {
  }

  lemma SwapTail<T>(a: seq<T>, b: seq<T>, c: seq<T>)
    ensures multiset(a + b + c) == multiset(a + c + b)
  {
    assert multiset(a + b + c) == multiset(a) + multiset(b) + multiset(c);
    assert multiset(a + c + b) == multiset(a) + multiset(c) + multiset(b);
  }

  /** ...in another order: it starts at 'A' and ends at '0'. */
  lemma SeederAlphabetOrder()
    ensures SeederAlphabet[0] == 'A' && SeederAlphabet[32] == '0'
    ensures SeederAlphabet != Vin.VinCharacters
  {
    assert SeederAlphabet[23] != Vin.VinCharacters[23];
  }

  /** A numbering under which the alphabet ascends: letters, then '1' to '9', then '0'. */
  function Rank(c: char): int {
    if c == '0' then 200 else if IsDigit(c) then c as int + 100 else c as int
  }

  /** Each symbol ranks below the next. */
  predicate Ascending(s: string) {
    forall i :: 0 <= i < |s| - 1 ==> Rank(s[i]) < Rank(s[i + 1])
  }

  lemma {:induction false} AscendingRanks(s: string, i: nat, j: nat)
    requires Ascending(s) && i < j < |s|
    ensures Rank(s[i]) < Rank(s[j])
    decreases j - i
  {
    if i + 1 < j {
      AscendingRanks(s, i + 1, j);
    }
  }

  lemma AscendingDistinct(s: string)
    requires Ascending(s)
    ensures Distinct(s)
  {
    forall i, j | 0 <= i < j < |s| ensures s[i] != s[j] {
      AscendingRanks(s, i, j);
    }
  }

  lemma AscendingAppend(x: string, y: string)
    requires Ascending(x) && Ascending(y)
    requires x == [] || y == [] || Rank(x[|x| - 1]) < Rank(y[0])
    ensures Ascending(x + y)
  {
    forall i | 0 <= i < |x + y| - 1 ensures Rank((x + y)[i]) < Rank((x + y)[i + 1]) {
      if i + 1 < |x| {
        assert (x + y)[i] == x[i] && (x + y)[i + 1] == x[i + 1];
      } else if i + 1 == |x| {
        assert (x + y)[i] == x[i] && (x + y)[i + 1] == y[0];
      } else {
        assert (x + y)[i] == y[i - |x|] && (x + y)[i + 1] == y[i - |x| + 1];
      }
    }
  }

  lemma LettersAscending()
    ensures Ascending("ABCDEFGHJKLMNPRS")
  {
  }

  lemma RestAscending()
    ensures Ascending("TUVWXYZ1234567890")
  {
    DigitsAscending();
    assert Ascending("TUVWXYZ1");
    AscendingAppend("TUVWXYZ1", "234567890");
  }

  lemma DigitsAscending()
    ensures Ascending("234567890")
  {
    assert Ascending("2345") && Ascending("67890");
    AscendingAppend("2345", "67890");
    assert "234567890" == "2345" + "67890";
  }

  /** No symbol occurs twice. */
  lemma SeederAlphabetDistinct()
    ensures Distinct(SeederAlphabet)
  {
    LettersAscending();
    RestAscending();
    AscendingAppend("ABCDEFGHJKLMNPRS", "TUVWXYZ1234567890");
    assert SeederAlphabet == "ABCDEFGHJKLMNPRS" + "TUVWXYZ1234567890";
    AscendingDistinct(SeederAlphabet);
  }

  /** The decoder's symbols hold no repetition either: it is the seeders' alphabet with the '0'
      taken from the end and put after the 'Z'. */
  lemma VinCharactersDistinct()
    ensures Distinct(Vin.VinCharacters)
  {
    SeederAlphabetDistinct();
    SeederAlphabetRotated();
    var v := Vin.VinCharacters;
    forall i, j | 0 <= i < j < |v|
      ensures v[i] != v[j]
    {
      assert v[i] == SeederAlphabet[Moved(i)] && v[j] == SeederAlphabet[Moved(j)];
    }
  }

  /** Where the symbol at index `i` of the decoder's order sits in the seeders' alphabet. */
  function Moved(i: nat): nat {
    if i < 23 then i else if i == 23 then 32 else i - 1
  }

  /** Every symbol of the decoder is in the seeders' alphabet. */
  lemma VinCharacterInAlphabet(c: char)
    requires c in Vin.VinCharacters
    ensures c in SeederAlphabet
  {
    SeederAlphabetIsPermutation();
    assert c in multiset(Vin.VinCharacters);
  }

  /** `prefix + symbols[k]` for k from `lo` to `hi`, both included. */
  function Spread(symbols: string, prefix: string, lo: nat, hi: int): (codes: seq<string>)
    requires hi < |symbols|
    ensures |codes| == if lo <= hi then hi - lo + 1 else 0
    ensures forall k :: 0 <= k < |codes| ==> lo + k <= hi && codes[k] == prefix + [symbols[lo + k]]
  {
    if lo <= hi then seq(hi - lo + 1, k requires 0 <= k < hi - lo + 1 => prefix + [symbols[lo + k]]) else []
  }

  /** `prefix + VIN_CHARACTERS[i]` for i from the index of `a` to the index of `b` in `symbols`,
      both included; nothing when either character is missing (the ValueError of `list.index`
      is caught before anything is appended). The scripts use `SeederAlphabet` for `symbols`. */
  function Span(symbols: string, prefix: string, a: char, b: char): (codes: seq<string>)
    ensures a !in symbols || b !in symbols ==> codes == []
  {
    if a in symbols && b in symbols then Spread(symbols, prefix, IndexOf(symbols, a), IndexOf(symbols, b))
    else []
  }

  /** Every code of a span is the prefix and one more symbol. */
  lemma SpanShape(symbols: string, prefix: string, a: char, b: char)
    ensures forall code :: code in Span(symbols, prefix, a, b) ==>
      |code| == |prefix| + 1 && code[..|prefix|] == prefix
  {
    forall code | code in Span(symbols, prefix, a, b)
      ensures |code| == |prefix| + 1 && code[..|prefix|] == prefix
    {
      assert a in symbols && b in symbols;
      var k :| 0 <= k < |Span(symbols, prefix, a, b)| && Span(symbols, prefix, a, b)[k] == code;
      SpanAt(symbols, prefix, a, b, k);
      assert code[..|prefix|] == prefix;
    }
  }

  /** Every code of a span is the prefix followed by a symbol between the two ends. */
  lemma SpanSound(symbols: string, prefix: string, a: char, b: char, code: string)
    requires Distinct(symbols)
    requires code in Span(symbols, prefix, a, b)
    ensures a in symbols && b in symbols
    ensures |code| == |prefix| + 1 && code[..|prefix|] == prefix && code[|prefix|] in symbols
    ensures IndexOf(symbols, a) <= IndexOf(symbols, code[|prefix|]) <= IndexOf(symbols, b)
  {
    var codes := Span(symbols, prefix, a, b);
    assert a in symbols && b in symbols;
    var k :| 0 <= k < |codes| && codes[k] == code;
    SpanAt(symbols, prefix, a, b, k);
    IndexOfDistinct(symbols, IndexOf(symbols, a) + k);
  }

  /** The k-th code of a span. */
  lemma SpanAt(symbols: string, prefix: string, a: char, b: char, k: nat)
    requires a in symbols && b in symbols
    requires k < |Span(symbols, prefix, a, b)|
    ensures IndexOf(symbols, a) + k < |symbols|
    ensures Span(symbols, prefix, a, b)[k] == prefix + [symbols[IndexOf(symbols, a) + k]]
  {
    var lo, hi := IndexOf(symbols, a), IndexOf(symbols, b);
    var codes := Spread(symbols, prefix, lo, hi);
    assert Span(symbols, prefix, a, b) == codes;
    assert codes[k] == prefix + [symbols[lo + k]];
  }

  /** Every symbol between the two ends gives a code of the span. */
  lemma SpanComplete(symbols: string, prefix: string, a: char, b: char, c: char)
    requires a in symbols && b in symbols && c in symbols
    requires IndexOf(symbols, a) <= IndexOf(symbols, c) <= IndexOf(symbols, b)
    ensures prefix + [c] in Span(symbols, prefix, a, b)
  {
    var lo := IndexOf(symbols, a);
    var m := IndexOf(symbols, c);
    SpanAt(symbols, prefix, a, b, m - lo);
    assert Span(symbols, prefix, a, b)[m - lo] == prefix + [c];
  }

  /** The span from the first symbol to the last is the whole alphabet. */
  lemma WholeSpan(symbols: string, prefix: string)
    requires Distinct(symbols) && |symbols| > 0
    ensures Span(symbols, prefix, symbols[0], symbols[|symbols| - 1]) == Spread(symbols, prefix, 0, |symbols| - 1)
  {
    IndexOfDistinct(symbols, 0);
    IndexOfDistinct(symbols, |symbols| - 1);
  }

  /** The append loop of the expanders: `for i in range(start_idx, end_idx + 1): codes.append(...)`. */
  method AppendSpan(symbols: string, prefix: string, a: char, b: char) returns (codes: seq<string>)
    ensures codes == Span(symbols, prefix, a, b)
  {
    codes := [];
    var startIdx := Find(symbols, a);
    var endIdx := Find(symbols, b);
    if startIdx.None? || endIdx.None? {
      return;
    }
    var lo, hi := startIdx.value, endIdx.value;
    assert lo == IndexOf(symbols, a) && hi == IndexOf(symbols, b);
    var i := lo;
    while i < hi + 1
      invariant lo <= i <= if lo <= hi then hi + 1 else lo
      invariant codes == Spread(symbols, prefix, lo, i - 1)
    {
      codes := codes + [prefix + [symbols[i]]];
      i := i + 1;
    }
  }
}
