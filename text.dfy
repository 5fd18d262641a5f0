/** The few Python string operations the scripts rely on, over `string` (= `seq<char>`).
    Case mapping is ASCII only; whitespace is what Python's `str.isspace()` accepts. */
module Text {
  import opened Wrappers

  /** Python's `str.isspace()` (also the class `\s` of the `re` module on `str` patterns). */
  predicate IsSpace(c: char) {
    c == ' ' || ('\t' <= c <= '\r') || ('\U{1C}' <= c <= '\U{1F}') || c == '\U{85}' || c == '\U{A0}'
    || c == '\U{1680}' || ('\U{2000}' <= c <= '\U{200A}') || c == '\U{2028}' || c == '\U{2029}'
    || c == '\U{202F}' || c == '\U{205F}' || c == '\U{3000}'
  }

  predicate IsAsciiLower(c: char) { 'a' <= c <= 'z' }
  predicate IsAsciiUpper(c: char) { 'A' <= c <= 'Z' }
  predicate IsDigit(c: char) { '0' <= c <= '9' }

  function UpperChar(c: char): char {
    if IsAsciiLower(c) then (c as int - 32) as char else c
  }

  function LowerChar(c: char): char {
    if IsAsciiUpper(c) then (c as int + 32) as char else c
  }

  /** `s.upper()` on ASCII letters. */
  function Upper(s: string): (r: string)
    ensures |r| == |s|
    ensures forall i :: 0 <= i < |s| ==> r[i] == UpperChar(s[i])
  {
    seq(|s|, i requires 0 <= i < |s| => UpperChar(s[i]))
  }

  /** `s.lower()` on ASCII letters. */
  function Lower(s: string): (r: string)
    ensures |r| == |s|
    ensures forall i :: 0 <= i < |s| ==> r[i] == LowerChar(s[i])
  {
    seq(|s|, i requires 0 <= i < |s| => LowerChar(s[i]))
  }

  /** `s.lstrip()` */
  function StripLeft(s: string): (r: string)
    ensures |r| <= |s| && r == s[|s| - |r|..]
    ensures r == [] || !IsSpace(r[0])
    ensures forall i :: 0 <= i < |s| - |r| ==> IsSpace(s[i])
  {
    if |s| > 0 && IsSpace(s[0]) then StripLeft(s[1..]) else s
  }

  /** `s.rstrip()` */
  function StripRight(s: string): (r: string)
    ensures |r| <= |s| && r == s[..|r|]
    ensures r == [] || !IsSpace(r[|r| - 1])
    ensures forall i :: |r| <= i < |s| ==> IsSpace(s[i])
  {
    if |s| > 0 && IsSpace(s[|s| - 1]) then StripRight(s[..|s| - 1]) else s
  }

  /** `s.strip()` */
  function Strip(s: string): (r: string)
    ensures |r| <= |s|
    ensures r == [] || (!IsSpace(r[0]) && !IsSpace(r[|r| - 1]))
    ensures |r| <= |StripLeft(s)| && r == StripLeft(s)[..|r|]
  {
    StripRight(StripLeft(s))
  }

  /** `strip(s)` is a slice of `s`: no new characters, no more occurrences of any. */
  lemma StripSlice(s: string, c: char)
    ensures c in Strip(s) ==> c in s
    ensures Count(Strip(s), c) <= Count(s, c)
  {
    var k := |s| - |StripLeft(s)|;
    var r := Strip(s);
    assert s == s[..k] + r + s[k + |r|..];
    CountAppend(s[..k] + r, s[k + |r|..], c);
    CountAppend(s[..k], r, c);
  }

  /** Stripping twice is stripping once. */
  lemma StripIdempotent(s: string)
    ensures Strip(Strip(s)) == Strip(s)
  {
    var r := Strip(s);
    assert StripLeft(r) == r;
    assert StripRight(r) == r;
  }

  /** A string with no white space at either end is its own strip. */
  lemma StripUnpadded(s: string)
    requires s == [] || (!IsSpace(s[0]) && !IsSpace(s[|s| - 1]))
    ensures Strip(s) == s
  {
    assert StripLeft(s) == s;
  }

  /** First index of `x` in `s`. */
  function IndexOf<T(==)>(s: seq<T>, x: T): (i: nat)
    requires x in s
    ensures i < |s| && s[i] == x
  {
    if s[0] == x then 0 else assert s[1..][IndexOf(s[1..], x)] == x; 1 + IndexOf(s[1..], x)
  }

  /** ... and the first one. */
  lemma {:induction false} IndexOfFirst<T>(s: seq<T>, x: T)
    requires x in s
    ensures x !in s[..IndexOf(s, x)]
  {
    if s[0] != x {
      IndexOfFirst(s[1..], x);
      assert s[..IndexOf(s, x)] == [s[0]] + s[1..][..IndexOf(s[1..], x)];
    }
  }

  /** No element occurs twice. */
  predicate Distinct<T(==)>(s: seq<T>) {
    forall i, j :: 0 <= i < j < |s| ==> s[i] != s[j]
  }

  /** In a list without repetitions, the first index of the element at `m` is `m`. */
  lemma IndexOfDistinct<T>(s: seq<T>, m: nat)
    requires Distinct(s)
    requires m < |s|
    ensures IndexOf(s, s[m]) == m
  {
  }

  /** Python's `list.index`: the first index of `x`, or None where Python raises ValueError. */
  function Find<T(==)>(s: seq<T>, x: T): (r: Option<nat>)
    ensures r.Some? <==> x in s
    ensures r.Some? ==> r.value < |s| && s[r.value] == x && x !in s[..r.value]
  {
    if x in s then IndexOfFirst(s, x); Some(IndexOf(s, x)) else None
  }

  /** Python's `s.split(c)` for a one-character separator. */
  function Split(s: string, c: char): (parts: seq<string>)
    ensures |parts| >= 1
    ensures forall p :: p in parts ==> c !in p
    ensures c !in s ==> parts == [s]
    ensures c in s ==> |parts| >= 2 && forall p :: p in parts ==> |p| < |s|
    decreases |s|
  {
    if c in s then
      var i := IndexOf(s, c);
      IndexOfFirst(s, c);
      [s[..i]] + Split(s[i + 1..], c)
    else
      [s]
  }

  /** `sep.join(parts)` */
  function Join(parts: seq<string>, sep: string): string {
    if parts == [] then ""
    else if |parts| == 1 then parts[0]
    else parts[0] + sep + Join(parts[1..], sep)
  }

  /** Concatenation of a list of lists (`for x in xs: out.extend(x)`). */
  function Concat<T>(xss: seq<seq<T>>): seq<T> {
    if xss == [] then [] else xss[0] + Concat(xss[1..])
  }

  lemma ConcatSnoc<T>(xss: seq<seq<T>>, ys: seq<T>)
    ensures Concat(xss + [ys]) == Concat(xss) + ys
  {
    if xss == [] {
      assert xss + [ys] == [ys];
    } else {
      assert (xss + [ys])[1..] == xss[1..] + [ys];
      ConcatSnoc(xss[1..], ys);
    }
  }

  lemma {:induction false} ConcatAppend<T>(xss: seq<seq<T>>, yss: seq<seq<T>>)
    ensures Concat(xss + yss) == Concat(xss) + Concat(yss)
  {
    if xss == [] {
      assert xss + yss == yss;
    } else {
      assert (xss + yss)[1..] == xss[1..] + yss;
      ConcatAppend(xss[1..], yss);
    }
  }

  lemma ConcatMember<T>(xss: seq<seq<T>>, x: T)
    ensures x in Concat(xss) <==> exists i :: 0 <= i < |xss| && x in xss[i]
  {
    if xss != [] {
      ConcatMember(xss[1..], x);
      if x in Concat(xss[1..]) {
        var i :| 0 <= i < |xss[1..]| && x in xss[1..][i];
        assert x in xss[i + 1];
      }
      if exists i :: 0 <= i < |xss| && x in xss[i] {
        var i :| 0 <= i < |xss| && x in xss[i];
        if i > 0 { assert x in xss[1..][i - 1]; }
      }
    }
  }

  /** `s.replace(a, b)` for single characters. */
  function ReplaceChar(s: string, a: char, b: char): (r: string)
    ensures |r| == |s|
    ensures forall i :: 0 <= i < |s| ==> r[i] == (if s[i] == a then b else s[i])
  {
    seq(|s|, i requires 0 <= i < |s| => if s[i] == a then b else s[i])
  }

  /** `s.replace(pat, rep)`: non-overlapping occurrences, left to right. */
  function ReplaceAll(s: string, pat: string, rep: string): string
    requires |pat| > 0
    decreases |s|
  {
    if |s| < |pat| then s
    else if s[..|pat|] == pat then rep + ReplaceAll(s[|pat|..], pat, rep)
    else [s[0]] + ReplaceAll(s[1..], pat, rep)
  }

  /** `s.split(pat)[0]`: the text before the first occurrence of `pat`. */
  function BeforeFirst(s: string, pat: string): (r: string)
    requires |pat| > 0
    ensures |r| <= |s| && r == s[..|r|]
    decreases |s|
  {
    if |s| < |pat| then s
    else if s[..|pat|] == pat then ""
    else [s[0]] + BeforeFirst(s[1..], pat)
  }

  /** Python's `p in s` on strings. */
  predicate IsSubstring(p: string, s: string)
    decreases |s|
  {
    p <= s || (|s| > 0 && IsSubstring(p, s[1..]))
  }

  /** A string ends with itself. */
  lemma {:induction false} IsSubstringSuffix(p: string, x: string)
    ensures IsSubstring(p, x + p)
    decreases |x|
  {
    if x == [] {
      assert x + p == p;
    } else {
      assert (x + p)[1..] == x[1..] + p;
      IsSubstringSuffix(p, x[1..]);
    }
  }

  /** What occurs in a string occurs in any string it begins. */
  lemma {:induction false} IsSubstringPrefix(p: string, s: string, t: string)
    requires IsSubstring(p, s) && s <= t
    ensures IsSubstring(p, t)
    decreases |s|
  {
    if !(p <= s) {
      assert s[1..] <= t[1..];
      IsSubstringPrefix(p, s[1..], t[1..]);
    }
  }

  /** Number of occurrences of `c` in `s`. */
  function Count(s: string, c: char): nat {
    if s == [] then 0 else (if s[0] == c then 1 else 0) + Count(s[1..], c)
  }

  lemma {:induction false} CountAppend(a: string, b: string, c: char)
    ensures Count(a + b, c) == Count(a, c) + Count(b, c)
  {
    if a != [] {
      assert (a + b)[0] == a[0] && (a + b)[1..] == a[1..] + b;
      CountAppend(a[1..], b, c);
    } else {
      assert a + b == b;
    }
  }

  /** `s.split(c)` has one more part than `s` has occurrences of `c`. */
  lemma {:induction false} SplitCount(s: string, c: char)
    ensures |Split(s, c)| == Count(s, c) + 1
    decreases |s|
  {
    if c in s {
      var i := IndexOf(s, c);
      assert s == s[..i] + [c] + s[i + 1..];
      CountAppend(s[..i] + [c], s[i + 1..], c);
      CountAppend(s[..i], [c], c);
      CountZero(s[..i], c);
      SplitCount(s[i + 1..], c);
    } else {
      CountZero(s, c);
    }
  }

  /** The parts of `s.split(c)` hold only characters of `s`. */
  lemma {:induction false} SplitPartChars(s: string, c: char, p: string, x: char)
    requires p in Split(s, c) && x in p
    ensures x in s
    decreases |s|
  {
    if c in s {
      var i := IndexOf(s, c);
      if p == s[..i] {
        assert x in s[..i];
      } else {
        SplitPartChars(s[i + 1..], c, p, x);
        assert x in s[i + 1..];
      }
    }
  }

  lemma CountZero(s: string, c: char)
    ensures Count(s, c) == 0 <==> c !in s
  {
    if s != [] { CountZero(s[1..], c); }
  }

  /** `s.rfind(c)`: the last index of `c`, or -1. */
  function RFind(s: string, c: char): (r: int)
    ensures -1 <= r < |s|
    ensures r >= 0 ==> s[r] == c
    ensures forall j :: r < j < |s| ==> s[j] != c
  {
    if s == [] then -1
    else if s[|s| - 1] == c then |s| - 1
    else RFind(s[..|s| - 1], c)
  }

  /** Python slice `s[:k]` with a possibly negative `k` (counted from the end, clamped at 0). */
  function PySliceTo(s: string, k: int): (r: string)
    ensures |r| <= |s|
  {
    if k >= 0 then (if k <= |s| then s[..k] else s)
    else if |s| + k >= 0 then s[..|s| + k] else ""
  }

  /** Splitting around the only occurrence of a character gives the two sides. */
  lemma SplitAround(a: string, c: char, b: string)
    requires c !in a && c !in b
    ensures Split(a + [c] + b, c) == [a, b]
  {
    var s := a + [c] + b;
    var i := IndexOf(s, c);
    IndexOfFirst(s, c);
    assert s[|a|] == c;
    assert s[..i] == a && s[i + 1..] == b;
  }

  /** A pattern whose first character does not occur in `s` does not occur in `s`. */
  lemma {:induction false} AbsentLead(p: string, s: string)
    requires p != [] && p[0] !in s
    ensures !IsSubstring(p, s)
    decreases |s|
  {
    if s != [] {
      assert s[1..] <= s[1..] && p[0] !in s[1..];
      AbsentLead(p, s[1..]);
    }
  }

  /** What occurs in a suffix occurs in the whole string. */
  lemma {:induction false} IsSubstringDrop(p: string, s: string, k: nat)
    requires k <= |s| && IsSubstring(p, s[k..])
    ensures IsSubstring(p, s)
    decreases k
  {
    if k > 0 {
      assert s[1..][k - 1..] == s[k..];
      IsSubstringDrop(p, s[1..], k - 1);
    }
  }

  /** What occurs in a slice occurs in the whole string. */
  lemma IsSubstringSlice(p: string, s: string, a: nat, b: nat)
    requires a <= b <= |s| && IsSubstring(p, s[a..b])
    ensures IsSubstring(p, s)
  {
    IsSubstringPrefix(p, s[a..b], s[a..]);
    IsSubstringDrop(p, s, a);
  }

  /** An occurrence of `p` in `s` sits at some index... */
  lemma {:induction false} IsSubstringIndex(p: string, s: string) returns (i: nat)
    requires IsSubstring(p, s)
    ensures i + |p| <= |s| && s[i..i + |p|] == p
    decreases |s|
  {
    if p <= s {
      i := 0;
    } else {
      var j := IsSubstringIndex(p, s[1..]);
      assert s[1..][j..j + |p|] == s[j + 1..j + 1 + |p|];
      i := j + 1;
    }
  }

  /** ...and the text at any index is an occurrence. */
  lemma IndexIsSubstring(p: string, s: string, i: nat)
    requires i + |p| <= |s| && s[i..i + |p|] == p
    ensures IsSubstring(p, s)
  {
    assert IsSubstring(p, s[i..i + |p|]) by {
      assert p <= s[i..i + |p|];
    }
    IsSubstringSlice(p, s, i, i + |p|);
  }

  /** Stripping adds no occurrence of a pattern. */
  lemma StripAbsent(p: string, s: string)
    requires !IsSubstring(p, s)
    ensures !IsSubstring(p, Strip(s))
  {
    var k := |s| - |StripLeft(s)|;
    var r := Strip(s);
    assert r == s[k..k + |r|];
    if IsSubstring(p, r) {
      IsSubstringSlice(p, s, k, k + |r|);
    }
  }

  /** `s.split(pat)[0]` is `s` itself when `pat` does not occur. */
  lemma {:induction false} BeforeFirstAbsent(s: string, pat: string)
    requires |pat| > 0 && !IsSubstring(pat, s)
    ensures BeforeFirst(s, pat) == s
    decreases |s|
  {
    if |s| >= |pat| {
      assert !(pat <= s);
      assert s[..|pat|] != pat;
      BeforeFirstAbsent(s[1..], pat);
    }
  }

  /** A string shorter than a pattern does not hold it. */
  lemma {:induction false} ShortAbsent(p: string, s: string)
    requires |s| < |p|
    ensures !IsSubstring(p, s)
    decreases |s|
  {
    if s != [] {
      ShortAbsent(p, s[1..]);
    }
  }

  /** `s.split(pat)[0]` holds no occurrence of `pat`. */
  lemma {:induction false} BeforeFirstFree(s: string, pat: string)
    requires |pat| > 0
    ensures !IsSubstring(pat, BeforeFirst(s, pat))
    decreases |s|
  {
    if |s| < |pat| {
      ShortAbsent(pat, s);
    } else if s[..|pat|] == pat {
      ShortAbsent(pat, "");
    } else {
      var rest := BeforeFirst(s[1..], pat);
      BeforeFirstFree(s[1..], pat);
      var r := [s[0]] + rest;
      assert r == s[..|r|];
      assert r[1..] == rest;
    }
  }

  /** The text before `pat` in `a + pat + t`, when `pat`'s first character is not in `a`, is `a`. */
  lemma {:induction false} BeforeFirstLead(a: string, pat: string, t: string)
    requires |pat| > 0 && pat[0] !in a
    ensures BeforeFirst(a + pat + t, pat) == a
    decreases |a|
  {
    var s := a + pat + t;
    if a == [] {
      assert s[..|pat|] == pat;
    } else {
      assert s[0] == a[0] && s[0] != pat[0];
      assert s[..|pat|] != pat;
      assert s[1..] == a[1..] + pat + t;
      BeforeFirstLead(a[1..], pat, t);
    }
  }

  /** `s.replace(pat, rep)` is `s` when `pat`'s first character does not occur in `s`. */
  lemma {:induction false} ReplaceAllAbsent(s: string, pat: string, rep: string)
    requires |pat| > 0 && pat[0] !in s
    ensures ReplaceAll(s, pat, rep) == s
    decreases |s|
  {
    if |s| >= |pat| {
      assert s[..|pat|][0] == s[0];
      assert s[1..] <= s[1..] && pat[0] !in s[1..];
      ReplaceAllAbsent(s[1..], pat, rep);
    }
  }
}
