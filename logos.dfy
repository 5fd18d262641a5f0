/** The logo matcher of `src/import_logos.py`: the name normalisation both logo file names
    and factory names go through, the brand name and search terms of a logo file, and the
    matching of logos to factories. Character classes and case mapping are ASCII. */
module Logos {
  import opened Wrappers
  import opened Text
  import Tables

  // ---------------------------------------------------------------------------------------
  // normalize_name
  // ---------------------------------------------------------------------------------------

  /** The alternatives of the boilerplate group of step 1, in the order the pattern lists them. */
  const Boilerplate: seq<string> := ["ltd", "limited", "inc", "incorporated", "corp", "corporation",
    "gmbh", "ag", "sa", "pty", "llc", "co", "auto", "cars", "suv", "plant", "joint venture", "export"]

  lemma BoilerplateWords()
    ensures [] !in Boilerplate
  {
    forall j | 0 <= j < |Boilerplate|
      ensures |Boilerplate[j]| >= 2
    {
    }
  }

  /** `\w` */
  predicate WordChar(c: char) {
    IsAsciiLower(c) || IsAsciiUpper(c) || IsDigit(c) || c == '_'
  }

  /** `\b` at position `i` of `s`: a word character on exactly one side. */
  predicate Boundary(s: string, i: nat)
    requires i <= |s|
  {
    (i > 0 && WordChar(s[i - 1])) != (i < |s| && WordChar(s[i]))
  }

  /** The group at position `i`: the first of `words` from the `k`th on that the text at `i`
      spells, ignoring case, with `\b` after it; the result is the length of the match. */
  function AlternativeAt(words: seq<string>, s: string, i: nat, k: nat): (r: Option<nat>)
    requires i <= |s| && k <= |words| && [] !in words
    ensures r.Some? ==> 0 < r.value && i + r.value <= |s| && Boundary(s, i + r.value)
    ensures r.Some? ==> Lower(s[i..i + r.value]) in words[k..]
    decreases |words| - k
  {
    if k == |words| then None
    else
      var w := words[k];
      if i + |w| <= |s| && Lower(s[i..i + |w|]) == w && Boundary(s, i + |w|) then Some(|w|)
      else AlternativeAt(words, s, i, k + 1)
  }

  /** Alternatives the text at `i` does not spell, or spells with no `\b` after it, are passed
      over; each of the others differs from the text at position `p` or at position `q`. */
  lemma {:induction false} AlternativeSkip(words: seq<string>, s: string, i: nat, k: nat, n: nat, p: nat, q: nat)
    requires i <= |s| && k <= n <= |words| && [] !in words
    requires forall j :: k <= j < n ==>
      i + |words[j]| > |s| || !Boundary(s, i + |words[j]|) ||
      (p < |words[j]| && LowerChar(s[i + p]) != words[j][p]) ||
      (q < |words[j]| && LowerChar(s[i + q]) != words[j][q])
    ensures AlternativeAt(words, s, i, k) == AlternativeAt(words, s, i, n)
    decreases n - k
  {
    if k < n {
      var w := words[k];
      if i + |w| <= |s| && Boundary(s, i + |w|) {
        assert p < |w| ==> Lower(s[i..i + |w|])[p] == LowerChar(s[i + p]);
        assert q < |w| ==> Lower(s[i..i + |w|])[q] == LowerChar(s[i + q]);
      }
      AlternativeSkip(words, s, i, k + 1, n, p, q);
    }
  }

  /** An alternative the text at `i` spells, with `\b` after it, is taken. */
  lemma AlternativeMatch(words: seq<string>, s: string, i: nat, k: nat, w: string)
    requires k < |words| && words[k] == w && [] !in words && i + |w| <= |s|
    requires Lower(s[i..i + |w|]) == w && Boundary(s, i + |w|)
    ensures AlternativeAt(words, s, i, k) == Some(|w|)
  {
  }

  /** Step 1 from position `i` on: `re.sub(r'\b(...)\b', '', s, flags=re.IGNORECASE)` with the
      alternatives `words`. Every match is deleted and the scan resumes after it, with `\b`
      judged on the original text. */
  function Scrub(words: seq<string>, s: string, i: nat): string
    requires i <= |s| && [] !in words
    decreases |s| - i
  {
    if i == |s| then []
    else
      var m := if Boundary(s, i) then AlternativeAt(words, s, i, 0) else None;
      if m.Some? then Scrub(words, s, i + m.value) else [s[i]] + Scrub(words, s, i + 1)
  }

  /** The delimiters step 2 turns into spaces: `[/\,&-]`. */
  predicate Delimiter(c: char) {
    c == '/' || c == ',' || c == '&' || c == '-'
  }

  /** Step 2. */
  function Separate(s: string): (r: string)
    ensures |r| == |s|
    ensures forall i :: 0 <= i < |s| ==> r[i] == if Delimiter(s[i]) then ' ' else s[i]
  {
    seq(|s|, i requires 0 <= i < |s| => if Delimiter(s[i]) then ' ' else s[i])
  }

  /** The characters step 3 keeps: `[a-z0-9\s]`. */
  predicate Kept(c: char) {
    IsAsciiLower(c) || IsDigit(c) || IsSpace(c)
  }

  /** Step 3: `re.sub(r'[^a-z0-9\s]', '', s)`. */
  function Keep(s: string): (r: string)
    ensures forall c :: c in r ==> Kept(c)
  {
    if s == [] then [] else (if Kept(s[0]) then [s[0]] else []) + Keep(s[1..])
  }

  /** The end of the run of non-space characters that starts at `i`. */
  function WordEnd(s: string, i: nat): (e: nat)
    requires i <= |s|
    ensures i <= e <= |s| && (e == |s| || IsSpace(s[e]))
    ensures forall j :: i <= j < e ==> !IsSpace(s[j])
    decreases |s| - i
  {
    if i == |s| || IsSpace(s[i]) then i else WordEnd(s, i + 1)
  }

  /** `s.split()`: the maximal runs of non-space characters. */
  function Words(s: string): (ws: seq<string>)
    ensures forall w :: w in ws ==> w != [] && forall c :: c in w ==> !IsSpace(c) && c in s
    decreases |s|
  {
    if s == [] then []
    else if IsSpace(s[0]) then Words(s[1..])
    else
      var e := WordEnd(s, 0);
      [s[..e]] + Words(s[e..])
  }

  /** A character of a normalised name other than the space. */
  predicate NameChar(c: char) {
    IsAsciiLower(c) || IsDigit(c)
  }

  /** A normalised name: lower-case letters and digits in words separated by single spaces,
      with no space at either end. */
  predicate Normal(s: string) {
    (forall i :: 0 <= i < |s| ==> NameChar(s[i]) || s[i] == ' ') &&
    (s != [] ==> NameChar(s[0]) && NameChar(s[|s| - 1])) &&
    (forall i :: 0 <= i < |s| - 1 && s[i] == ' ' ==> s[i + 1] != ' ')
  }

  /** Words of letters and digits joined by single spaces make a normalised name. */
  lemma {:induction false} JoinNormal(ws: seq<string>)
    requires forall w :: w in ws ==> w != [] && forall c :: c in w ==> NameChar(c)
    ensures Normal(Join(ws, " "))
    decreases |ws|
  {
    if |ws| > 1 {
      var rest := Join(ws[1..], " ");
      assert forall w :: w in ws[1..] ==> w in ws;
      JoinNormal(ws[1..]);
      assert ws[1] in ws && ws[1..][0] == ws[1];
      assert rest != [] && rest[0] == ws[1][0] by {
        if |ws[1..]| > 1 {
          assert rest == ws[1..][0] + " " + Join(ws[1..][1..], " ");
        }
      }
      var s := ws[0] + " " + rest;
      assert Join(ws, " ") == s;
      assert ws[0] in ws;
      forall i | 0 <= i < |s|
        ensures i < |ws[0]| ==> NameChar(s[i])
        ensures i > |ws[0]| ==> s[i] == rest[i - |ws[0]| - 1]
      {
        if i < |ws[0]| {
          assert s[i] in ws[0];
        }
      }
      forall i | |ws[0]| < i < |s| - 1 && s[i] == ' '
        ensures s[i + 1] != ' '
      {
        assert s[i + 1] == rest[i - |ws[0]|];
      }
    } else if |ws| == 1 {
      assert ws[0] in ws;
      assert Join(ws, " ") == ws[0];
      forall i | 0 <= i < |ws[0]|
        ensures NameChar(ws[0][i])
      {
        assert ws[0][i] in ws[0];
      }
    }
  }

  /** `normalize_name`: boilerplate words removed, lower case, delimiters to spaces, every
      other character but letters, digits and white space dropped, white space collapsed. */
  function NormalizeName(name: string): (r: string)
    ensures Normal(r)
  {
    var kept := Keep(Separate(Lower(Scrub(Boilerplate, name, 0))));
    var ws := Words(kept);
    assert forall w :: w in ws ==> forall c :: c in w ==> NameChar(c) by {
      forall w, c | w in ws && c in w
        ensures NameChar(c)
      {
        assert Kept(c) && !IsSpace(c);
      }
    }
    JoinNormal(ws);
    Join(ws, " ")
  }

  /** The pattern of step 1 finds nothing in `s`. */
  predicate Clean(s: string) {
    forall i :: 0 <= i < |s| && Boundary(s, i) ==> AlternativeAt(Boilerplate, s, i, 0).None?
  }

  /** Where the pattern does not match, step 1 copies the character. */
  lemma ScrubCopies(words: seq<string>, s: string, i: nat)
    requires i < |s| && [] !in words && (!Boundary(s, i) || AlternativeAt(words, s, i, 0).None?)
    ensures Scrub(words, s, i) == [s[i]] + Scrub(words, s, i + 1)
  {
  }

  /** Step 1 leaves a text in which its pattern finds nothing unchanged. */
  lemma {:induction false} ScrubClean(s: string, i: nat)
    requires i <= |s| && Clean(s)
    ensures Scrub(Boilerplate, s, i) == s[i..]
    decreases |s| - i
  {
    if i < |s| {
      ScrubClean(s, i + 1);
      assert s[i..] == [s[i]] + s[i + 1..];
    }
  }

  /** What follows a space of a normalised name is normalised. */
  lemma NormalAfterSpace(s: string, e: nat)
    requires Normal(s) && e < |s| && s[e] == ' '
    ensures Normal(s[e + 1..])
  {
    var rest := s[e + 1..];
    forall i | 0 <= i < |rest|
      ensures NameChar(rest[i]) || rest[i] == ' '
    {
      assert rest[i] == s[e + 1 + i];
    }
    forall i | 0 <= i < |rest| - 1 && rest[i] == ' '
      ensures rest[i + 1] != ' '
    {
      assert rest[i] == s[e + 1 + i] && rest[i + 1] == s[e + 2 + i];
    }
  }

  /** `split` then `join` gives a normalised name back. */
  lemma {:induction false} WordsOfNormal(s: string)
    requires Normal(s)
    ensures Join(Words(s), " ") == s
    decreases |s|
  {
    if s != [] {
      var e := WordEnd(s, 0);
      assert !IsSpace(s[0]) by {
        assert NameChar(s[0]);
      }
      if e < |s| {
        assert s[e] == ' ' by {
          assert NameChar(s[e]) || s[e] == ' ';
        }
        assert e + 1 < |s| by {
          assert NameChar(s[|s| - 1]);
        }
        var rest := s[e + 1..];
        NormalAfterSpace(s, e);
        WordsOfNormal(rest);
        WordsAfterWord(s, e);
        var ws := Words(rest);
        assert ws != [] by {
          assert rest != [];
        }
        JoinCons(s[..e], ws, " ");
        assert s == s[..e] + " " + rest;
      } else {
        assert Words(s[e..]) == [];
        assert s[..e] == s;
      }
    }
  }

  /** A word followed by a space, then the words after that space. */
  lemma WordsAfterWord(s: string, e: nat)
    requires e < |s| && !IsSpace(s[0]) && e == WordEnd(s, 0) && s[e] == ' '
    ensures Words(s) == [s[..e]] + Words(s[e + 1..])
  {
    assert IsSpace(s[e..][0]);
    assert s[e..][1..] == s[e + 1..];
  }

  /** Joining a word in front of at least one other puts the separator between them. */
  lemma JoinCons(w: string, ws: seq<string>, sep: string)
    requires ws != []
    ensures Join([w] + ws, sep) == w + sep + Join(ws, sep)
  {
    assert ([w] + ws)[1..] == ws;
  }

  /** A normalised name in which the boilerplate pattern finds nothing normalises to itself. */
  lemma NormalFixed(s: string)
    requires Normal(s) && Clean(s)
    ensures NormalizeName(s) == s
  {
    ScrubClean(s, 0);
    assert Lower(s) == s;
    assert Separate(s) == s;
    assert Keep(s) == s by {
      KeepAll(s);
    }
    WordsOfNormal(s);
  }

  /** Step 3 keeps a text of kept characters whole. */
  lemma {:induction false} KeepAll(s: string)
    requires forall i :: 0 <= i < |s| ==> Kept(s[i])
    ensures Keep(s) == s
  {
    if s != [] {
      KeepAll(s[1..]);
      assert s == [s[0]] + s[1..];
    }
  }

  /** Normalising twice gives the same name, when the first result holds no boilerplate word... */
  lemma NormalizeIdempotent(name: string)
    requires Clean(NormalizeName(name))
    ensures NormalizeName(NormalizeName(name)) == NormalizeName(name)
  {
    NormalFixed(NormalizeName(name));
  }

  /** ...but only then: a boilerplate word can appear once punctuation is dropped. */
  lemma NormalizeNotIdempotent()
    ensures NormalizeName("c'o") == "co" && NormalizeName("co") == ""
  {
    CoRemoved();
    QuotedCoKept();
  }

  lemma LowerCo()
    ensures Lower("co") == "co"
  {
    var r := Lower("co");
    assert |r| == 2 && r[0] == 'c' && r[1] == 'o';
  }

  lemma CoAlternative()
    ensures AlternativeAt(Boilerplate, "co", 0, 0) == Some(2)
  {
    BoilerplateWords();
    AlternativeSkip(Boilerplate, "co", 0, 0, 11, 1, 1);
    LowerCo();
    assert "co"[0..2] == "co";
    AlternativeMatch(Boilerplate, "co", 0, 11, "co");
  }

  lemma CoRemoved()
    ensures NormalizeName("co") == ""
  {
    BoilerplateWords();
    CoAlternative();
    assert Scrub(Boilerplate, "co", 0) == [];
    assert Keep(Separate(Lower([]))) == [];
  }

  lemma QuotedCoNoMatch(i: nat, p: nat)
    requires (i == 0 && p == 1) || (i in {1, 2} && p == 0)
    ensures i <= 3 && [] !in Boilerplate && AlternativeAt(Boilerplate, "c'o", i, 0).None?
  {
    BoilerplateWords();
    AlternativeSkip(Boilerplate, "c'o", i, 0, |Boilerplate|, p, p);
  }

  /** In "c'o" every position is a word boundary, and the pattern matches at none. */
  lemma QuotedCoClean()
    ensures Scrub(Boilerplate, "c'o", 0) == "c'o"
  {
    QuotedCoNoMatch(0, 1);
    QuotedCoNoMatch(1, 0);
    QuotedCoNoMatch(2, 0);
  }

  lemma QuotedCoFiltered()
    ensures Keep(Separate(Lower("c'o"))) == "co"
  {
    assert Lower("c'o") == "c'o";
    assert Separate("c'o") == "c'o";
    assert Keep("o") == "o";
    assert Keep("'o") == "o";
  }

  lemma CoWords()
    ensures Words("co") == ["co"]
  {
    var s := "co";
    assert !IsSpace(s[0]) && !IsSpace(s[1]);
    assert WordEnd(s, 1) == 2;
    assert WordEnd(s, 0) == 2;
    assert s[..2] == s && s[2..] == [];
    assert Words(s[2..]) == [];
  }

  lemma QuotedCoKept()
    ensures NormalizeName("c'o") == "co"
  {
    BoilerplateWords();
    QuotedCoClean();
    QuotedCoFiltered();
    CoWords();
  }

  /** Boilerplate goes only as a whole word: the "co" of "Cobra" stays. */
  lemma CobraKept()
    ensures NormalizeName("Cobra") == "cobra"
  {
    BoilerplateWords();
    CobraClean();
    CobraLowered();
    KeepAll("cobra");
    CobraWords();
  }

  lemma CobraClean()
    ensures [] !in Boilerplate && Scrub(Boilerplate, "Cobra", 0) == "Cobra"
  {
    var s := "Cobra";
    BoilerplateWords();
    AlternativeSkip(Boilerplate, s, 0, 0, |Boilerplate|, 1, 2);
    assert Scrub(Boilerplate, s, 1) == s[1..] by {
      assert Scrub(Boilerplate, s, 4) == s[4..];
      assert Scrub(Boilerplate, s, 3) == s[3..];
      assert Scrub(Boilerplate, s, 2) == s[2..];
    }
  }

  lemma CobraLowered()
    ensures Separate(Lower("Cobra")) == "cobra"
  {
    var r := Lower("Cobra");
    assert |r| == 5 && r[0] == 'c' && r[1] == 'o' && r[2] == 'b' && r[3] == 'r' && r[4] == 'a';
    assert Separate(r) == r;
  }

  lemma CobraWords()
    ensures Words("cobra") == ["cobra"]
  {
    var s := "cobra";
    assert WordEnd(s, 1) == 5 by {
      assert WordEnd(s, 4) == 5;
      assert WordEnd(s, 3) == 5;
      assert WordEnd(s, 2) == 5;
    }
    assert WordEnd(s, 0) == 5;
    assert s[..5] == s && s[5..] == [];
  }

  /** The pattern spells "joint venture" with a space, so a hyphen in its place keeps the words
      while the spaced phrase is removed whole. */
  lemma JointVentureHyphen()
    ensures NormalizeName("joint-venture") == "joint venture"
    ensures NormalizeName("joint venture") == ""
  {
    HyphenatedKept();
    SpacedRemoved();
  }

  lemma HyphenatedKept()
    ensures NormalizeName("joint-venture") == "joint venture"
  {
    HyphenatedClean();
    HyphenatedLowered();
    JointVentureFixed();
  }

  lemma JointVentureFixed()
    ensures Join(Words(Keep("joint venture")), " ") == "joint venture"
  {
    JointVentureNormal();
    KeepAll("joint venture");
    WordsOfNormal("joint venture");
  }

  lemma HyphenatedNoMatch(i: nat, p: nat, q: nat)
    requires (i == 0 && p == 0 && q == 5) || (i in {5, 6} && p == 0 && q == 0)
    ensures i <= 13 && [] !in Boilerplate && AlternativeAt(Boilerplate, "joint-venture", i, 0).None?
  {
    BoilerplateWords();
    AlternativeSkip(Boilerplate, "joint-venture", i, 0, |Boilerplate|, p, q);
  }

  lemma HyphenatedWordChars()
    ensures |"joint-venture"| == 13 && !WordChar("joint-venture"[5])
    ensures forall k :: 0 <= k < 13 && k != 5 ==> WordChar("joint-venture"[k])
  {
  }

  lemma HyphenatedClean()
    ensures [] !in Boilerplate && Scrub(Boilerplate, "joint-venture", 0) == "joint-venture"
  {
    BoilerplateWords();
    HyphenatedNoMatch(0, 0, 5);
    HyphenatedNoMatch(5, 0, 0);
    HyphenatedNoMatch(6, 0, 0);
    HyphenatedWordChars();
    var s := "joint-venture";
    forall i | 0 <= i < |s| && Boundary(s, i)
      ensures AlternativeAt(Boilerplate, s, i, 0).None?
    {
      assert i in {0, 5, 6};
    }
    ScrubClean(s, 0);
  }

  lemma HyphenatedLowered()
    ensures Separate(Lower("joint-venture")) == "joint venture"
  {
    var s := "joint-venture";
    assert Lower(s) == s by {
      forall i | 0 <= i < |s|
        ensures !IsAsciiUpper(s[i])
      {
      }
    }
    var r := Separate(s);
    assert r[5] == ' ';
    forall i | 0 <= i < |s| && i != 5
      ensures r[i] == s[i]
    {
    }
  }

  lemma JointVentureNormal()
    ensures Normal("joint venture")
  {
    var s := "joint venture";
    forall i | 0 <= i < |s|
      ensures NameChar(s[i]) || s[i] == ' '
    {
    }
  }

  lemma LowerJointVenture()
    ensures Lower("joint venture") == "joint venture"
  {
    var s := "joint venture";
    forall i | 0 <= i < |s|
      ensures !IsAsciiUpper(s[i])
    {
    }
  }

  lemma SpacedSkip()
    ensures [] !in Boilerplate
    ensures AlternativeAt(Boilerplate, "joint venture", 0, 0) == AlternativeAt(Boilerplate, "joint venture", 0, 16)
  {
    BoilerplateWords();
    AlternativeSkip(Boilerplate, "joint venture", 0, 0, 16, 0, 0);
  }

  lemma SpacedAlternative()
    ensures [] !in Boilerplate && AlternativeAt(Boilerplate, "joint venture", 0, 0) == Some(13)
  {
    var s := "joint venture";
    BoilerplateWords();
    SpacedSkip();
    LowerJointVenture();
    assert s[0..13] == s;
    AlternativeMatch(Boilerplate, s, 0, 16, "joint venture");
  }

  lemma SpacedRemoved()
    ensures NormalizeName("joint venture") == ""
  {
    SpacedAlternative();
    assert Scrub(Boilerplate, "joint venture", 0) == [];
    assert Keep(Separate(Lower([]))) == [];
  }

  /** `-` separates words like a space does: "Harley-Davidson" and "harley davidson" both
      normalise to "harley davidson". */
  lemma HarleyDavidson()
    ensures NormalizeName("Harley-Davidson") == "harley davidson"
    ensures NormalizeName("harley davidson") == "harley davidson"
  {
    HarleyNormalized("Harley-Davidson");
    HarleyNormalized("harley davidson");
  }

  lemma HarleyChars(s: string)
    requires s in {"Harley-Davidson", "harley davidson"}
    ensures |s| == 15 && !WordChar(s[6]) && forall k :: 0 <= k < |s| && k != 6 ==> WordChar(s[k])
  {
  }

  lemma HarleyNoMatch(s: string, i: nat)
    requires s in {"Harley-Davidson", "harley davidson"} && i in {0, 6, 7}
    ensures [] !in Boilerplate && i <= |s| && AlternativeAt(Boilerplate, s, i, 0).None?
  {
    if s == "Harley-Davidson" {
      HyphenatedHarleyNoMatch(i);
    } else {
      SpacedHarleyNoMatch(i);
    }
  }

  lemma HyphenatedHarleyNoMatch(i: nat)
    requires i in {0, 6, 7}
    ensures [] !in Boilerplate && i <= 15 && AlternativeAt(Boilerplate, "Harley-Davidson", i, 0).None?
  {
    BoilerplateWords();
    AlternativeSkip(Boilerplate, "Harley-Davidson", i, 0, |Boilerplate|, 0, 0);
  }

  lemma SpacedHarleyNoMatch(i: nat)
    requires i in {0, 6, 7}
    ensures [] !in Boilerplate && i <= 15 && AlternativeAt(Boilerplate, "harley davidson", i, 0).None?
  {
    BoilerplateWords();
    AlternativeSkip(Boilerplate, "harley davidson", i, 0, |Boilerplate|, 0, 0);
  }

  lemma HarleyScrubbed(s: string)
    requires s in {"Harley-Davidson", "harley davidson"}
    ensures [] !in Boilerplate && Scrub(Boilerplate, s, 0) == s
  {
    HarleyChars(s);
    HarleyNoMatch(s, 0);
    HarleyNoMatch(s, 6);
    HarleyNoMatch(s, 7);
    forall i | 0 <= i < |s| && Boundary(s, i)
      ensures AlternativeAt(Boilerplate, s, i, 0).None?
    {
      assert i in {0, 6, 7};
    }
    ScrubClean(s, 0);
  }

  lemma HarleyLowered(s: string)
    requires s in {"Harley-Davidson", "harley davidson"}
    ensures Separate(Lower(s)) == "harley davidson"
  {
    var r := Separate(Lower(s));
    var e := "harley davidson";
    assert |r| == |e|;
    forall k | 0 <= k < |e|
      ensures r[k] == e[k]
    {
    }
  }

  lemma HarleyFixed()
    ensures Join(Words(Keep("harley davidson")), " ") == "harley davidson"
  {
    var s := "harley davidson";
    forall i | 0 <= i < |s|
      ensures NameChar(s[i]) || s[i] == ' '
    {
    }
    assert Normal(s);
    KeepAll(s);
    WordsOfNormal(s);
  }

  lemma HarleyNormalized(s: string)
    requires s in {"Harley-Davidson", "harley davidson"}
    ensures NormalizeName(s) == "harley davidson"
  {
    HarleyScrubbed(s);
    HarleyLowered(s);
    HarleyFixed();
  }

  /** A delimiter and a space are alike to `normalize_name`, as long as the boilerplate pattern
      finds nothing in either text (see `JointVentureHyphen` for why that condition is needed). */
  lemma DelimiterAsSpace(a: string, d: char, b: string)
    requires Delimiter(d) && Clean(a + [d] + b) && Clean(a + " " + b)
    ensures NormalizeName(a + [d] + b) == NormalizeName(a + " " + b)
  {
    var x, y := a + [d] + b, a + " " + b;
    ScrubClean(x, 0);
    ScrubClean(y, 0);
    assert x[0..] == x && y[0..] == y;
    forall i | 0 <= i < |x|
      ensures Separate(Lower(x))[i] == Separate(Lower(y))[i]
    {
      if i != |a| {
        assert x[i] == y[i];
      }
    }
    assert Separate(Lower(x)) == Separate(Lower(y));
  }

  // ---------------------------------------------------------------------------------------
  // get_logo_files
  // ---------------------------------------------------------------------------------------

  /** `SUPPORTED_FORMATS`, in the order the directory is globbed. */
  const SupportedFormats: seq<string> := [".png", ".jpg", ".jpeg", ".svg"]

  /** `BRAND_ALIASES`: a normalised brand name to the other names it is searched under. */
  const BrandAliases: map<string, seq<string>> := map[
    "general motors" := ["gm"],
    "volkswagen" := ["vw"],
    "international trucks" := ["international incomplete bus"]]

  /** One entry of the list `get_logo_files` returns; `aliases` holds every search term, the
      normalised name first. */
  datatype LogoFile = LogoFile(
    filename: string,
    brandName: string,
    normalized: string,
    aliases: seq<string>,
    extension: string)

  /** `file[:file.rfind('.')].replace('_', ' ')` */
  function BrandName(file: string): (r: string)
    ensures file != [] ==> |r| < |file|
    ensures '_' !in r
  {
    ReplaceChar(PySliceTo(file, RFind(file, '.')), '_', ' ')
  }

  /** The brand name of `stem` followed by an extension is `stem` with underscores as spaces. */
  lemma BrandNameOfStem(stem: string, ext: string)
    requires ext != [] && ext[0] == '.' && '.' !in ext[1..]
    ensures BrandName(stem + ext) == ReplaceChar(stem, '_', ' ')
  {
    var file := stem + ext;
    var r := RFind(file, '.');
    assert file[|stem|] == '.';
    assert r == |stem|;
    assert file[..r] == stem;
  }

  /** `BRAND_ALIASES.get(n, [])` */
  function AliasesOf(n: string): (r: seq<string>)
    ensures n !in BrandAliases ==> r == []
  {
    if n in BrandAliases then BrandAliases[n] else []
  }

  /** The aliases are non-empty normalised names. */
  lemma AliasesNormal(n: string, t: string)
    requires t in AliasesOf(n)
    ensures t != [] && Normal(t)
  {
    if n == "general motors" {
      assert t == "gm";
    } else if n == "volkswagen" {
      assert t == "vw";
    } else {
      assert t == "international incomplete bus";
    }
  }

  /** pathlib's `*` + `ext` on a directory entry: the name ends with `ext`. */
  predicate Globbed(file: string, ext: string) {
    |ext| <= |file| && file[|file| - |ext|..] == ext
  }

  /** The entry made for `file`, found under `ext`. */
  function LogoOf(file: string, ext: string): (l: LogoFile)
    ensures l.filename == file && l.extension == ext
    ensures |l.aliases| >= 1 && l.aliases[0] == l.normalized && l.aliases[1..] == AliasesOf(l.normalized)
    ensures Normal(l.normalized)
  {
    var brand := BrandName(file);
    var n := NormalizeName(brand);
    LogoFile(file, brand, n, [n] + AliasesOf(n), ext)
  }

  /** A logo's brand name and search terms: the name before the extension with underscores as
      spaces, normalised, then its aliases; every term is a normalised name. */
  lemma LogoTerms(stem: string, ext: string)
    requires ext in SupportedFormats
    ensures LogoOf(stem + ext, ext).brandName == ReplaceChar(stem, '_', ' ')
    ensures LogoOf(stem + ext, ext).normalized == NormalizeName(ReplaceChar(stem, '_', ' '))
    ensures forall t :: t in LogoOf(stem + ext, ext).aliases ==> Normal(t)
  {
    assert ext[0] == '.' && '.' !in ext[1..];
    BrandNameOfStem(stem, ext);
    var l := LogoOf(stem + ext, ext);
    forall t | t in l.aliases
      ensures Normal(t)
    {
      if t != l.aliases[0] {
        assert t in l.aliases[1..];
        AliasesNormal(l.normalized, t);
      }
    }
  }

  /** The entries for one extension, in listing order. */
  function FilesFor(listing: seq<string>, ext: string): seq<LogoFile>
    decreases |listing|
  {
    if listing == [] then []
    else
      var file := listing[|listing| - 1];
      FilesFor(listing[..|listing| - 1], ext) + (if Globbed(file, ext) then [LogoOf(file, ext)] else [])
  }

  /** The entries for each extension of `formats` in turn. */
  function FilesForAll(formats: seq<string>, listing: seq<string>): seq<LogoFile>
    decreases |formats|
  {
    if formats == [] then []
    else FilesForAll(formats[..|formats| - 1], listing) + FilesFor(listing, formats[|formats| - 1])
  }

  /** What `get_logo_files` returns for a directory that exists or not and lists `listing`. */
  function LogoFiles(dirExists: bool, listing: seq<string>): seq<LogoFile> {
    if dirExists then FilesForAll(SupportedFormats, listing) else []
  }

  lemma {:induction false} FilesForSound(listing: seq<string>, ext: string, l: LogoFile)
    requires l in FilesFor(listing, ext)
    ensures l.filename in listing && Globbed(l.filename, ext) && l == LogoOf(l.filename, ext)
    decreases |listing|
  {
    var init := listing[..|listing| - 1];
    if l !in FilesFor(init, ext) {
      assert l == LogoOf(listing[|listing| - 1], ext);
    } else {
      FilesForSound(init, ext, l);
    }
  }

  lemma {:induction false} FilesForComplete(listing: seq<string>, ext: string, file: string)
    requires file in listing && Globbed(file, ext)
    ensures LogoOf(file, ext) in FilesFor(listing, ext)
    decreases |listing|
  {
    var init := listing[..|listing| - 1];
    if file != listing[|listing| - 1] {
      assert listing == init + [listing[|listing| - 1]];
      FilesForComplete(init, ext, file);
    }
  }

  lemma {:induction false} FilesForAllSound(formats: seq<string>, listing: seq<string>, l: LogoFile)
    requires l in FilesForAll(formats, listing)
    ensures l.extension in formats && l.filename in listing && Globbed(l.filename, l.extension)
    ensures l == LogoOf(l.filename, l.extension)
    decreases |formats|
  {
    var init := formats[..|formats| - 1];
    if l in FilesForAll(init, listing) {
      FilesForAllSound(init, listing, l);
      assert l.extension in formats;
    } else {
      FilesForSound(listing, formats[|formats| - 1], l);
    }
  }

  lemma {:induction false} FilesForAllComplete(formats: seq<string>, listing: seq<string>, file: string, ext: string)
    requires ext in formats && file in listing && Globbed(file, ext)
    ensures LogoOf(file, ext) in FilesForAll(formats, listing)
    decreases |formats|
  {
    var init := formats[..|formats| - 1];
    if ext == formats[|formats| - 1] {
      FilesForComplete(listing, ext, file);
    } else {
      assert formats == init + [formats[|formats| - 1]];
      FilesForAllComplete(init, listing, file, ext);
    }
  }

  /** Every entry comes from a listed file with a supported extension it ends with, and is the
      entry for that file and extension; none is made when the directory is missing. */
  lemma LogoFilesSound(dirExists: bool, listing: seq<string>, l: LogoFile)
    requires l in LogoFiles(dirExists, listing)
    ensures dirExists && l.filename in listing && l.extension in SupportedFormats
    ensures Globbed(l.filename, l.extension) && l == LogoOf(l.filename, l.extension)
  {
    FilesForAllSound(SupportedFormats, listing, l);
  }

  /** Every listed file with a supported extension it ends with gets its entry. */
  lemma LogoFilesComplete(listing: seq<string>, file: string, ext: string)
    requires file in listing && ext in SupportedFormats && Globbed(file, ext)
    ensures LogoOf(file, ext) in LogoFiles(true, listing)
  {
    FilesForAllComplete(SupportedFormats, listing, file, ext);
  }

  /** `get_logo_files`: `dirExists` is `LOGOS_DIR.exists()` and `listing` the directory's entries
      in the order the glob yields them. */
  method GetLogoFiles(dirExists: bool, listing: seq<string>) returns (logos: seq<LogoFile>)
    ensures logos == LogoFiles(dirExists, listing)
  {
    if !dirExists {
      return [];
    }
    logos := [];
    for e := 0 to |SupportedFormats|
      invariant logos == FilesForAll(SupportedFormats[..e], listing)
    {
      var ext := SupportedFormats[e];
      for i := 0 to |listing|
        invariant logos == FilesForAll(SupportedFormats[..e], listing) + FilesFor(listing[..i], ext)
      {
        var file := listing[i];
        assert listing[..i + 1][..i] == listing[..i];
        if Globbed(file, ext) {
          var brand := BrandName(file);
          var n := NormalizeName(brand);
          logos := logos + [LogoFile(file, brand, n, [n] + AliasesOf(n), ext)];
        }
      }
      assert listing[..|listing|] == listing;
      assert SupportedFormats[..e + 1][..e] == SupportedFormats[..e];
    }
    assert SupportedFormats[..|SupportedFormats|] == SupportedFormats;
  }

  // ---------------------------------------------------------------------------------------
  // get_all_factories, find_matches
  // ---------------------------------------------------------------------------------------

  /** One entry of the list `get_all_factories` returns. */
  datatype Factory = Factory(id: nat, name: string, normalized: string)

  /** `get_all_factories` over the rows of `wmi_factories`. */
  function AllFactories(rows: seq<Tables.WmiFactory>): (fs: seq<Factory>)
    ensures |fs| == |rows|
    ensures forall i :: 0 <= i < |rows| ==> fs[i].id == rows[i].id && fs[i].name == rows[i].name
    ensures forall i :: 0 <= i < |rows| ==> Normal(fs[i].normalized)
  {
    seq(|rows|, i requires 0 <= i < |rows| => Factory(rows[i].id, rows[i].name, NormalizeName(rows[i].name)))
  }

  /** `\b` + `term` + `\b` matches `name` at `i`. */
  predicate OccursAt(term: string, name: string, i: nat) {
    i + |term| <= |name| && name[i..i + |term|] == term && Boundary(name, i) && Boundary(name, i + |term|)
  }

  /** `re.search(r'\b' + re.escape(term) + r'\b', name)` finds a match. */
  predicate Found(term: string, name: string) {
    exists i: nat | i <= |name| :: OccursAt(term, name, i)
  }

  /** On normalised text, the word-boundary search is a search for the term padded with spaces
      in the name padded with spaces. */
  lemma FoundPadded(term: string, name: string)
    requires term != [] && Normal(term) && Normal(name)
    ensures Found(term, name) <==> IsSubstring(" " + term + " ", " " + name + " ")
  {
    if Found(term, name) {
      var i: nat :| i <= |name| && OccursAt(term, name, i);
      OccursPadded(term, name, i);
    }
    if IsSubstring(" " + term + " ", " " + name + " ") {
      PaddedOccurs(term, name);
    }
  }

  /** A word-boundary match at `i` is the padded term at `i` in the padded name. */
  lemma OccursPadded(term: string, name: string, i: nat)
    requires term != [] && Normal(term) && Normal(name) && OccursAt(term, name, i)
    ensures IsSubstring(" " + term + " ", " " + name + " ")
  {
    var p, s := " " + term + " ", " " + name + " ";
    assert i > 0 ==> name[i - 1] == ' ' by {
      if i > 0 {
        assert name[i] == term[0];
      }
    }
    assert i + |term| < |name| ==> name[i + |term|] == ' ' by {
      if i + |term| < |name| {
        assert name[i + |term| - 1] == term[|term| - 1];
      }
    }
    forall k | 0 <= k < |p|
      ensures s[i + k] == p[k]
    {
      if 0 < k < |p| - 1 {
        assert name[i + k - 1] == name[i..i + |term|][k - 1];
      }
    }
    assert s[i..i + |p|] == p;
    IndexIsSubstring(p, s, i);
  }

  /** The padded term in the padded name is a word-boundary match. */
  lemma PaddedOccurs(term: string, name: string)
    requires term != [] && Normal(term) && Normal(name)
    requires IsSubstring(" " + term + " ", " " + name + " ")
    ensures Found(term, name)
  {
    var p, s := " " + term + " ", " " + name + " ";
    var i := IsSubstringIndex(p, s);
    assert name[i..i + |term|] == term by {
      forall k | 0 <= k < |term|
        ensures name[i + k] == term[k]
      {
        assert s[i + 1 + k] == p[1 + k];
      }
    }
    assert s[i] == p[0] && s[i + |term| + 1] == p[|term| + 1];
    assert OccursAt(term, name, i);
  }

  /** The test `find_matches` applies to a logo and a factory: the factory's normalised name is
      not empty and some non-empty search term of the logo is found in it. Single- and
      multi-word terms take the same test. */
  predicate Matches(logo: LogoFile, f: Factory) {
    f.normalized != [] &&
    exists k | 0 <= k < |logo.aliases| :: logo.aliases[k] != [] && Found(logo.aliases[k], f.normalized)
  }

  /** With normalised terms and names, a logo matches a factory exactly when some non-empty term,
      padded with spaces, occurs in the factory's padded name. */
  lemma MatchesPadded(logo: LogoFile, f: Factory)
    requires forall t :: t in logo.aliases ==> Normal(t)
    requires Normal(f.normalized)
    ensures Matches(logo, f) <==> (f.normalized != [] &&
      exists k | 0 <= k < |logo.aliases| ::
        logo.aliases[k] != [] && IsSubstring(" " + logo.aliases[k] + " ", " " + f.normalized + " "))
  {
    forall k | 0 <= k < |logo.aliases| && logo.aliases[k] != []
      ensures Found(logo.aliases[k], f.normalized) <==>
        IsSubstring(" " + logo.aliases[k] + " ", " " + f.normalized + " ")
    {
      FoundPadded(logo.aliases[k], f.normalized);
    }
  }

  /** The loop over a logo's search terms, which stops at the first one found. */
  method TermsMatch(terms: seq<string>, name: string) returns (matched: bool)
    ensures matched <==> exists k | 0 <= k < |terms| :: terms[k] != [] && Found(terms[k], name)
  {
    for k := 0 to |terms|
      invariant forall j :: 0 <= j < k ==> terms[j] == [] || !Found(terms[j], name)
    {
      if terms[k] == [] {
        continue;
      }
      if Found(terms[k], name) {
        return true;
      }
    }
    return false;
  }

  /** `all_mappings`: a factory id to the logos matched to it, with the ids in the order they
      were first added. */
  datatype Mappings = Mappings(keys: seq<nat>, lists: map<nat, seq<LogoFile>>)

  /** Each id once, the keys those of the dict, and each list non-empty without repetitions. */
  ghost predicate WellFormed(m: Mappings) {
    Distinct(m.keys) &&
    (forall id :: id in m.keys <==> id in m.lists) &&
    (forall id :: id in m.lists ==> m.lists[id] != [] && Distinct(m.lists[id]))
  }

  /** The total length of the lists of `keys`. */
  function Total(keys: seq<nat>, lists: map<nat, seq<LogoFile>>): nat
    decreases |keys|
  {
    if keys == [] then 0
    else
      var id := keys[|keys| - 1];
      Total(keys[..|keys| - 1], lists) + (if id in lists then |lists[id]| else 0)
  }

  /** Lists of other ids leave the total alone... */
  lemma {:induction false} TotalFrame(keys: seq<nat>, lists: map<nat, seq<LogoFile>>, id: nat, v: seq<LogoFile>)
    requires id !in keys
    ensures Total(keys, lists[id := v]) == Total(keys, lists)
    decreases |keys|
  {
    if keys != [] {
      TotalFrame(keys[..|keys| - 1], lists, id, v);
    }
  }

  /** ...and replacing the list of one id changes the total by the difference in length. */
  lemma {:induction false} TotalReplace(keys: seq<nat>, lists: map<nat, seq<LogoFile>>, id: nat, v: seq<LogoFile>)
    requires Distinct(keys) && id in keys && id in lists
    ensures Total(keys, lists[id := v]) == Total(keys, lists) - |lists[id]| + |v|
    decreases |keys|
  {
    var init := keys[..|keys| - 1];
    if keys[|keys| - 1] == id {
      assert id !in init;
      TotalFrame(init, lists, id, v);
    } else {
      assert id in init;
      TotalReplace(init, lists, id, v);
    }
  }

  /** Some factory of `factories` with id `id` matches `logo`. */
  predicate MatchedBy(logo: LogoFile, id: nat, factories: seq<Factory>) {
    exists j | 0 <= j < |factories| :: factories[j].id == id && Matches(logo, factories[j])
  }

  lemma MatchedBySnoc(logo: LogoFile, id: nat, factories: seq<Factory>, n: nat)
    requires n < |factories|
    ensures MatchedBy(logo, id, factories[..n + 1]) <==>
      MatchedBy(logo, id, factories[..n]) || (factories[n].id == id && Matches(logo, factories[n]))
  {
    if MatchedBy(logo, id, factories[..n + 1]) {
      var j :| 0 <= j < n + 1 && factories[..n + 1][j].id == id && Matches(logo, factories[..n + 1][j]);
      if j < n {
        assert factories[..n][j] == factories[j];
      }
    }
    if MatchedBy(logo, id, factories[..n]) {
      var j :| 0 <= j < n && factories[..n][j].id == id && Matches(logo, factories[..n][j]);
      assert factories[..n + 1][j] == factories[j];
    }
    if factories[n].id == id && Matches(logo, factories[n]) {
      assert factories[..n + 1][n] == factories[n];
    }
  }

  /** `logo` is in the list of `id`. */
  ghost predicate Has(m: Mappings, id: nat, l: LogoFile) {
    id in m.lists && l in m.lists[id]
  }

  /** The pairs `find_matches` has recorded once the logos before `a` are done and `logo`, the
      one at `a`, has been tried against the factories before `b`. */
  ghost predicate Done(logos: seq<LogoFile>, factories: seq<Factory>, a: nat, b: nat, logo: LogoFile, id: nat, l: LogoFile)
    requires a <= |logos| && b <= |factories|
  {
    (l in logos[..a] && MatchedBy(l, id, factories)) || (l == logo && MatchedBy(l, id, factories[..b]))
  }

  /** `find_matches`: every logo is tried against every factory in turn; a logo that matches is
      added to the factory's list unless already there, and `count` is `match_count`. */
  method FindMatches(logos: seq<LogoFile>, factories: seq<Factory>) returns (m: Mappings, count: nat)
    ensures WellFormed(m) && count == Total(m.keys, m.lists)
    ensures forall id, l :: Has(m, id, l) <==> l in logos && MatchedBy(l, id, factories)
  {
    m := Mappings([], map[]);
    count := 0;
    for a := 0 to |logos|
      invariant WellFormed(m) && count == Total(m.keys, m.lists)
      invariant forall id, l :: Has(m, id, l) <==> l in logos[..a] && MatchedBy(l, id, factories)
    {
      var logo := logos[a];
      assert logos[..a + 1] == logos[..a] + [logo];
      if logo.aliases == [] {
        continue;
      }
      for b := 0 to |factories|
        invariant WellFormed(m) && count == Total(m.keys, m.lists)
        invariant forall id, l :: Has(m, id, l) <==> Done(logos, factories, a, b, logo, id, l)
      {
        var f := factories[b];
        if f.normalized == [] {
          StepDone(m, m, logos, factories, a, b, logo, false);
          continue;
        }
        var matched := TermsMatch(logo.aliases, f.normalized);
        ghost var m0 := m;
        if matched {
          if f.id !in m.lists {
            AddKey(m, logo, f.id);
            m := Mappings(m.keys + [f.id], m.lists[f.id := [logo]]);
            count := count + 1;
          } else if logo !in m.lists[f.id] {
            AddToList(m, logo, f.id);
            m := Mappings(m.keys, m.lists[f.id := m.lists[f.id] + [logo]]);
            count := count + 1;
          }
        }
        StepDone(m0, m, logos, factories, a, b, logo, matched);
      }
      forall id, l
        ensures Done(logos, factories, a, |factories|, logo, id, l) <==> l in logos[..a + 1] && MatchedBy(l, id, factories)
      {
        assert factories[..|factories|] == factories;
      }
    }
    assert logos[..|logos|] == logos;
  }

  /** Trying `logo` against the factory at `b` records the pair exactly when they match. */
  lemma StepDone(m: Mappings, m': Mappings, logos: seq<LogoFile>, factories: seq<Factory>, a: nat, b: nat,
                 logo: LogoFile, hit: bool)
    requires a <= |logos| && b < |factories|
    requires hit <==> Matches(logo, factories[b])
    requires forall id, l :: Has(m, id, l) <==> Done(logos, factories, a, b, logo, id, l)
    requires forall id, l :: Has(m', id, l) <==> Has(m, id, l) || (hit && id == factories[b].id && l == logo)
    ensures forall id, l :: Has(m', id, l) <==> Done(logos, factories, a, b + 1, logo, id, l)
  {
    forall id, l
      ensures Has(m', id, l) <==> Done(logos, factories, a, b + 1, logo, id, l)
    {
      MatchedBySnoc(l, id, factories, b);
    }
  }

  /** Adding the key `id` with the list `[logo]`... */
  lemma AddKey(m: Mappings, logo: LogoFile, id: nat)
    requires WellFormed(m) && id !in m.lists
    ensures WellFormed(Mappings(m.keys + [id], m.lists[id := [logo]]))
    ensures Total(m.keys + [id], m.lists[id := [logo]]) == Total(m.keys, m.lists) + 1
    ensures forall i, l :: Has(Mappings(m.keys + [id], m.lists[id := [logo]]), i, l) <==>
      Has(m, i, l) || (i == id && l == logo)
  {
    TotalFrame(m.keys, m.lists, id, [logo]);
    assert (m.keys + [id])[..|m.keys|] == m.keys;
    var m' := Mappings(m.keys + [id], m.lists[id := [logo]]);
    forall i, l
      ensures Has(m', i, l) <==> Has(m, i, l) || (i == id && l == logo)
    {
      if i == id {
        assert l in [logo] <==> l == logo;
      }
    }
  }

  /** ...or appending `logo` to the list of `id` keeps the mapping well formed, counts one more
      match and records just that pair. */
  lemma AddToList(m: Mappings, logo: LogoFile, id: nat)
    requires WellFormed(m) && id in m.lists && logo !in m.lists[id]
    ensures WellFormed(Mappings(m.keys, m.lists[id := m.lists[id] + [logo]]))
    ensures Total(m.keys, m.lists[id := m.lists[id] + [logo]]) == Total(m.keys, m.lists) + 1
    ensures forall i, l :: Has(Mappings(m.keys, m.lists[id := m.lists[id] + [logo]]), i, l) <==>
      Has(m, i, l) || (i == id && l == logo)
  {
    TotalReplace(m.keys, m.lists, id, m.lists[id] + [logo]);
  }

  /** An id is a key only when some logo matched a factory with that id. */
  lemma KeysMatched(logos: seq<LogoFile>, factories: seq<Factory>, m: Mappings, id: nat)
    requires WellFormed(m) && id in m.lists
    requires forall id, l :: Has(m, id, l) <==> l in logos && MatchedBy(l, id, factories)
    ensures exists a | 0 <= a < |logos| :: MatchedBy(logos[a], id, factories)
  {
    var l := m.lists[id][0];
    assert Has(m, id, l);
    var a :| 0 <= a < |logos| && logos[a] == l;
  }
}
