/**
 * The heading text of the product grid: a category key such as
 * "indoorPlants" or "CLEARANCE_sale" rewritten in five passes into
 * "Indoor Plants" or "Clearance Sale".
 */
module CategoryName {
  import opened Text

  // ---------------------------------------------------------------------
  // Pass 1: `.replace(/([a-z])([A-Z])/g, "$1 $2")`

  /** A match of `([a-z])([A-Z])` begins at position i of s. */
  predicate CamelAt(s: string, i: int) {
    0 <= i && i + 1 < |s| && IsLower(s[i]) && IsUpper(s[i + 1])
  }

  /** The number of positions of s at which a camel-case boundary begins. */
  function CamelCount(s: string): nat
  {
    if s == [] then 0 else (if CamelAt(s, 0) then 1 else 0) + CamelCount(s[1..])
  }

  /**
   * The global replace as the regular-expression engine runs it: the scan
   * position i moves right one character at a time, and after a match it
   * resumes behind the two letters the match consumed.
   */
  function SplitCamelScan(s: string, i: nat): string
    decreases |s| - i
  {
    if i >= |s| then []
    else if CamelAt(s, i) then [s[i], ' ', s[i + 1]] + SplitCamelScan(s, i + 2)
    else [s[i]] + SplitCamelScan(s, i + 1)
  }

  /**
   * Reference reading of pass 1: a space after every position at which a
   * camel-case boundary begins. No such boundary survives.
   */
  function SplitCamel(s: string): (r: string)
    ensures |r| == |s| + CamelCount(s)
    ensures s != [] ==> r[0] == s[0]
    ensures forall i :: !CamelAt(r, i)
  {
    if s == [] then []
    else if CamelAt(s, 0) then
      var t := SplitCamel(s[1..]);
      var r := [s[0], ' '] + t;
      assert forall i :: 2 <= i ==> CamelAt(r, i) == CamelAt(t, i - 2);
      r
    else
      var t := SplitCamel(s[1..]);
      var r := [s[0]] + t;
      assert forall i :: 1 <= i ==> CamelAt(r, i) == CamelAt(t, i - 1);
      r
  }

  /**
   * Matches of pass 1 cannot overlap (a match ends on an uppercase letter,
   * which cannot begin one), so the scan inserts exactly the reference spaces.
   */
  lemma {:induction false} SplitCamelScanIsInsertion(s: string, i: nat)
    requires i <= |s|
    ensures SplitCamelScan(s, i) == SplitCamel(s[i..])
    decreases |s| - i
  {
    if i < |s| {
      assert s[i..][1..] == s[i + 1..];
      assert CamelAt(s[i..], 0) == CamelAt(s, i);
      if CamelAt(s, i) {
        assert s[i + 1..][1..] == s[i + 2..];
        assert !CamelAt(s[i + 1..], 0);
        SplitCamelScanIsInsertion(s, i + 2);
      } else {
        SplitCamelScanIsInsertion(s, i + 1);
      }
    }
  }

  // ---------------------------------------------------------------------
  // Pass 2: `.replace(/([A-Z])([A-Z][a-z])/g, "$1 $2")`

  /** A match of `([A-Z])([A-Z][a-z])` begins at position i of s. */
  predicate AcronymAt(s: string, i: int) {
    0 <= i && i + 2 < |s| && IsUpper(s[i]) && IsUpper(s[i + 1]) && IsLower(s[i + 2])
  }

  /** The number of positions of s at which an acronym-to-word boundary begins. */
  function AcronymCount(s: string): nat
  {
    if s == [] then 0 else (if AcronymAt(s, 0) then 1 else 0) + AcronymCount(s[1..])
  }

  /** The global replace as the engine runs it: a match consumes three characters. */
  function SplitAcronymScan(s: string, i: nat): string
    decreases |s| - i
  {
    if i >= |s| then []
    else if AcronymAt(s, i) then [s[i], ' ', s[i + 1], s[i + 2]] + SplitAcronymScan(s, i + 3)
    else [s[i]] + SplitAcronymScan(s, i + 1)
  }

  /**
   * Reference reading of pass 2: a space after every position at which an
   * acronym-to-word boundary begins. No such boundary survives.
   */
  function SplitAcronym(s: string): (r: string)
    ensures |r| == |s| + AcronymCount(s)
    ensures s != [] ==> r[0] == s[0]
    ensures |s| > 1 ==> r[1] == s[1] || r[1] == ' '
    ensures forall i :: !AcronymAt(r, i)
  {
    if s == [] then []
    else if AcronymAt(s, 0) then
      var t := SplitAcronym(s[1..]);
      var r := [s[0], ' '] + t;
      assert forall i :: 2 <= i ==> AcronymAt(r, i) == AcronymAt(t, i - 2);
      r
    else
      var t := SplitAcronym(s[1..]);
      var r := [s[0]] + t;
      assert forall i :: 1 <= i ==> AcronymAt(r, i) == AcronymAt(t, i - 1);
      r
  }

  /**
   * Matches of pass 2 cannot overlap (the two characters after a match's
   * first one are an uppercase and a lowercase letter, and neither can begin
   * a match), so the scan inserts exactly the reference spaces.
   */
  lemma {:induction false} SplitAcronymScanIsInsertion(s: string, i: nat)
    requires i <= |s|
    ensures SplitAcronymScan(s, i) == SplitAcronym(s[i..])
    decreases |s| - i
  {
    if i < |s| {
      var t := s[i..];
      assert t[1..] == s[i + 1..];
      assert AcronymAt(t, 0) == AcronymAt(s, i);
      if AcronymAt(s, i) {
        var u, v := s[i + 1..], s[i + 2..];
        assert u[0] == s[i + 1] && u[1] == s[i + 2] && u[1..] == v;
        assert v[0] == s[i + 2] && v[1..] == s[i + 3..];
        assert !AcronymAt(u, 0) && !AcronymAt(v, 0);
        SplitAcronymScanIsInsertion(s, i + 3);
        calc {
          SplitAcronym(t);
          [s[i], ' '] + SplitAcronym(u);
          [s[i], ' '] + ([s[i + 1]] + SplitAcronym(v));
          [s[i], ' '] + ([s[i + 1]] + ([s[i + 2]] + SplitAcronym(s[i + 3..])));
          [s[i], ' ', s[i + 1], s[i + 2]] + SplitAcronym(s[i + 3..]);
        }
      } else {
        SplitAcronymScanIsInsertion(s, i + 1);
      }
    }
  }

  // ---------------------------------------------------------------------
  // Pass 3: `.replace(/_/g, " ")`

  /**
   * Every match of `/_/` is a single character, so the global replace maps
   * the text character by character.
   */
  function UnderscoresToSpaces(s: string): (r: string)
    ensures |r| == |s| && '_' !in r
    ensures forall k :: 0 <= k < |s| && s[k] != '_' ==> r[k] == s[k]
    ensures forall k :: 0 <= k < |s| && s[k] == '_' ==> r[k] == ' '
  {
    seq(|s|, k requires 0 <= k < |s| => if s[k] == '_' then ' ' else s[k])
  }

  // Pass 4 is `.toLowerCase()`: Text.Lower.

  // ---------------------------------------------------------------------
  // Pass 5: `.replace(/\b\w/g, (char) => char.toUpperCase())`

  /** `\b\w` matches at i: a word character that is not preceded by one. */
  predicate StartsWord(s: string, i: int)
    requires 0 <= i < |s|
  {
    IsWord(s[i]) && (i == 0 || !IsWord(s[i - 1]))
  }

  /**
   * Every maximal run of word characters begins with a character that is not
   * a lowercase letter, and no other character is an uppercase letter.
   */
  predicate TitleCased(s: string) {
    forall i :: 0 <= i < |s| ==> if StartsWord(s, i) then !IsLower(s[i]) else !IsUpper(s[i])
  }

  /**
   * Every match of `\b\w` is a single character, which the callback
   * upper-cases; the global replace therefore maps the text position by
   * position.
   */
  function CapitalizeWords(s: string): (r: string)
    ensures |r| == |s|
  {
    seq(|s|, k requires 0 <= k < |s| => if StartsWord(s, k) then ToUpper(s[k]) else s[k])
  }

  /** Capitalizing the word starts of text without uppercase letters gives title-cased text. */
  lemma CapitalizeWordsTitleCases(s: string)
    requires forall c :: c in s ==> !IsUpper(c)
    ensures TitleCased(CapitalizeWords(s))
  {
    var r := CapitalizeWords(s);
    assert forall k :: 0 <= k < |s| ==> IsWord(r[k]) == IsWord(s[k]);
    assert forall k :: 0 <= k < |s| ==> StartsWord(r, k) == StartsWord(s, k);
  }

  /** Pass 5 changes letter case only: lower-casing its result gives back its input. */
  lemma CapitalizeWordsKeepsLetters(s: string)
    requires forall c :: c in s ==> !IsUpper(c)
    ensures Lower(CapitalizeWords(s)) == s
  {
    var r := CapitalizeWords(s);
    forall k | 0 <= k < |s| ensures Lower(r)[k] == s[k] {
      assert s[k] in s;
      CaseRoundTrip(s[k]);
    }
  }

  /** Two title-cased texts that agree up to letter case are equal. */
  lemma TitleCasedUnique(a: string, b: string)
    requires TitleCased(a) && TitleCased(b)
    requires Lower(a) == Lower(b)
    ensures a == b
  {
    CapitalizeWordsRestoresTitleCased(a);
    CapitalizeWordsRestoresTitleCased(b);
  }

  // ---------------------------------------------------------------------
  // The whole rewrite

  /** `formatCategoryName`: the five passes in order. */
  function FormatCategoryName(category: string): string
  {
    CapitalizeWords(Lower(UnderscoresToSpaces(SplitAcronymScan(SplitCamelScan(category, 0), 0))))
  }

  /**
   * The label has no underscore, is title-cased, and is longer than the key
   * by exactly the spaces passes 1 and 2 insert: passes 3 to 5 keep the length.
   */
  lemma FormatCategoryNameShape(category: string)
    ensures '_' !in FormatCategoryName(category)
    ensures TitleCased(FormatCategoryName(category))
    ensures |FormatCategoryName(category)| == |category| + CamelCount(category) + AcronymCount(SplitCamel(category))
  {
    SplitCamelScanIsInsertion(category, 0);
    assert category[0..] == category;
    var camel := SplitCamelScan(category, 0);
    SplitAcronymScanIsInsertion(camel, 0);
    assert camel[0..] == camel;
    var acronym := SplitAcronymScan(camel, 0);
    var spaced := UnderscoresToSpaces(acronym);
    var lower := Lower(spaced);
    CapitalizeWordsTitleCases(lower);
    var r := CapitalizeWords(lower);
    forall k | 0 <= k < |r| ensures r[k] != '_' {
      assert lower[k] == ToLower(spaced[k]);
    }
  }

  /**
   * The label's letters are the key's: up to letter case it is the key with a
   * space at every camel-case and acronym boundary and spaces for underscores.
   */
  lemma FormatCategoryNameLetters(category: string)
    ensures Lower(FormatCategoryName(category)) == Lower(UnderscoresToSpaces(SplitAcronym(SplitCamel(category))))
  {
    SplitCamelScanIsInsertion(category, 0);
    assert category[0..] == category;
    var camel := SplitCamelScan(category, 0);
    SplitAcronymScanIsInsertion(camel, 0);
    assert camel[0..] == camel;
    var lower := Lower(UnderscoresToSpaces(SplitAcronymScan(camel, 0)));
    CapitalizeWordsKeepsLetters(lower);
  }

  /**
   * The label is the one title-cased text with those letters: any title-cased
   * text that agrees with the spaced key up to letter case is the label.
   */
  lemma FormatCategoryNameIsTheTitleCasing(category: string, t: string)
    requires TitleCased(t)
    requires Lower(t) == Lower(UnderscoresToSpaces(SplitAcronym(SplitCamel(category))))
    ensures t == FormatCategoryName(category)
  {
    FormatCategoryNameShape(category);
    FormatCategoryNameLetters(category);
    TitleCasedUnique(t, FormatCategoryName(category));
  }

  /** Title-cased text has no camel-case boundary and no acronym-to-word boundary. */
  lemma TitleCasedHasNoBoundary(s: string)
    requires TitleCased(s)
    ensures forall i :: !CamelAt(s, i) && !AcronymAt(s, i)
  {
    forall i | 0 <= i && i + 1 < |s| && IsUpper(s[i + 1])
      ensures !IsWord(s[i])
    {
      assert StartsWord(s, i + 1);
    }
  }

  lemma {:induction false} SplitCamelFixes(s: string)
    requires forall i :: !CamelAt(s, i)
    ensures SplitCamel(s) == s
  {
    if s != [] {
      assert forall i :: CamelAt(s[1..], i) ==> CamelAt(s, i + 1);
      SplitCamelFixes(s[1..]);
    }
  }

  lemma {:induction false} SplitAcronymFixes(s: string)
    requires forall i :: !AcronymAt(s, i)
    ensures SplitAcronym(s) == s
  {
    if s != [] {
      assert forall i :: AcronymAt(s[1..], i) ==> AcronymAt(s, i + 1);
      SplitAcronymFixes(s[1..]);
    }
  }

  /** On text with no camel-case boundary, pass 1 changes nothing. */
  lemma SplitCamelScanFixes(s: string)
    requires forall i :: !CamelAt(s, i)
    ensures SplitCamelScan(s, 0) == s
  {
    SplitCamelFixes(s);
    SplitCamelScanIsInsertion(s, 0);
    assert s[0..] == s;
  }

  /** On text with no acronym-to-word boundary, pass 2 changes nothing. */
  lemma SplitAcronymScanFixes(s: string)
    requires forall i :: !AcronymAt(s, i)
    ensures SplitAcronymScan(s, 0) == s
  {
    SplitAcronymFixes(s);
    SplitAcronymScanIsInsertion(s, 0);
    assert s[0..] == s;
  }

  /** Lower-casing title-cased text and capitalizing its word starts again restores it. */
  lemma CapitalizeWordsRestoresTitleCased(s: string)
    requires TitleCased(s)
    ensures CapitalizeWords(Lower(s)) == s
  {
    var lower := Lower(s);
    var r := CapitalizeWords(lower);
    forall k | 0 <= k < |s| ensures r[k] == s[k] {
      CaseRoundTrip(s[k]);
      assert StartsWord(lower, k) == StartsWord(s, k);
    }
  }

  /** A title-cased label without underscores is its own formatting. */
  lemma FormatCategoryNameFixesTitleCased(s: string)
    requires TitleCased(s) && '_' !in s
    ensures FormatCategoryName(s) == s
  {
    TitleCasedHasNoBoundary(s);
    SplitCamelScanFixes(s);
    SplitAcronymScanFixes(s);
    assert UnderscoresToSpaces(s) == s;
    CapitalizeWordsRestoresTitleCased(s);
  }

  /** Formatting an already formatted label changes nothing. */
  lemma FormatCategoryNameIdempotent(category: string)
    ensures FormatCategoryName(FormatCategoryName(category)) == FormatCategoryName(category)
  {
    FormatCategoryNameShape(category);
    FormatCategoryNameFixesTitleCased(FormatCategoryName(category));
  }
}
