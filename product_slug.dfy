/**
 * The URL segment of a product's detail page: the product name lower-cased,
 * with every run of whitespace turned into a single hyphen.
 */
module ProductSlug {
  import opened Text

  /** The end of the whitespace run that starts at j: the first position from j holding no whitespace. */
  function SkipSpaces(s: string, j: nat): (k: nat)
    requires j <= |s|
    ensures j <= k <= |s|
    ensures forall m :: j <= m < k ==> IsSpace(s[m])
    ensures k < |s| ==> !IsSpace(s[k])
    decreases |s| - j
  {
    if j < |s| && IsSpace(s[j]) then SkipSpaces(s, j + 1) else j
  }

  /**
   * `.replace(/\s+/g, "-")` as the engine runs it from position i: at a
   * whitespace character the greedy `\s+` takes the whole run, one hyphen is
   * written for it and the scan resumes behind the run; any other character
   * is copied.
   */
  function HyphenateFrom(s: string, i: nat): string
    requires i <= |s|
    decreases |s| - i
  {
    if i == |s| then []
    else if IsSpace(s[i]) then "-" + HyphenateFrom(s, SkipSpaces(s, i + 1))
    else [s[i]] + HyphenateFrom(s, i + 1)
  }

  function Hyphenate(s: string): string
  {
    HyphenateFrom(s, 0)
  }

  /** `formatProductNameForURL`: lower-case, then hyphenate. */
  function Slug(name: string): string
  {
    Hyphenate(Lower(name))
  }

  /** No whitespace is left, and every other character comes from the scanned part of the input. */
  lemma {:induction false} HyphenateFromClean(s: string, i: nat)
    requires i <= |s|
    ensures forall c :: c in HyphenateFrom(s, i) ==> !IsSpace(c)
    ensures forall c :: c in HyphenateFrom(s, i) ==> c == '-' || c in s[i..]
    decreases |s| - i
  {
    if i < |s| {
      var j := if IsSpace(s[i]) then SkipSpaces(s, i + 1) else i + 1;
      HyphenateFromClean(s, j);
      assert forall c :: c in s[j..] ==> c in s[i..] by {
        assert s[j..] == s[i..][j - i..];
      }
    }
  }

  /** A slug holds neither whitespace nor capitals, only hyphens and characters of the lower-cased name. */
  lemma SlugClean(name: string)
    ensures forall c :: c in Slug(name) ==> !IsSpace(c) && !IsUpper(c)
    ensures forall c :: c in Slug(name) ==> c == '-' || c in Lower(name)
  {
    HyphenateFromClean(Lower(name), 0);
    assert Lower(name)[0..] == Lower(name);
  }

  /** A stretch without whitespace is copied as it stands. */
  lemma {:induction false} HyphenateFromCopies(s: string, i: nat, j: nat)
    requires i <= j <= |s|
    requires forall k :: i <= k < j ==> !IsSpace(s[k])
    ensures HyphenateFrom(s, i) == s[i..j] + HyphenateFrom(s, j)
    decreases j - i
  {
    if i < j {
      HyphenateFromCopies(s, i + 1, j);
      var rest := HyphenateFrom(s, j);
      assert s[i..j] == [s[i]] + s[i + 1..j];
      assert [s[i]] + (s[i + 1..j] + rest) == ([s[i]] + s[i + 1..j]) + rest;
    }
  }

  /** Text without whitespace goes through the hyphenation untouched. */
  lemma HyphenateFromWithoutSpaces(s: string, i: nat)
    requires i <= |s|
    requires forall k :: i <= k < |s| ==> !IsSpace(s[k])
    ensures HyphenateFrom(s, i) == s[i..]
  {
    HyphenateFromCopies(s, i, |s|);
  }

  /** A name without whitespace only loses its capitals. */
  lemma SlugWithoutSpaces(name: string)
    requires forall c :: c in name ==> !IsSpace(c)
    ensures Slug(name) == Lower(name)
  {
    var lower := Lower(name);
    forall k | 0 <= k < |lower| ensures !IsSpace(lower[k]) {
      assert name[k] in name;
    }
    HyphenateFromWithoutSpaces(lower, 0);
  }

  /** Whitespace runs in the tail of p + q end where they end in q. */
  lemma {:induction false} SkipSpacesShift(p: string, q: string, j: nat)
    requires j <= |q|
    ensures SkipSpaces(p + q, |p| + j) == |p| + SkipSpaces(q, j)
    decreases |q| - j
  {
    if j < |q| {
      assert (p + q)[|p| + j] == q[j];
      if IsSpace(q[j]) {
        SkipSpacesShift(p, q, j + 1);
      }
    }
  }

  /** Scanning the tail of p + q is scanning q. */
  lemma {:induction false} HyphenateFromShift(p: string, q: string, j: nat)
    requires j <= |q|
    ensures HyphenateFrom(p + q, |p| + j) == HyphenateFrom(q, j)
    decreases |q| - j
  {
    var s := p + q;
    if j < |q| {
      assert s[|p| + j] == q[j];
      if IsSpace(q[j]) {
        var k := SkipSpaces(q, j + 1);
        SkipSpacesShift(p, q, j + 1);
        HyphenateFromShift(p, q, k);
      } else {
        HyphenateFromShift(p, q, j + 1);
      }
    }
  }

  /** A whitespace run inside a, which ends in non-whitespace, stops inside a whatever follows. */
  lemma {:induction false} SkipSpacesPrefix(a: string, r: string, j: nat)
    requires j < |a| && !IsSpace(a[|a| - 1])
    ensures SkipSpaces(a + r, j) == SkipSpaces(a, j) < |a|
    decreases |a| - j
  {
    assert (a + r)[j] == a[j];
    if IsSpace(a[j]) {
      SkipSpacesPrefix(a, r, j + 1);
    }
  }

  /**
   * Text that ends in a non-whitespace character is hyphenated on its own:
   * no whitespace run crosses its end, whatever follows it.
   */
  lemma {:induction false} HyphenateFromSplit(a: string, r: string, i: nat)
    requires i <= |a|
    requires a == [] || !IsSpace(a[|a| - 1])
    ensures HyphenateFrom(a + r, i) == HyphenateFrom(a, i) + Hyphenate(r)
    decreases |a| - i
  {
    var s := a + r;
    if i == |a| {
      HyphenateFromShift(a, r, 0);
    } else {
      assert s[i] == a[i];
      if IsSpace(a[i]) {
        SkipSpacesPrefix(a, r, i + 1);
        HyphenateFromSplit(a, r, SkipSpaces(a, i + 1));
      } else {
        HyphenateFromSplit(a, r, i + 1);
      }
    }
  }

  /** A run of whitespace at the very start becomes one leading hyphen. */
  lemma HyphenateLeadingRun(w: string, b: string)
    requires w != [] && forall c :: c in w ==> IsSpace(c)
    requires b == [] || !IsSpace(b[0])
    ensures Hyphenate(w + b) == "-" + Hyphenate(b)
  {
    var s := w + b;
    forall m | 0 <= m < |w| ensures IsSpace(s[m]) {
      assert s[m] == w[m] && w[m] in w;
    }
    SkipSpacesShift(w, b, 0);
    SkipSpacesOver(s, 1, |w|);
    HyphenateFromShift(w, b, 0);
  }

  /** Skipping from inside a run lands where skipping from its middle does. */
  lemma {:induction false} SkipSpacesOver(s: string, j: nat, m: nat)
    requires j <= m <= |s|
    requires forall k :: j <= k < m ==> IsSpace(s[k])
    ensures SkipSpaces(s, j) == SkipSpaces(s, m)
    decreases m - j
  {
    if j < m {
      SkipSpacesOver(s, j + 1, m);
    }
  }

  /**
   * A maximal run of whitespace becomes exactly one hyphen, and the text on
   * either side is hyphenated on its own.
   */
  lemma HyphenateRun(a: string, w: string, b: string)
    requires a == [] || !IsSpace(a[|a| - 1])
    requires w != [] && forall c :: c in w ==> IsSpace(c)
    requires b == [] || !IsSpace(b[0])
    ensures Hyphenate(a + w + b) == Hyphenate(a) + "-" + Hyphenate(b)
  {
    assert a + w + b == a + (w + b);
    HyphenateFromSplit(a, w + b, 0);
    HyphenateLeadingRun(w, b);
  }

  /** The same for the whole slug: each whitespace run of the name becomes one hyphen. */
  lemma SlugRun(a: string, w: string, b: string)
    requires a == [] || !IsSpace(a[|a| - 1])
    requires w != [] && forall c :: c in w ==> IsSpace(c)
    requires b == [] || !IsSpace(b[0])
    ensures Slug(a + w + b) == Slug(a) + "-" + Slug(b)
  {
    LowerAppend(a + w, b);
    LowerAppend(a, w);
    var lw := Lower(w);
    forall c | c in lw ensures IsSpace(c) {
      var k :| 0 <= k < |lw| && lw[k] == c;
      assert w[k] in w;
    }
    HyphenateRun(Lower(a), lw, Lower(b));
  }

  /** A slug is its own slug. */
  lemma SlugIdempotent(name: string)
    ensures Slug(Slug(name)) == Slug(name)
  {
    var s := Slug(name);
    SlugClean(name);
    LowerFixesLowercase(s);
    HyphenateFromWithoutSpaces(s, 0);
  }

  /** Lower-casing the example name. */
  lemma ExampleLower()
    ensures Lower("Monstera   Deliciosa") == "monstera   deliciosa"
  {
  }

  /** The example's second word is copied. */
  lemma ExampleSecondWord(s: string)
    requires s == "monstera   deliciosa"
    ensures HyphenateFrom(s, 11) == "deliciosa"
  {
    HyphenateFromWithoutSpaces(s, 11);
  }

  /** The example's run of three spaces becomes one hyphen. */
  lemma ExampleRun(s: string)
    requires s == "monstera   deliciosa"
    ensures HyphenateFrom(s, 8) == "-deliciosa"
  {
    assert s[11] == 'd';
    SkipSpacesOver(s, 9, 11);
    ExampleSecondWord(s);
  }

  /** The example's first word is copied. */
  lemma ExampleFirstWord(s: string)
    requires s == "monstera   deliciosa"
    ensures HyphenateFrom(s, 0) == "monstera" + HyphenateFrom(s, 8)
  {
    HyphenateFromCopies(s, 0, 8);
  }

  /** Hyphenating the lower-cased example name. */
  lemma ExampleHyphenate(s: string)
    requires s == "monstera   deliciosa"
    ensures Hyphenate(s) == "monstera-deliciosa"
  {
    ExampleFirstWord(s);
    ExampleRun(s);
  }

  /** Several spaces between two words still give a single hyphen. */
  lemma SlugExample()
    ensures Slug("Monstera   Deliciosa") == "monstera-deliciosa"
  {
    ExampleLower();
    ExampleHyphenate(Lower("Monstera   Deliciosa"));
  }
}
