/** utils.ts: text normalisation, token sets, the overlap score and the
    viewport visibility test. */
module Utils {
  import opened Strings
  import opened Dom

  /** The Unicode services `norm` calls, taken as given:
      `lowerNfkd` is `s.toLowerCase().normalize("NFKD")` and
      `isLetterOrNumber` is the class `[\p{L}\p{N}]`. */
  datatype Unicode = Unicode(lowerNfkd: string -> string, isLetterOrNumber: char -> bool)

  /** The range `̀-ͯ` of combining diacritical marks. */
  predicate IsCombiningMark(c: char) {
    '\U{0300}' <= c <= '\U{036F}'
  }

  /** `s.replace(/[̀-ͯ]/g, "")` */
  function DropMarks(s: string): (r: string)
    ensures forall i :: 0 <= i < |r| ==> !IsCombiningMark(r[i])
    ensures |r| <= |s|
  {
    if s == [] then []
    else if IsCombiningMark(s[0]) then DropMarks(s[1..])
    else [s[0]] + DropMarks(s[1..])
  }

  /** Dropping marks works character by character ... */
  lemma {:induction false} DropMarksAppend(a: string, b: string)
    ensures DropMarks(a + b) == DropMarks(a) + DropMarks(b)
  {
    if a == [] {
      assert a + b == b;
    } else {
      assert (a + b)[0] == a[0] && (a + b)[1..] == a[1..] + b;
      DropMarksAppend(a[1..], b);
    }
  }

  /** ... removing a combining mark and keeping any other character. */
  lemma DropMarksOne(c: char)
    ensures DropMarks([c]) == if IsCombiningMark(c) then [] else [c]
  {
    assert [c][1..] == [];
  }

  /** Whether `norm` keeps a character rather than blanking it. */
  predicate Kept(u: Unicode, c: char) {
    u.isLetterOrNumber(c) || IsSpace(c)
  }

  /** `s.replace(/[^\p{L}\p{N}\s]/gu, " ")` */
  function BlankPunctuation(u: Unicode, s: string): (r: string)
    ensures |r| == |s|
  {
    seq(|s|, i requires 0 <= i < |s| => if Kept(u, s[i]) then s[i] else ' ')
  }

  /** `norm`: lower-case, strip diacritics, blank punctuation, collapse
      whitespace and trim. Whatever the Unicode tables say, the result is
      single-spaced and trimmed, and every other character it holds is a
      letter or digit that is not a combining mark. */
  function Norm(u: Unicode, s: string): (r: string)
    ensures Squashed(r)
    ensures forall i :: 0 <= i < |r| && r[i] != ' ' ==>
      u.isLetterOrNumber(r[i]) && !IsSpace(r[i]) && !IsCombiningMark(r[i])
  {
    var m := DropMarks(u.lowerNfkd(s));
    var t := BlankPunctuation(u, m);
    var r := Squash(t);
    NormChars(u, m, t, r);
    r
  }

  lemma NormChars(u: Unicode, m: string, t: string, r: string)
    requires forall i :: 0 <= i < |m| ==> !IsCombiningMark(m[i])
    requires t == BlankPunctuation(u, m)
    requires r == Squash(t)
    ensures forall i :: 0 <= i < |r| && r[i] != ' ' ==>
      u.isLetterOrNumber(r[i]) && !IsSpace(r[i]) && !IsCombiningMark(r[i])
  {
    forall i | 0 <= i < |r| && r[i] != ' '
      ensures u.isLetterOrNumber(r[i]) && !IsSpace(r[i]) && !IsCombiningMark(r[i])
    {
      var c := r[i];
      assert !IsSpace(c);
      SquashMembers(t, c);
      var j :| 0 <= j < |t| && t[j] == c;
      assert t[j] == m[j];
    }
  }

  /** The words of a string without raw whitespace hold no whitespace at all. */
  lemma WordsHaveNoSpace(n: string)
    requires OnlyPlainSpaces(n)
    ensures forall k :: 0 <= k < |Split(n, ' ')| ==> NoSpace(Split(n, ' ')[k])
  {
    var parts := Split(n, ' ');
    forall k | 0 <= k < |parts|
      ensures NoSpace(parts[k])
    {
      forall i | 0 <= i < |parts[k]|
        ensures !IsSpace(parts[k][i])
      {
        var c := parts[k][i];
        assert c in parts[k];
        assert c != ' ';
        assert c in n;
        var j :| 0 <= j < |n| && n[j] == c;
      }
    }
  }

  /** `toTokenSet`: the distinct words of `norm(s)` that are at least three
      characters long. */
  function TokenSet(u: Unicode, s: string): (r: set<string>)
    ensures forall t :: t in r ==> |t| >= 3 && NoSpace(t)
    ensures forall t :: t in r <==> t in Split(Norm(u, s), ' ') && |t| >= 3
  {
    var n := Norm(u, s);
    WordsHaveNoSpace(n);
    var parts := Split(n, ' ');
    set k | 0 <= k < |parts| && |parts[k]| >= 3 :: parts[k]
  }

  /** The tokens are exactly the words of `norm(s)` that have three or more
      characters. */
  lemma TokenSetIsLongWords(u: Unicode, s: string, t: string)
    ensures t in TokenSet(u, s) <==> t in Words(Norm(u, s)) && |t| >= 3
  {
    var n := Norm(u, s);
    assert t in TokenSet(u, s) <==> t in Split(n, ' ') && |t| >= 3;
    if Ink(n) != [] {
      SplitOfSquashed(n);
    } else {
      BlankSquashed(n);
      assert Split(n, ' ') == [[]];
      assert Words(n) == [];
    }
  }

  lemma SplitOfSquashed(n: string)
    requires Squashed(n) && Ink(n) != []
    ensures Split(n, ' ') == Words(n)
  {
    SquashFixpoint(n);
    SplitSquash(n);
  }

  lemma BlankSquashed(n: string)
    requires Squashed(n) && Ink(n) == []
    ensures n == []
  {
    SquashEmpty(n);
    SquashFixpoint(n);
  }

  /** `Math.max(1, n)` */
  function AtLeastOne(n: nat): (r: nat)
    ensures r >= 1 && r >= n
  {
    if n > 1 then n else 1
  }

  /** The fraction of `needles` found in `haystack`, `|A ∩ B| / max(1, |A|)`. */
  function Overlap(needles: set<string>, haystack: set<string>): (r: real)
    ensures 0.0 <= r <= 1.0
    ensures needles == {} ==> r == 0.0
  {
    var hits := |needles * haystack|;
    SubsetSize(needles * haystack, needles);
    RatioBounds(hits as real, AtLeastOne(|needles|) as real);
    (hits as real) / (AtLeastOne(|needles|) as real)
  }

  /** `overlapScore`, counting hits one needle at a time as the source does. */
  method OverlapScore(needles: set<string>, haystack: set<string>) returns (score: real)
    ensures score == Overlap(needles, haystack)
  {
    var hits: nat := 0;
    var rest := needles;
    while rest != {}
      invariant rest <= needles
      invariant hits == |(needles - rest) * haystack|
      decreases rest
    {
      var t :| t in rest;
      var seen := (needles - rest) * haystack;
      var seen' := (needles - (rest - {t})) * haystack;
      if t in haystack {
        assert seen' == seen + {t};
        hits := hits + 1;
      } else {
        assert seen' == seen;
      }
      rest := rest - {t};
    }
    assert needles - rest == needles;
    score := (hits as real) / (AtLeastOne(|needles|) as real);
  }

  /** A subset is no larger, and a proper subset is strictly smaller. */
  lemma SubsetSize<T>(a: set<T>, b: set<T>)
    requires a <= b
    ensures |a| <= |b|
    ensures a < b ==> |a| < |b|
  {
    assert b == a + (b - a);
    assert a * (b - a) == {};
    if a < b {
      var x :| x in b - a;
      assert |b - a| >= 1 by { assert {x} <= b - a; }
    }
  }

  lemma RatioBounds(h: real, d: real)
    requires 0.0 <= h <= d && d >= 1.0
    ensures 0.0 <= h / d <= 1.0
    ensures h / d == 1.0 <==> h == d
  {
  }

  lemma RatioMonotone(a: real, b: real, d: real)
    requires 0.0 <= a <= b && d >= 1.0
    ensures a / d <= b / d
  {
  }

  /** A full score means every needle was found, and nothing else does. */
  lemma OverlapIsOneIff(needles: set<string>, haystack: set<string>)
    ensures Overlap(needles, haystack) == 1.0 <==> needles != {} && needles <= haystack
  {
    var common := needles * haystack;
    SubsetSize(common, needles);
    RatioBounds(|common| as real, AtLeastOne(|needles|) as real);
    if needles != {} && !(needles <= haystack) {
      var t :| t in needles && t !in haystack;
      assert common < needles by { assert t !in common; }
    }
    if needles <= haystack {
      assert common == needles;
    }
  }

  /** Adding tokens to the haystack never lowers the score. */
  lemma OverlapMonotone(needles: set<string>, small: set<string>, large: set<string>)
    requires small <= large
    ensures Overlap(needles, small) <= Overlap(needles, large)
  {
    SubsetSize(needles * small, needles * large);
    RatioMonotone(|needles * small| as real, |needles * large| as real, AtLeastOne(|needles|) as real);
  }

  /** `isVisible`: positive size and at least partly inside the viewport. */
  predicate IsVisible(r: Rect, vp: Viewport) {
    && r.height > 0.0
    && r.width > 0.0
    && r.Bottom() > 0.0
    && r.Right() > 0.0
    && r.top < vp.Height()
    && r.left < vp.Width()
  }

  function Max(a: real, b: real): real { if a >= b then a else b }
  function Min(a: real, b: real): real { if a <= b then a else b }

  /** The half-open intervals `[a0, a1)` and `[b0, b1)` share a point. */
  predicate Overlaps(a0: real, a1: real, b0: real, b1: real) {
    Max(a0, b0) < Min(a1, b1)
  }

  /** For a non-degenerate viewport, `isVisible` is exactly "has an area and
      meets the viewport rectangle". */
  lemma IsVisibleIff(r: Rect, vp: Viewport)
    requires vp.Width() > 0.0 && vp.Height() > 0.0
    ensures IsVisible(r, vp) <==>
      && r.width > 0.0 && r.height > 0.0
      && Overlaps(r.top, r.Bottom(), 0.0, vp.Height())
      && Overlaps(r.left, r.Right(), 0.0, vp.Width())
  {
  }
}
