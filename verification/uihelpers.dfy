/** helpers/uiHelpers.ts: normalising untrusted analysis fields for display. */
module UiHelpers {
  import opened Wrappers
  import opened Strings
  import opened Json

  /** `text(v)`: the words of a string joined by single spaces, `""` for
      anything else. */
  function Text(v: Json): (r: string)
    ensures Squashed(r)
    ensures v.Str? ==> Ink(r) == Ink(v.s)
    ensures !v.Str? ==> r == ""
  {
    if v.Str? then Squash(v.s) else ""
  }

  /** `text` of a string is its words joined by single spaces. */
  lemma TextIsJoinedWords(s: string)
    ensures Text(Str(s)) == Join(Words(s), ' ')
  {
    SquashIsJoinedWords(s);
  }

  /** Normalising a normalised field changes nothing. */
  lemma TextIdempotent(v: Json)
    ensures Text(Str(Text(v))) == Text(v)
  {
    if v.Str? {
      SquashIdempotent(v.s);
    } else {
      assert Squash("") == "" by { SquashFixpoint(""); }
    }
  }

  /** A field already in normal form passes through unchanged. */
  lemma TextOfSquashed(s: string)
    ensures Text(Str(s)) == s <==> Squashed(s)
  {
    SquashFixpoint(s);
  }

  /** `text(v)` is empty exactly when `v` is not a string or is blank. */
  lemma TextEmpty(v: Json)
    ensures Text(v) == "" <==> !v.Str? || Ink(v.s) == ""
  {
    if v.Str? {
      SquashEmpty(v.s);
    }
  }

  /** `orNone(v)`: the normalised text, or `"none"` in its place. */
  function OrNone(v: Json): (r: string)
    ensures r != "" && Squashed(r)
    ensures Text(v) != "" ==> r == Text(v)
    ensures Text(v) == "" ==> r == "none"
  {
    var t := Text(v);
    if t != "" then t else "none"
  }

  /** `orNull(v)`: the normalised text, or `null` when there is none. */
  function OrNull(v: Json): (r: Option<string>)
    ensures r.None? <==> Text(v) == ""
    ensures r.Some? ==> r.value == Text(v) && r.value != ""
  {
    var t := Text(v);
    if t != "" then Some(t) else None
  }

  /** `enumOr(v, allowed, fallback)`: `v` itself when it is one of the allowed
      strings, the fallback otherwise. */
  function EnumOr(v: Json, allowed: seq<string>, fallback: string): (r: string)
    ensures v.Str? && v.s in allowed ==> r == v.s
    ensures !(v.Str? && v.s in allowed) ==> r == fallback
    ensures fallback in allowed ==> r in allowed
  {
    if v.Str? && v.s in allowed then v.s else fallback
  }

  /** Above this length a post's text is taken to be cut off. */
  const TruncatedLength: nat := 275
  /** The case-insensitive marker of a collapsed post. */
  const ShowMore: string := "Show more"

  /** The truncation heuristic, parameterised by the ellipsis it looks for at the end. */
  predicate TruncatedWith(t: string, ellipsis: string) {
    t != "" && (|t| > TruncatedLength || EndsWith(t, ellipsis) || ContainsIgnoringCase(t, ShowMore))
  }

  /** The ellipsis as this file spells it: the three characters U+00E2 U+20AC
      U+00A6 that the UTF-8 bytes of `…` become when read as Windows-1252. */
  const MisreadEllipsis: string := "\U{00E2}\U{20AC}\U{00A6}"

  /** `inferTruncated` as written in this file. */
  function InferTruncated(t: string): (r: bool)
    ensures r ==> t != ""
    ensures |t| > TruncatedLength ==> r
    ensures ContainsIgnoringCase(t, ShowMore) ==> r
  {
    TruncatedWith(t, MisreadEllipsis)
  }

  /** A short post ending in a real ellipsis is not seen as truncated, though
      the ellipsis is exactly what a cut-off post ends with. */
  lemma InferTruncatedMissesEllipsis(t: string)
    requires EndsWith(t, "…") && |t| <= TruncatedLength
    requires !ContainsIgnoringCase(t, ShowMore)
    ensures !InferTruncated(t)
  {
    assert t[|t| - 1] == '…';
    assert MisreadEllipsis[2] != '…';
  }

  /** The concrete case: `"Read this…"`. */
  lemma InferTruncatedMissesEllipsisExample()
    ensures !InferTruncated("Read this…")
  {
    var t := "Read this…";
    assert EndsWith(t, "…");
    assert !ContainsIgnoringCase(t, ShowMore) by {
      forall i | 0 <= i <= |t| - |ShowMore|
        ensures !StartsWithIgnoringCase(t[i..], ShowMore)
      {
        assert i <= 1;
        if i == 0 {
          assert FoldAscii(t[0]) != FoldAscii(ShowMore[0]);
        } else {
          assert FoldAscii(t[1]) != FoldAscii(ShowMore[0]);
        }
      }
    }
    InferTruncatedMissesEllipsis(t);
  }
}
