/**
 The `toSlug` helper shared, in two identical copies, by the newsletter-card and course
 controllers: lower-case, drop combining marks, turn every other character outside [a-z0-9]
 into '-', collapse runs of '-', and trim one '-' from each end.
 The input is taken as already in Unicode normalisation form D (see README).
 */
module Slug {
  import opened Text

  /** A combining diacritical mark, U+0300 to U+036F. */
  predicate IsMark(c: char) {
    '\U{0300}' <= c <= '\U{036F}'
  }

  predicate IsSlugChar(c: char) {
    IsLower(c) || IsDigit(c) || c == '-'
  }

  predicate NoDoubleHyphen(s: string) {
    NoRun(s, '-')
  }

  /** The shape every slug has: [a-z0-9-] only, no "--", no '-' at either end. */
  predicate IsSlug(s: string) {
    && (forall i :: 0 <= i < |s| ==> IsSlugChar(s[i]))
    && NoDoubleHyphen(s)
    && (|s| > 0 ==> s[0] != '-' && s[|s| - 1] != '-')
  }

  /** Step 3: every combining mark is dropped. */
  function StripMarks(s: string): (r: string)
    ensures forall i :: 0 <= i < |r| ==> r[i] in s && !IsMark(r[i])
    ensures (forall i :: 0 <= i < |s| ==> !IsMark(s[i])) ==> r == s
  {
    if |s| == 0 then []
    else if IsMark(s[0]) then StripMarks(s[1..])
    else [s[0]] + StripMarks(s[1..])
  }

  /** Step 4: every character outside [a-z0-9] becomes '-'. */
  function Hyphenate(s: string): (r: string)
    ensures |r| == |s|
    ensures forall i :: 0 <= i < |s| ==> r[i] == (if IsLower(s[i]) || IsDigit(s[i]) then s[i] else '-')
  {
    seq(|s|, i requires 0 <= i < |s| => if IsLower(s[i]) || IsDigit(s[i]) then s[i] else '-')
  }

  /**
   Step 5 is `Squeeze(s, '-')`: every run of '-' becomes one. Step 6: one '-' is removed from
   the start and one from the end; the input has no "--".
   */
  function TrimHyphens(s: string): (r: string)
    requires NoDoubleHyphen(s)
    ensures forall i :: 0 <= i < |r| ==> r[i] in s
    ensures NoDoubleHyphen(r)
    ensures |r| > 0 ==> r[0] != '-' && r[|r| - 1] != '-'
    ensures (|s| > 0 ==> s[0] != '-' && s[|s| - 1] != '-') ==> r == s
  {
    var a := if |s| > 0 && s[0] == '-' then s[1..] else s;
    assert |a| > 0 ==> a[0] != '-';
    if |a| > 0 && a[|a| - 1] == '-' then a[..|a| - 1] else a
  }

  /** Steps 1 and 2 are lower-casing and the normalisation the input is taken to have had. */
  function ToSlug(s: string): string {
    SqueezeNoRun(Hyphenate(StripMarks(Lower(s))), '-');
    TrimHyphens(Squeeze(Hyphenate(StripMarks(Lower(s))), '-'))
  }

  /** Every slug has the slug shape: only [a-z0-9-], no leading, trailing or repeated '-'. */
  lemma ToSlugIsSlug(s: string)
    ensures IsSlug(ToSlug(s))
  {
    var h := Hyphenate(StripMarks(Lower(s)));
    var c := Squeeze(h, '-');
    SqueezeChars(h, '-');
    SqueezeNoRun(h, '-');
    assert forall i :: 0 <= i < |c| ==> IsSlugChar(c[i]) by {
      forall i | 0 <= i < |c| ensures IsSlugChar(c[i]) {
        var j :| 0 <= j < |h| && h[j] == c[i];
      }
    }
    var t := TrimHyphens(c);
    forall i | 0 <= i < |t| ensures IsSlugChar(t[i]) {
      var j :| 0 <= j < |c| && c[j] == t[i];
    }
  }

  /** A string that already has the slug shape is its own slug. */
  lemma {:induction false} SlugShapeIsFixed(s: string)
    requires IsSlug(s)
    ensures ToSlug(s) == s
  {
    SlugCharsFixed(s);
    assert StripMarks(s) == s;
    assert NoRun(s, '-');
    SqueezeFixes(s, '-');
    assert Squeeze(Hyphenate(s), '-') == s;
    assert ToSlug(s) == TrimHyphens(s);
  }

  /** Lower-casing and hyphenating leave [a-z0-9-] text as it is, and it has no combining marks. */
  lemma SlugCharsFixed(s: string)
    requires forall i :: 0 <= i < |s| ==> IsSlugChar(s[i])
    ensures Lower(s) == s && Hyphenate(s) == s
    ensures forall i :: 0 <= i < |s| ==> !IsMark(s[i])
  {
    assert forall i :: 0 <= i < |s| ==> Lower(s)[i] == s[i];
    assert forall i :: 0 <= i < |s| ==> Hyphenate(s)[i] == s[i];
  }

  /** `toSlug(toSlug(s)) == toSlug(s)`. */
  lemma ToSlugIdempotent(s: string)
    ensures ToSlug(ToSlug(s)) == ToSlug(s)
  {
    ToSlugIsSlug(s);
    SlugShapeIsFixed(ToSlug(s));
  }
}
