/**
 * The rules by which the output device glues text fragments into blocks:
 * which fragments are blank, when two texts count as the same text
 * printed twice, and when a fragment continues the previous one.
 */
module Coalesce {
  import opened Geometry
  import Numeric

  // ------------------------------------------------------------ blanks

  /** The characters `drawString` treats as blank: space, line feed and carriage return. */
  predicate IsBlank(c: char) { c == ' ' || c == '\n' || c == '\r' }

  /** A fragment made of blanks only, the empty one included. */
  predicate Blank(s: string) { forall i :: 0 <= i < |s| ==> IsBlank(s[i]) }

  /**
   * The blank filter of `drawString`: scans the fragment while every
   * character so far is blank.
   */
  method AllBlanks(text: string) returns (allBlanks: bool)
    ensures allBlanks == Blank(text)
  {
    allBlanks := true;
    var i := 0;
    while i < |text| && allBlanks
      invariant 0 <= i <= |text|
      invariant allBlanks <==> forall k :: 0 <= k < i ==> IsBlank(text[k])
    {
      var c := text[i];
      if c != ' ' && c != '\n' && c != '\r' {
        allBlanks := false;
      }
      i := i + 1;
    }
  }

  // ------------------------------------------------------------ comparison

  /** The text with every space (0x20) deleted. */
  function Strip(s: string): (r: string)
    ensures |r| <= |s| && ' ' !in r
  {
    if s == [] then [] else if s[0] == ' ' then Strip(s[1..]) else [s[0]] + Strip(s[1..])
  }

  predicate EndsInSpace(s: string) { |s| > 0 && s[|s| - 1] == ' ' }

  /**
   * When `compare_with_coalesc` answers true for a pending block: both
   * texts are equal once their spaces are deleted, and neither ends in a
   * space, since the scan stops as soon as either text is used up.
   */
  predicate SameText(s: string, t: string)
  {
    Strip(s) == Strip(t) && !EndsInSpace(s) && !EndsInSpace(t)
  }

  lemma {:induction false} StripAppend(a: string, b: string)
    ensures Strip(a + b) == Strip(a) + Strip(b)
    decreases |a|
  {
    if a != [] {
      assert (a + b)[1..] == a[1..] + b;
      StripAppend(a[1..], b);
    } else {
      assert a + b == b;
    }
  }

  /** Nothing is left of a text made of spaces only, and only of such a text. */
  lemma {:induction false} StripEmpty(s: string)
    ensures Strip(s) == [] <==> forall i :: 0 <= i < |s| ==> s[i] == ' '
    decreases |s|
  {
    if s != [] {
      StripEmpty(s[1..]);
      assert forall i :: 1 <= i < |s| ==> s[i] == s[1..][i - 1];
    }
  }

  /** Stripping a prefix one character longer: the character is kept exactly when it is not a space. */
  lemma StripSnoc(s: string, i: nat)
    requires i < |s|
    ensures Strip(s[..i + 1]) == Strip(s[..i]) + (if s[i] == ' ' then [] else [s[i]])
  {
    assert s[..i + 1] == s[..i] + [s[i]];
    StripAppend(s[..i], [s[i]]);
  }

  /** The facts a stopped scan leaves: what it read of both texts strips alike. */
  lemma ScanOutcome(s: string, t: string, i: nat, j: nat, mismatch: bool)
    requires i <= |s| && j <= |t|
    requires Strip(s[..i]) == Strip(t[..j])
    requires mismatch ==> i < |s| && j < |t| && s[i] != ' ' && t[j] != ' ' && s[i] != t[j]
    requires !mismatch ==> i == |s| || j == |t|
    requires (i > 0 && s[i - 1] == ' ') ==> (j < |t| || i < |s|)
    requires (j > 0 && t[j - 1] == ' ') ==> (i < |s| && s[i] != ' ')
    ensures (!mismatch && i == |s| && j == |t|) <==> SameText(s, t)
  {
    if mismatch {
      MismatchDiffers(s, t, i, j);
    } else if i == |s| && j < |t| {
      assert s[..i] == s;
      LeftoverDiffers(s, t, j);
    } else if j == |t| && i < |s| {
      assert t[..j] == t;
      LeftoverDiffers(t, s, i);
    } else {
      assert s[..i] == s && t[..j] == t;
    }
  }

  /** Texts whose first non-space characters after equal stripped prefixes differ are not the same text. */
  lemma MismatchDiffers(s: string, t: string, i: nat, j: nat)
    requires i < |s| && j < |t| && s[i] != ' ' && t[j] != ' ' && s[i] != t[j]
    requires Strip(s[..i]) == Strip(t[..j])
    ensures Strip(s) != Strip(t)
  {
    var p := Strip(s[..i]);
    StripSplit(s, i);
    StripSplit(t, j);
    assert Strip(s)[|p|] == s[i];
    assert Strip(t)[|p|] == t[j];
  }

  /** Stripping a text whose character i is not a space: the stripped prefix, that character, the stripped rest. */
  lemma StripSplit(s: string, i: nat)
    requires i < |s| && s[i] != ' '
    ensures Strip(s) == Strip(s[..i]) + [s[i]] + Strip(s[i + 1..])
  {
    assert s == s[..i] + s[i..];
    StripAppend(s[..i], s[i..]);
    assert s[i..][1..] == s[i + 1..];
  }

  /**
   * When all of s has been read but t has more, both texts are the same
   * text only if the rest of t is all spaces, and then t ends in a space.
   */
  lemma LeftoverDiffers(s: string, t: string, j: nat)
    requires j < |t| && Strip(s) == Strip(t[..j])
    ensures !SameText(s, t)
  {
    assert t == t[..j] + t[j..];
    StripAppend(t[..j], t[j..]);
    StripEmpty(t[j..]);
    if Strip(t[j..]) == [] {
      assert t[|t| - 1] == t[j..][|t| - 1 - j];
    }
  }

  /** Comparing texts is symmetric. */
  lemma SameTextSymmetric(s: string, t: string)
    ensures SameText(s, t) <==> SameText(t, s)
  {
  }

  /**
   * Spaces inside a text do not matter: a text that does not end in a
   * space compares equal to itself with an extra space inside.
   */
  lemma InnerSpaceIgnored(a: string, b: string)
    requires |b| > 0 && b[|b| - 1] != ' '
    ensures SameText(a + " " + b, a + b)
  {
    StripAppend(a + " ", b);
    StripAppend(a, " ");
    StripAppend(a, b);
    assert (a + " " + b)[|a + " " + b| - 1] == b[|b| - 1];
    assert (a + b)[|a + b| - 1] == b[|b| - 1];
  }

  // ------------------------------------------------------------ geometry

  /** The gap between the left edge of the fragment and the right edge of the previous one. */
  function Spacing(x: real, lastX: real, lastW: real): real
  {
    x - (lastX + lastW)
  }

  /**
   * The fragment sits on the same baseline as the previous one, after a
   * gap of less than three quarters of a space (an overlap of up to one
   * space is allowed).
   */
  predicate SameLine(y: real, lastY: real, spacing: real, space: real)
  {
    y == lastY && spacing > -space && spacing < 0.75 * space
  }

  /** One fragment's bottom edge lies within the vertical span of the other. */
  predicate VerticalOverlap(y: real, height: real, lastY: real, lastH: real)
  {
    (lastY + lastH >= y && lastY + lastH <= y + height) || (y + height >= lastY && y + height <= lastY + lastH)
  }

  /** The fragment overlaps the previous one vertically, after a gap of less than 2.4 spaces. */
  predicate NearLine(y: real, height: real, lastY: real, lastH: real, spacing: real, space: real)
  {
    VerticalOverlap(y, height, lastY, lastH) && spacing > -space && spacing < 2.4 * space
  }

  /** The fragment continues the previous one: it is appended to, or stitched onto, the pending block. */
  predicate Joins(y: real, height: real, lastY: real, lastH: real, spacing: real, space: real)
  {
    SameLine(y, lastY, spacing, space) || NearLine(y, height, lastY, lastH, spacing, space)
  }

  /** The fragment continues the previous one after a gap wide enough to stand for a space. */
  predicate PrependsSpace(y: real, height: real, lastY: real, lastH: real, spacing: real, space: real)
  {
    !SameLine(y, lastY, spacing, space) && NearLine(y, height, lastY, lastH, spacing, space) && spacing >= 0.75 * space
  }

  /** Vertical overlap does not depend on which fragment came first. */
  lemma VerticalOverlapSymmetric(y: real, height: real, lastY: real, lastH: real)
    ensures VerticalOverlap(y, height, lastY, lastH) <==> VerticalOverlap(lastY, lastH, y, height)
  {
  }

  /**
   * A space is only inserted into a fragment that joins, never on the same
   * line at the same baseline within three quarters of a space, and never
   * for a gap of less than three quarters of a space.
   */
  lemma SpaceOnlyWhenJoining(y: real, height: real, lastY: real, lastH: real, spacing: real, space: real)
    ensures PrependsSpace(y, height, lastY, lastH, spacing, space) ==> Joins(y, height, lastY, lastH, spacing, space)
    ensures PrependsSpace(y, height, lastY, lastH, spacing, space) ==> spacing >= 0.75 * space && !SameLine(y, lastY, spacing, space)
  {
  }

  /**
   * Fragments never join across a gap of 2.4 spaces or more, nor when the
   * space width is zero or negative (as when the font is unusable).
   */
  lemma FarFragmentsNeverJoin(y: real, height: real, lastY: real, lastH: real, spacing: real, space: real)
    requires space <= 0.0 || spacing >= 2.4 * space
    ensures !Joins(y, height, lastY, lastH, spacing, space)
  {
  }

  /** A fragment on the same baseline right after the previous one joins it, without a space. */
  lemma AdjacentFragmentsJoin(y: real, height: real, lastH: real, spacing: real, space: real)
    requires space > 0.0 && 0.0 <= spacing < 0.75 * space
    ensures Joins(y, height, y, lastH, spacing, space) && !PrependsSpace(y, height, y, lastH, spacing, space)
  {
  }

  // ------------------------------------------------------------ rectangles

  /** The rounded rectangle of a fragment. */
  function FragmentRect(x: real, y: real, width: real, height: real): Rect
  {
    Rect(Numeric.Round(x), Numeric.Round(y), Numeric.Round(width), Numeric.Round(height))
  }

  /**
   * The rectangle of a stitched fragment: it starts where the previous
   * fragment ended and keeps its own right edge, top and height.
   */
  function Stitched(rect: Rect, lastX: real, lastW: real): (r: Rect)
    ensures r.x == Numeric.Round(lastX) + Numeric.Round(lastW)
    ensures r.Right() == rect.Right() && r.y == rect.y && r.height == rect.height
  {
    var oldRight := rect.x + rect.width;
    var x := Numeric.Round(lastX) + Numeric.Round(lastW);
    Rect(x, rect.y, oldRight - x, rect.height)
  }

  /**
   * The overprint test: the fragment overlaps the previous fragment's
   * rectangle by more than half of its own surface, and its text is the
   * text of the pending block.
   */
  predicate Overprints(rect: Rect, lastRect: Rect, sameText: bool)
  {
    var (hit, inter) := rect.IsIntersecting(lastRect);
    hit && inter.Surface() as real > 0.5 * rect.Surface() as real && sameText
  }

  /** A fragment printed again at the very same place over the same text overprints. */
  lemma ReprintOverprints(rect: Rect)
    requires rect.width > 0 && rect.height > 0
    ensures Overprints(rect, rect, true)
  {
    var (hit, inter) := rect.IsIntersecting(rect);
    assert inter == rect;
    assert rect.Surface() > 0;
  }

  /** Fragments apart on either axis never overprint. */
  lemma ApartNeverOverprints(rect: Rect, lastRect: Rect, sameText: bool)
    requires rect.Right() <= lastRect.x || lastRect.Right() <= rect.x || rect.Bottom() <= lastRect.y || lastRect.Bottom() <= rect.y
    ensures !Overprints(rect, lastRect, sameText)
  {
    DisjointNeverIntersect(rect, lastRect);
  }
}
