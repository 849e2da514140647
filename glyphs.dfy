/** The two per-pixel passes of the glyph script and the driver that chains them:
    background removal turns near-background pixels transparent, and the silhouette
    pass turns every visible pixel opaque white and every invisible one transparent white. */
module Glyphs {
  import opened Rgba

  // ---------------------------------------------------------------------------
  // Background removal
  // ---------------------------------------------------------------------------

  /** Every colour channel of `p` lies within `tol` of the matching channel of `bg`. */
  predicate IsBackground(p: Pixel, bg: Background, tol: int) {
    Abs(p.r - bg.r) <= tol && Abs(p.g - bg.g) <= tol && Abs(p.b - bg.b) <= tol
  }

  /** The guard of the background-removal pass: a visible background pixel. */
  predicate TurnsTransparent(p: Pixel, bg: Background, tol: int) {
    IsBackground(p, bg, tol) && p.a != 0
  }

  /** What background removal makes of one pixel. */
  function ClearPixel(p: Pixel, bg: Background, tol: int): (q: Pixel)
    ensures SameColour(q, p)
    ensures q != p <==> TurnsTransparent(p, bg, tol)
    ensures q != p ==> q.a == 0
  {
    if TurnsTransparent(p, bg, tol) then Pixel(p.r, p.g, p.b, 0) else p
  }

  /** Background removal over a whole pixel sequence, one output pixel appended per
      input pixel, in order. */
  function BackgroundRemoved(s: seq<Pixel>, bg: Background, tol: int): (r: seq<Pixel>)
    ensures |r| == |s|
  {
    if s == [] then []
    else BackgroundRemoved(s[..|s| - 1], bg, tol) + [ClearPixel(s[|s| - 1], bg, tol)]
  }

  /** Position `i` of the result is the cleared pixel at position `i` of the input. */
  lemma {:induction false} BackgroundRemovedAt(s: seq<Pixel>, bg: Background, tol: int, i: nat)
    requires i < |s|
    ensures BackgroundRemoved(s, bg, tol)[i] == ClearPixel(s[i], bg, tol)
  {
    var n := |s| - 1;
    if i < n {
      BackgroundRemovedAt(s[..n], bg, tol, i);
    }
  }

  /** The pass loops over the pixels once and builds the output list. */
  method RemoveBackgroundToAlpha(datas: seq<Pixel>, bg: Background, tol: int) returns (out: seq<Pixel>)
    ensures out == BackgroundRemoved(datas, bg, tol)
  {
    out := [];
    for i := 0 to |datas|
      invariant out == BackgroundRemoved(datas[..i], bg, tol)
    {
      var p := datas[i];
      if IsBackground(p, bg, tol) && p.a != 0 {
        out := out + [Pixel(p.r, p.g, p.b, 0)];
      } else {
        out := out + [Pixel(p.r, p.g, p.b, p.a)];
      }
      assert datas[..i + 1][..i] == datas[..i];
    }
    assert datas[..|datas|] == datas;
  }

  /** Background removal never changes red, green or blue. */
  lemma {:induction false} BackgroundRemovedKeepsColour(s: seq<Pixel>, bg: Background, tol: int)
    ensures forall i :: 0 <= i < |s| ==> SameColour(BackgroundRemoved(s, bg, tol)[i], s[i])
  {
    forall i | 0 <= i < |s| ensures SameColour(BackgroundRemoved(s, bg, tol)[i], s[i]) {
      BackgroundRemovedAt(s, bg, tol, i);
    }
  }

  /** A pixel is changed exactly when it is a visible background pixel; it is then made
      fully transparent, and an output pixel is transparent exactly when its input was
      background or already transparent. A non-background pixel with partial alpha is
      copied verbatim, so it is not forced opaque. */
  lemma {:induction false} BackgroundRemovedClearsExactly(s: seq<Pixel>, bg: Background, tol: int, i: nat)
    requires i < |s|
    ensures BackgroundRemoved(s, bg, tol)[i] != s[i] <==> IsBackground(s[i], bg, tol) && s[i].a != 0
    ensures BackgroundRemoved(s, bg, tol)[i].a == 0 <==> IsBackground(s[i], bg, tol) || s[i].a == 0
    ensures !IsBackground(s[i], bg, tol) ==> BackgroundRemoved(s, bg, tol)[i] == s[i]
  {
    BackgroundRemovedAt(s, bg, tol, i);
  }

  /** Background removal never makes a pixel more visible: each output alpha is 0 or the
      input alpha, and a transparent pixel stays transparent. */
  lemma {:induction false} BackgroundRemovedNeverRaisesAlpha(s: seq<Pixel>, bg: Background, tol: int)
    ensures forall i :: 0 <= i < |s| ==>
      BackgroundRemoved(s, bg, tol)[i].a == 0 || BackgroundRemoved(s, bg, tol)[i].a == s[i].a
    ensures forall i :: 0 <= i < |s| && s[i].a == 0 ==> BackgroundRemoved(s, bg, tol)[i].a == 0
  {
    forall i | 0 <= i < |s|
      ensures BackgroundRemoved(s, bg, tol)[i].a == 0 || BackgroundRemoved(s, bg, tol)[i].a == s[i].a
    {
      BackgroundRemovedAt(s, bg, tol, i);
    }
  }

  /** A second background-removal pass changes nothing: every pixel the first pass
      changed already has alpha 0, so the guard fails on it. */
  lemma {:induction false} BackgroundRemovedIdempotent(s: seq<Pixel>, bg: Background, tol: int)
    ensures BackgroundRemoved(BackgroundRemoved(s, bg, tol), bg, tol) == BackgroundRemoved(s, bg, tol)
  {
    var once := BackgroundRemoved(s, bg, tol);
    var twice := BackgroundRemoved(once, bg, tol);
    forall i | 0 <= i < |s| ensures twice[i] == once[i] {
      BackgroundRemovedAt(s, bg, tol, i);
      BackgroundRemovedAt(once, bg, tol, i);
    }
  }

  /** With the default reference colour and tolerance, a pixel is background exactly when
      each of its colour channels is at least 243. */
  lemma DefaultBackgroundBand(p: Pixel)
    ensures IsBackground(p, DefaultBackground, DefaultTolerance) <==> p.r >= 243 && p.g >= 243 && p.b >= 243
  {
  }

  // ---------------------------------------------------------------------------
  // White silhouette
  // ---------------------------------------------------------------------------

  /** What the silhouette pass makes of one pixel. */
  function SilhouettePixel(p: Pixel): (q: Pixel)
    ensures q.r == 255 && q.g == 255 && q.b == 255
    ensures q.a == 0 || q.a == 255
    ensures q.a == 0 <==> p.a == 0
  {
    if p.a == 0 then TransparentWhite else OpaqueWhite
  }

  /** The silhouette pass over a whole pixel sequence, one output pixel appended per
      input pixel, in order. */
  function Silhouette(s: seq<Pixel>): (r: seq<Pixel>)
    ensures |r| == |s|
  {
    if s == [] then [] else Silhouette(s[..|s| - 1]) + [SilhouettePixel(s[|s| - 1])]
  }

  /** Position `i` of the result is the silhouette of the pixel at position `i`. */
  lemma {:induction false} SilhouetteAt(s: seq<Pixel>, i: nat)
    requires i < |s|
    ensures Silhouette(s)[i] == SilhouettePixel(s[i])
  {
    var n := |s| - 1;
    if i < n {
      SilhouetteAt(s[..n], i);
    }
  }

  /** The pass loops over the pixels once and builds the output list. */
  method ToWhiteSilhouette(datas: seq<Pixel>) returns (out: seq<Pixel>)
    ensures out == Silhouette(datas)
  {
    out := [];
    for i := 0 to |datas|
      invariant out == Silhouette(datas[..i])
    {
      var p := datas[i];
      if p.a == 0 {
        out := out + [Pixel(255, 255, 255, 0)];
      } else {
        out := out + [Pixel(255, 255, 255, 255)];
      }
      assert datas[..i + 1][..i] == datas[..i];
    }
    assert datas[..|datas|] == datas;
  }

  /** Every silhouette pixel is transparent white or opaque white, the first exactly
      where the input alpha is 0. */
  lemma {:induction false} SilhouetteTwoValued(s: seq<Pixel>)
    ensures forall i :: 0 <= i < |s| ==> Silhouette(s)[i] == TransparentWhite || Silhouette(s)[i] == OpaqueWhite
    ensures forall i :: 0 <= i < |s| ==> (Silhouette(s)[i] == TransparentWhite <==> s[i].a == 0)
  {
    forall i | 0 <= i < |s|
      ensures Silhouette(s)[i] == TransparentWhite || Silhouette(s)[i] == OpaqueWhite
      ensures Silhouette(s)[i] == TransparentWhite <==> s[i].a == 0
    {
      SilhouetteAt(s, i);
    }
  }

  /** The silhouette keeps the shape: the positions with alpha 0 are the same before
      and after. */
  lemma {:induction false} SilhouetteKeepsShape(s: seq<Pixel>)
    ensures forall i :: 0 <= i < |s| ==> (Silhouette(s)[i].a == 0 <==> s[i].a == 0)
  {
    forall i | 0 <= i < |s| ensures Silhouette(s)[i].a == 0 <==> s[i].a == 0 {
      SilhouetteAt(s, i);
    }
  }

  /** The silhouette depends only on which pixels have alpha 0, never on colour or on
      the size of a nonzero alpha. */
  lemma {:induction false} SilhouetteDependsOnlyOnShape(s: seq<Pixel>, t: seq<Pixel>)
    requires |s| == |t|
    requires forall i :: 0 <= i < |s| ==> (s[i].a == 0 <==> t[i].a == 0)
    ensures Silhouette(s) == Silhouette(t)
  {
    forall i | 0 <= i < |s| ensures Silhouette(s)[i] == Silhouette(t)[i] {
      SilhouetteAt(s, i);
      SilhouetteAt(t, i);
    }
  }

  /** A second silhouette pass changes nothing. */
  lemma {:induction false} SilhouetteIdempotent(s: seq<Pixel>)
    ensures Silhouette(Silhouette(s)) == Silhouette(s)
  {
    SilhouetteKeepsShape(s);
    SilhouetteDependsOnlyOnShape(Silhouette(s), s);
  }

  // ---------------------------------------------------------------------------
  // The driver: glyph, then white glyph
  // ---------------------------------------------------------------------------

  /** After both passes, a pixel is opaque white exactly when the source pixel was
      visible and not background, and transparent white otherwise. */
  lemma {:induction false} PipelineAt(s: seq<Pixel>, bg: Background, tol: int, i: nat)
    requires i < |s|
    ensures |Silhouette(BackgroundRemoved(s, bg, tol))| == |s|
    ensures Silhouette(BackgroundRemoved(s, bg, tol))[i] == OpaqueWhite <==> s[i].a != 0 && !IsBackground(s[i], bg, tol)
    ensures Silhouette(BackgroundRemoved(s, bg, tol))[i] == TransparentWhite <==> s[i].a == 0 || IsBackground(s[i], bg, tol)
  {
    BackgroundRemovedAt(s, bg, tol, i);
    SilhouetteAt(BackgroundRemoved(s, bg, tol), i);
  }

  /** The two derived images of one source image: the glyph (background removed with
      the default colour and tolerance) and the white glyph made from it. */
  method MakeGlyphs(base: seq<Pixel>) returns (glyph: seq<Pixel>, white: seq<Pixel>)
    ensures glyph == BackgroundRemoved(base, DefaultBackground, DefaultTolerance)
    ensures white == Silhouette(glyph)
    ensures |white| == |base|
    ensures forall i :: 0 <= i < |base| ==>
      (white[i] == OpaqueWhite <==> base[i].a != 0 && !IsBackground(base[i], DefaultBackground, DefaultTolerance))
    ensures forall i :: 0 <= i < |base| ==>
      (white[i] == TransparentWhite <==> base[i].a == 0 || IsBackground(base[i], DefaultBackground, DefaultTolerance))
  {
    glyph := RemoveBackgroundToAlpha(base, DefaultBackground, DefaultTolerance);
    white := ToWhiteSilhouette(glyph);
    forall i | 0 <= i < |base|
      ensures white[i] == OpaqueWhite <==> base[i].a != 0 && !IsBackground(base[i], DefaultBackground, DefaultTolerance)
      ensures white[i] == TransparentWhite <==> base[i].a == 0 || IsBackground(base[i], DefaultBackground, DefaultTolerance)
    {
      PipelineAt(base, DefaultBackground, DefaultTolerance, i);
    }
  }

  // ---------------------------------------------------------------------------
  // Worked examples
  // ---------------------------------------------------------------------------

  /** A white pixel and a dark pixel, both opaque: the white one is cleared, then the
      silhouette is transparent white followed by opaque white. */
  lemma ExampleWhiteAndDark()
    ensures BackgroundRemoved([Pixel(255, 255, 255, 255), Pixel(10, 20, 30, 255)], DefaultBackground, DefaultTolerance)
         == [Pixel(255, 255, 255, 0), Pixel(10, 20, 30, 255)]
    ensures Silhouette([Pixel(255, 255, 255, 0), Pixel(10, 20, 30, 255)]) == [TransparentWhite, OpaqueWhite]
  {
  }

  /** A near-white pixel that is already transparent passes background removal
      unchanged and becomes transparent white. */
  lemma ExampleTransparentNearWhite()
    ensures BackgroundRemoved([Pixel(250, 250, 250, 0)], DefaultBackground, DefaultTolerance) == [Pixel(250, 250, 250, 0)]
    ensures Silhouette([Pixel(250, 250, 250, 0)]) == [TransparentWhite]
  {
  }
}
