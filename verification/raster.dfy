/**
 * Rasterising the discs of the brush and the eraser onto a layer surface
 * (brush_point in src/tools/brush.c, erase_point in src/tools/eraser.c).
 *
 * cairo fills each disc with anti-aliasing, so an edge pixel receives a
 * blend weighted by the part of it the disc covers. The model decides the
 * pixels a disc covers completely, where no weighting is involved, and
 * leaves every other pixel as it was.
 */
module Raster {
  import opened Pixels
  import opened Stroke

  /** All four corners of the unit square of pixel (x, y) lie in the closed disc, so the disc covers the pixel. */
  predicate FullyCovered(x: int, y: int, d: Stamp)
  {
    var X, Y, r2 := x as real, y as real, Sq(d.radius);
    && Dist2(Point2(X, Y), d.centre) <= r2
    && Dist2(Point2(X + 1.0, Y), d.centre) <= r2
    && Dist2(Point2(X, Y + 1.0), d.centre) <= r2
    && Dist2(Point2(X + 1.0, Y + 1.0), d.centre) <= r2
  }

  /**
   * What a disc leaves on a pixel it covers: CAIRO_OPERATOR_OVER with an
   * opaque colour replaces the pixel by that colour, CAIRO_OPERATOR_CLEAR
   * makes it transparent.
   */
  function Ink(op: Op, colour: Pixel): Pixel
  {
    match op
    case Over => colour
    case Clear => Transparent
  }

  /** The value pixel (x, y) holds after one disc, given its value p before. */
  function Stamped(p: Pixel, x: int, y: int, d: Stamp, colour: Pixel): Pixel
  {
    if FullyCovered(x, y, d) then Ink(d.op, colour) else p
  }

  /** The value pixel (x, y) holds after the discs in order, given its value p before. */
  function PixelAfter(p: Pixel, x: int, y: int, stamps: seq<Stamp>, colour: Pixel): Pixel
    decreases |stamps|
  {
    if stamps == [] then p
    else Stamped(PixelAfter(p, x, y, stamps[..|stamps| - 1], colour), x, y, stamps[|stamps| - 1], colour)
  }

  /** Some disc of the sequence covers pixel (x, y). */
  predicate CoveredByAny(x: int, y: int, stamps: seq<Stamp>)
  {
    exists i :: 0 <= i < |stamps| && FullyCovered(x, y, stamps[i])
  }

  /**
   * Discs of a single operator: a pixel ends up with that operator's ink
   * exactly when at least one disc covers it, and keeps its value
   * otherwise. For the eraser this says a drag clears precisely the pixels
   * some disc of it covers.
   */
  lemma {:induction false} UniformStamps(p: Pixel, x: int, y: int, stamps: seq<Stamp>, op: Op, colour: Pixel)
    requires forall i :: 0 <= i < |stamps| ==> stamps[i].op == op
    ensures PixelAfter(p, x, y, stamps, colour) == if CoveredByAny(x, y, stamps) then Ink(op, colour) else p
    decreases |stamps|
  {
    if stamps != [] {
      var front := stamps[..|stamps| - 1];
      var d := stamps[|stamps| - 1];
      UniformStamps(p, x, y, front, op, colour);
      if CoveredByAny(x, y, front) {
        var i :| 0 <= i < |front| && FullyCovered(x, y, front[i]);
        assert stamps[i] == front[i];
      } else if !FullyCovered(x, y, d) {
        forall i | 0 <= i < |stamps|
          ensures !FullyCovered(x, y, stamps[i])
        {
          if i < |front| {
            assert stamps[i] == front[i];
          }
        }
      }
    }
  }

  /** A pixel no disc covers keeps its value, whatever the operators. */
  lemma {:induction false} UncoveredUnchanged(p: Pixel, x: int, y: int, stamps: seq<Stamp>, colour: Pixel)
    requires !CoveredByAny(x, y, stamps)
    ensures PixelAfter(p, x, y, stamps, colour) == p
    decreases |stamps|
  {
    if stamps != [] {
      var front := stamps[..|stamps| - 1];
      forall i | 0 <= i < |front|
        ensures !FullyCovered(x, y, front[i])
      {
        assert front[i] == stamps[i];
      }
      UncoveredUnchanged(p, x, y, front, colour);
      assert !FullyCovered(x, y, stamps[|stamps| - 1]);
    }
  }

  /** The last disc covering a pixel decides its value: later uncovering discs leave it alone. */
  lemma LastCoverDecides(p: Pixel, x: int, y: int, stamps: seq<Stamp>, k: int, colour: Pixel)
    requires 0 <= k < |stamps| && FullyCovered(x, y, stamps[k])
    requires !CoveredByAny(x, y, stamps[k + 1..])
    ensures PixelAfter(p, x, y, stamps, colour) == Ink(stamps[k].op, colour)
  {
    var head := stamps[..k + 1];
    var tail := stamps[k + 1..];
    assert head[..|head| - 1] == stamps[..k];
    assert PixelAfter(p, x, y, head, colour) == Ink(stamps[k].op, colour);
    PixelAfterSplit(p, x, y, head, tail, colour);
    assert head + tail == stamps;
    UncoveredUnchanged(PixelAfter(p, x, y, head, colour), x, y, tail, colour);
  }

  /** Applying two runs of discs one after the other is applying their concatenation. */
  lemma {:induction false} PixelAfterSplit(p: Pixel, x: int, y: int, s: seq<Stamp>, t: seq<Stamp>, colour: Pixel)
    ensures PixelAfter(p, x, y, s + t, colour) == PixelAfter(PixelAfter(p, x, y, s, colour), x, y, t, colour)
    decreases |t|
  {
    if t == [] {
      assert s + t == s;
    } else {
      var u := s + t;
      assert u[..|u| - 1] == s + t[..|t| - 1];
      assert u[|u| - 1] == t[|t| - 1];
      PixelAfterSplit(p, x, y, s, t[..|t| - 1], colour);
    }
  }

  /** brush_point / erase_point: fill one disc on the surface. */
  method PaintDisc(s: Surface, d: Stamp, colour: Pixel) returns (t: Surface)
    requires Valid(s)
    requires d.op == Over ==> colour.a == 255
    ensures SameShape(t, s)
    ensures forall x, y :: InBounds(s, x, y) ==> GetPixel(t, x, y) == Stamped(GetPixel(s, x, y), x, y, d, colour)
  {
    t := s;
    var y := 0;
    while y < s.height
      invariant 0 <= y <= s.height
      invariant SameShape(t, s)
      invariant forall x', y' :: InBounds(s, x', y') ==>
                  GetPixel(t, x', y') == if y' < y then Stamped(GetPixel(s, x', y'), x', y', d, colour) else GetPixel(s, x', y')
    {
      var x := 0;
      while x < s.width
        invariant 0 <= x <= s.width
        invariant SameShape(t, s)
        invariant forall x', y' :: InBounds(s, x', y') ==>
                    GetPixel(t, x', y') == if y' < y || (y' == y && x' < x) then Stamped(GetPixel(s, x', y'), x', y', d, colour) else GetPixel(s, x', y')
      {
        if FullyCovered(x, y, d) {
          var ink := Ink(d.op, colour);
          forall x', y' | InBounds(s, x', y')
            ensures GetPixel(SetPixel(t, x, y, ink), x', y') == if (x', y') == (x, y) then ink else GetPixel(t, x', y')
          {
            GetAfterSet(t, x, y, ink, x', y');
          }
          t := SetPixel(t, x, y, ink);
        }
        x := x + 1;
      }
      y := y + 1;
    }
  }

  /** Fill a run of discs in order, as a stroke's press or motion handler does. */
  method PaintStamps(s: Surface, stamps: seq<Stamp>, colour: Pixel) returns (t: Surface)
    requires Valid(s)
    requires forall i :: 0 <= i < |stamps| && stamps[i].op == Over ==> colour.a == 255
    ensures SameShape(t, s)
    ensures forall x, y :: InBounds(s, x, y) ==> GetPixel(t, x, y) == PixelAfter(GetPixel(s, x, y), x, y, stamps, colour)
  {
    t := s;
    var k := 0;
    while k < |stamps|
      invariant 0 <= k <= |stamps|
      invariant SameShape(t, s)
      invariant forall x, y :: InBounds(s, x, y) ==> GetPixel(t, x, y) == PixelAfter(GetPixel(s, x, y), x, y, stamps[..k], colour)
    {
      var t' := PaintDisc(t, stamps[k], colour);
      assert stamps[..k + 1][..k] == stamps[..k];
      t := t';
      k := k + 1;
    }
    assert stamps[..|stamps|] == stamps;
  }
}
