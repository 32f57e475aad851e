/**
 * Stroke geometry and the press/motion/release state machines of the brush
 * (src/tools/brush.c) and the eraser (src/tools/eraser.c).
 *
 * Coordinates are canvas coordinates as reals. The C code compares a
 * distance obtained with `sqrt`; the model never takes a square root and
 * states every distance fact on squared distances instead.
 */
module Stroke {

  datatype Point2 = Point2(x: real, y: real)

  function Sq(v: real): real { v * v }

  lemma SqNonNegative(v: real)
    ensures 0.0 <= v * v
  {
    if v < 0.0 {
      assert v * v == (-v) * (-v);
    }
  }

  /** Squared Euclidean distance between two canvas points. */
  function Dist2(a: Point2, b: Point2): (d: real)
    ensures 0.0 <= d
  {
    SqNonNegative(b.x - a.x);
    SqNonNegative(b.y - a.y);
    Sq(b.x - a.x) + Sq(b.y - a.y)
  }

  lemma SqMonotone(a: real, b: real)
    requires 0.0 <= a <= b
    ensures Sq(a) <= Sq(b)
  {
    assert a * a <= a * b;
    assert a * b <= b * b;
  }

  /** Squares of non-negative reals are ordered like the reals themselves. */
  lemma SqOrder(a: real, b: real)
    requires 0.0 <= a && 0.0 <= b && Sq(a) < Sq(b)
    ensures a < b
  {
    if b <= a {
      SqMonotone(b, a);
    }
  }

  lemma SqProduct(u: real, v: real)
    ensures Sq(u * v) == Sq(u) * Sq(v)
  {
  }

  lemma SqPositive(a: real)
    requires 0.0 < a
    ensures 0.0 < Sq(a)
  {
    calc {
      Sq(a);
      == a * a;
      > 0.0;
    }
  }

  lemma MulStrict(a: real, b: real, c: real)
    requires a < b && 0.0 < c
    ensures a * c < b * c
  {
  }

  lemma MulMono(a: real, b: real, c: real)
    requires a <= b && 0.0 <= c
    ensures a * c <= b * c
  {
  }

  lemma DivFacts(a: real, c: real)
    requires 0.0 < c
    ensures (a / c) * c == a
    ensures 0.0 <= a ==> 0.0 <= a / c
  {
  }

  /** Cancelling a positive factor on both sides of a strict inequality. */
  lemma CancelPositive(a: real, b: real, h: real)
    requires 0.0 < h && a * h < b * h
    ensures a < b
  {
    if b <= a {
      MulMono(b, a, h);
    }
  }

  /** Whole multiples of h are ordered like their squares. */
  lemma BracketOrder(d2: real, h: real, lo: nat, hi: nat)
    requires 0.0 < h && Sq(lo as real * h) <= d2 < Sq(hi as real * h)
    ensures lo < hi
  {
    MulMono(0.0, lo as real, h);
    MulMono(0.0, hi as real, h);
    SqOrder(lo as real * h, hi as real * h);
    CancelPositive(lo as real, hi as real, h);
  }

  /** A real multiplier of h^2 above d2 that is at least one has a square multiple of h above d2. */
  lemma AboveRatio(d2: real, h: real, br: real)
    requires 0.0 <= d2 && 0.0 < h && 1.0 <= br && d2 < br * Sq(h)
    ensures d2 < Sq(br * h)
  {
    var hh := Sq(h);
    SqPositive(h);
    MulStrict(0.0, br, hh);
    MulMono(1.0, br, br * hh);
    calc {
      Sq(br * h);
      == br * (br * hh);
    }
  }

  /** A whole number of half-radii whose square already exceeds `d2`. */
  function SearchBound(d2: real, h: real): (b: nat)
    requires 0.0 <= d2 && 0.0 < h
    ensures 1 <= b && d2 < Sq(b as real * h)
  {
    SqPositive(h);
    DivFacts(d2, Sq(h));
    var q := d2 / Sq(h);
    var b := q.Floor + 1;
    MulStrict(q, b as real, Sq(h));
    AboveRatio(d2, h, b as real);
    b
  }

  /**
   * The least n >= k with d2 < ((n + 1) h)^2, which is floor(sqrt(d2) / h)
   * when (k h)^2 <= d2: a bounded search standing in for the division and
   * the truncating cast of the C code.
   */
  function FloorRatioFrom(d2: real, h: real, k: nat, bound: nat): (n: nat)
    requires 0.0 < h
    requires Sq(k as real * h) <= d2 < Sq(bound as real * h)
    ensures k <= n < bound
    ensures Sq(n as real * h) <= d2 < Sq((n + 1) as real * h)
    decreases bound - k
  {
    BracketOrder(d2, h, k, bound);
    if d2 < Sq((k + 1) as real * h) then k
    else
      BracketOrder(d2, h, k + 1, bound);
      FloorRatioFrom(d2, h, k + 1, bound)
  }

  /** floor(sqrt(d2) / h) for h > 0. */
  function FloorRatio(d2: real, h: real): (n: nat)
    requires 0.0 <= d2 && 0.0 < h
    ensures Sq(n as real * h) <= d2 < Sq((n + 1) as real * h)
  {
    FloorRatioFrom(d2, h, 0, SearchBound(d2, h))
  }

  /**
   * `int steps = fmax(1, dist / (radius * 0.5))` for a segment whose squared
   * length is `d2`. The quotient is never negative, so the C truncation is
   * a floor, and the result is at least one.
   */
  function StepCount(d2: real, radius: real): (n: nat)
    requires 0.0 <= d2 && 0.0 < radius
    ensures 1 <= n
    ensures n == 1 || Sq(n as real * (radius * 0.5)) <= d2
    ensures d2 < Sq((n + 1) as real * (radius * 0.5))
  {
    var k := FloorRatio(d2, radius * 0.5);
    if k < 1 then 1 else k
  }

  /** Two whole numbers that both bracket the same ratio are equal. */
  lemma FloorRatioUnique(d2: real, h: real, m: nat, n: nat)
    requires 0.0 < h
    requires Sq(m as real * h) <= d2 < Sq((m + 1) as real * h)
    requires Sq(n as real * h) <= d2 < Sq((n + 1) as real * h)
    ensures m == n
  {
    if m < n {
      SqMonotone((m + 1) as real * h, n as real * h);
    } else if n < m {
      SqMonotone((n + 1) as real * h, m as real * h);
    }
  }

  lemma FloorRatioIs(d2: real, h: real, m: nat)
    requires 0.0 <= d2 && 0.0 < h
    requires Sq(m as real * h) <= d2 < Sq((m + 1) as real * h)
    ensures FloorRatio(d2, h) == m
  {
    var k := FloorRatio(d2, h);
    FloorRatioUnique(d2, h, k, m);
  }

  /**
   * StepCount is exactly max(1, floor(dist / (radius / 2))): given any whole
   * number m that brackets dist / (radius / 2), the step count is m, or one
   * when m is zero.
   */
  lemma StepCountIsClampedFloor(d2: real, radius: real, m: nat)
    requires 0.0 <= d2 && 0.0 < radius
    requires Sq(m as real * (radius * 0.5)) <= d2 < Sq((m + 1) as real * (radius * 0.5))
    ensures StepCount(d2, radius) == if m < 1 then 1 else m
  {
    FloorRatioIs(d2, radius * 0.5, m);
  }

  /** The point at parameter t on the segment from a to b. */
  function Lerp(a: Point2, b: Point2, t: real): Point2
  {
    Point2(a.x + (b.x - a.x) * t, a.y + (b.y - a.y) * t)
  }

  lemma LerpEnds(a: Point2, b: Point2, n: real)
    requires 0.0 < n
    ensures Lerp(a, b, 0.0 / n) == a && Lerp(a, b, n / n) == b
  {
    assert n / n == 1.0;
  }

  /** Two points of one segment lie |t - s| segment lengths apart. */
  lemma LerpDist2(a: Point2, b: Point2, s: real, t: real)
    ensures Dist2(Lerp(a, b, s), Lerp(a, b, t)) == Sq(t - s) * Dist2(a, b)
  {
    var p, q := Lerp(a, b, s), Lerp(a, b, t);
    assert q.x - p.x == (b.x - a.x) * (t - s);
    assert q.y - p.y == (b.y - a.y) * (t - s);
    SqProduct(b.x - a.x, t - s);
    SqProduct(b.y - a.y, t - s);
  }

  /**
   * The stamp centres of brush_line/erase_line from a to b: steps + 1
   * points at parameters i / steps for i = 0 .. steps.
   */
  function Line(a: Point2, b: Point2, radius: real): (c: seq<Point2>)
    requires 0.0 < radius
    ensures |c| == StepCount(Dist2(a, b), radius) + 1
    ensures c[0] == a && c[|c| - 1] == b
  {
    var n := StepCount(Dist2(a, b), radius);
    LerpEnds(a, b, n as real);
    seq(n + 1, i requires 0 <= i <= n => Lerp(a, b, i as real / n as real))
  }

  /** With n steps over a length below (n + 1) h, one step is shorter than 2 h. */
  lemma StepGap(d2: real, h: real, nr: real)
    requires 0.0 <= d2 && 0.0 < h && 1.0 <= nr
    requires d2 < Sq((nr + 1.0) * h)
    ensures Sq(1.0 / nr) * d2 < Sq(2.0 * h)
  {
    var u := 1.0 / nr;
    var top := (nr + 1.0) * h;
    SqPositive(u);
    MulStrict(d2, Sq(top), Sq(u));
    SqProduct(u, top);
    var w := u * top;
    assert w == (nr + 1.0) / nr * h;
    assert (nr + 1.0) / nr <= 2.0;
    MulMono((nr + 1.0) / nr, 2.0, h);
    MulMono(0.0, (nr + 1.0) / nr, h);
    SqMonotone(w, 2.0 * h);
  }

  lemma StepParameters(i: int, nr: real)
    requires 0.0 < nr
    ensures (i + 1) as real / nr - i as real / nr == 1.0 / nr
  {
  }

  /** Parameters i / n and (i + 1) / n lie one n-th of the segment apart. */
  lemma LerpStep(a: Point2, b: Point2, i: int, nr: real)
    requires 0.0 < nr
    ensures Dist2(Lerp(a, b, i as real / nr), Lerp(a, b, (i + 1) as real / nr)) == Sq(1.0 / nr) * Dist2(a, b)
  {
    StepParameters(i, nr);
    LerpDist2(a, b, i as real / nr, (i + 1) as real / nr);
  }

  /** StepGap in terms of the step count and the radius. */
  lemma StepGapRadius(d2: real, radius: real, n: nat)
    requires 0.0 <= d2 && 0.0 < radius && 1 <= n
    requires d2 < Sq((n + 1) as real * (radius * 0.5))
    ensures Sq(1.0 / n as real) * d2 < Sq(radius)
  {
    assert (n + 1) as real == n as real + 1.0;
    StepGap(d2, radius * 0.5, n as real);
    assert 2.0 * (radius * 0.5) == radius;
  }

  /** Centre j of a line is the point at parameter j / steps. */
  lemma LinePoint(a: Point2, b: Point2, radius: real, j: int)
    requires 0.0 < radius
    requires 0 <= j < |Line(a, b, radius)|
    ensures Line(a, b, radius)[j] == Lerp(a, b, j as real / StepCount(Dist2(a, b), radius) as real)
  {
  }

  /** Points at parameters j / n along ab lie one n-th of |ab| apart. */
  lemma EvenStep(c: seq<Point2>, a: Point2, b: Point2, n: nat, i: int)
    requires 1 <= n && |c| == n + 1 && 0 <= i < n
    requires c[i] == Lerp(a, b, i as real / n as real) && c[i + 1] == Lerp(a, b, (i + 1) as real / n as real)
    ensures Dist2(c[i], c[i + 1]) == Sq(1.0 / n as real) * Dist2(a, b)
  {
    LerpStep(a, b, i, n as real);
  }

  /** One step of the step count is shorter than one radius. */
  lemma StepBelowRadius(d2: real, radius: real)
    requires 0.0 <= d2 && 0.0 < radius
    ensures Sq(1.0 / StepCount(d2, radius) as real) * d2 < Sq(radius)
  {
    StepGapRadius(d2, radius, StepCount(d2, radius));
  }

  /** Consecutive centres of a line are one step, |ab| / steps, apart. */
  lemma LineStep(a: Point2, b: Point2, radius: real, i: int)
    requires 0.0 < radius
    requires 0 <= i < |Line(a, b, radius)| - 1
    ensures Dist2(Line(a, b, radius)[i], Line(a, b, radius)[i + 1]) == Sq(1.0 / StepCount(Dist2(a, b), radius) as real) * Dist2(a, b)
  {
    var c, n := Line(a, b, radius), StepCount(Dist2(a, b), radius);
    LinePoint(a, b, radius, i);
    LinePoint(a, b, radius, i + 1);
    EvenStep(c, a, b, n, i);
  }

  /**
   * Consecutive centres of a line are one step, |ab| / steps, apart, and so
   * closer than one radius.
   */
  lemma LineSpacing(a: Point2, b: Point2, radius: real, i: int)
    requires 0.0 < radius
    requires 0 <= i < |Line(a, b, radius)| - 1
    ensures Dist2(Line(a, b, radius)[i], Line(a, b, radius)[i + 1]) == Sq(1.0 / StepCount(Dist2(a, b), radius) as real) * Dist2(a, b)
    ensures Dist2(Line(a, b, radius)[i], Line(a, b, radius)[i + 1]) < Sq(radius)
  {
    StepBelowRadius(Dist2(a, b), radius);
    LineStep(a, b, radius, i);
  }

  /**
   * The spacing bound cannot be tightened to half a radius: with radius 2 a
   * segment of length 1.5 takes a single step, so its two stamps lie 1.5
   * apart.
   */
  lemma SpacingCanExceedHalfRadius()
    ensures var c := Line(Point2(0.0, 0.0), Point2(1.5, 0.0), 2.0);
            |c| == 2 && Dist2(c[0], c[1]) > Sq(2.0 * 0.5)
  {
    var d2 := Dist2(Point2(0.0, 0.0), Point2(1.5, 0.0));
    assert d2 == 2.25;
    StepCountIsClampedFloor(d2, 2.0, 1);
  }

  /** Some step parameter i / n lies within 1 / n of t, and at t itself when t is past the last step. */
  lemma NearestStep(t: real, n: nat) returns (i: nat)
    requires 1 <= n && 0.0 <= t <= 1.0
    ensures i <= n
    ensures Sq(t - i as real / n as real) <= Sq(1.0 / n as real)
  {
    var nr := n as real;
    var k := (t * nr).Floor;
    MulMono(0.0, t, nr);
    if k >= n {
      i := n;
      if t < 1.0 {
        MulStrict(t, 1.0, nr);
      }
      assert t == 1.0 && nr / nr == 1.0;
    } else {
      i := k;
      var s := i as real / nr;
      assert s * nr == i as real;
      assert i as real <= t * nr < i as real + 1.0;
      assert 0.0 <= t - s by {
        if t < s { MulStrict(t, s, nr); }
      }
      assert t - s < 1.0 / nr by {
        assert (t - s) * nr < 1.0;
        if 1.0 / nr <= t - s { MulMono(1.0 / nr, t - s, nr); }
      }
      SqMonotone(t - s, 1.0 / nr);
    }
  }

  /** The point at parameter t lies within one n-th of the segment of the point at parameter u. */
  lemma NearPoint(a: Point2, b: Point2, t: real, u: real, nr: real)
    requires 0.0 < nr && Sq(t - u) <= Sq(1.0 / nr)
    ensures Dist2(Lerp(a, b, t), Lerp(a, b, u)) <= Sq(1.0 / nr) * Dist2(a, b)
  {
    LerpDist2(a, b, t, u);
    assert Sq(u - t) == Sq(t - u);
    MulMono(Sq(u - t), Sq(1.0 / nr), Dist2(a, b));
  }

  /** With n steps, every point of the segment lies within one radius of some step point. */
  lemma StepCovers(a: Point2, b: Point2, radius: real, n: nat, t: real) returns (i: nat)
    requires 0.0 < radius && 1 <= n && 0.0 <= t <= 1.0
    requires Dist2(a, b) < Sq((n + 1) as real * (radius * 0.5))
    ensures i <= n
    ensures Dist2(Lerp(a, b, t), Lerp(a, b, i as real / n as real)) < Sq(radius)
  {
    i := NearestStep(t, n);
    var u := i as real / n as real;
    NearPoint(a, b, t, u, n as real);
    StepGapRadius(Dist2(a, b), radius, n);
    LeLt(Dist2(Lerp(a, b, t), Lerp(a, b, u)), Sq(1.0 / n as real) * Dist2(a, b), Sq(radius));
  }

  /**
   * The stamps of a line leave no gap: every point of the segment lies
   * strictly inside the disc around some stamp centre.
   */
  lemma LineCoversSegment(a: Point2, b: Point2, radius: real, t: real) returns (i: nat)
    requires 0.0 < radius && 0.0 <= t <= 1.0
    ensures i < |Line(a, b, radius)|
    ensures Dist2(Lerp(a, b, t), Line(a, b, radius)[i]) < Sq(radius)
  {
    var n := StepCount(Dist2(a, b), radius);
    i := StepCovers(a, b, radius, n, t);
  }

  lemma LeLt(x: real, m: real, r: real)
    requires x <= m < r
    ensures x < r
  {
  }

  // ---------------------------------------------------------------------
  // Press / motion / release
  // ---------------------------------------------------------------------

  /** CAIRO_OPERATOR_OVER for the brush, CAIRO_OPERATOR_CLEAR for the eraser. */
  datatype Op = Over | Clear

  /** One filled disc: brush_point or erase_point. */
  datatype Stamp = Stamp(op: Op, centre: Point2, radius: real)

  /** The per-tool static globals: the drawing flag and the last pointer position. */
  datatype StrokeState = StrokeState(drawing: bool, last: Point2)

  /** Static storage starts zeroed: not drawing, last point at the origin. */
  const Idle := StrokeState(false, Point2(0.0, 0.0))

  /** A handler's effect: the tool's next state and the discs it stamps, in order. */
  datatype Reaction = Reaction(state: StrokeState, stamps: seq<Stamp>)

  /** Every pair of consecutive stamps overlaps: their centres are closer than one radius. */
  predicate Chained(s: seq<Stamp>, radius: real)
  {
    forall i :: 0 <= i < |s| - 1 ==> Dist2(s[i].centre, s[i + 1].centre) < Sq(radius)
  }

  /** The discs brush_line/erase_line stamps from a to b. */
  function StampsAlong(op: Op, a: Point2, b: Point2, radius: real): (s: seq<Stamp>)
    requires 0.0 < radius
    ensures 2 <= |s|
    ensures s[0] == Stamp(op, a, radius) && s[|s| - 1] == Stamp(op, b, radius)
    ensures forall i :: 0 <= i < |s| ==> s[i].op == op && s[i].radius == radius
    ensures |s| == |Line(a, b, radius)| && forall i :: 0 <= i < |s| ==> s[i].centre == Line(a, b, radius)[i]
    ensures Chained(s, radius)
  {
    var c := Line(a, b, radius);
    var s := seq(|c|, i requires 0 <= i < |c| => Stamp(op, c[i], radius));
    forall i | 0 <= i < |s| - 1
      ensures Dist2(s[i].centre, s[i + 1].centre) < Sq(radius)
    {
      LineSpacing(a, b, radius, i);
    }
    s
  }

  /** on_button_press of the brush: start drawing at p and stamp p. */
  function BrushPress(st: StrokeState, p: Point2, radius: real): (x: Reaction)
    ensures x.state.drawing && x.state.last == p
    ensures x.stamps == [Stamp(Over, p, radius)]
  {
    Reaction(StrokeState(true, p), [Stamp(Over, p, radius)])
  }

  /** on_button_press of the eraser: start erasing and stamp p, but keep the old last point. */
  function EraserPress(st: StrokeState, p: Point2, radius: real): (x: Reaction)
    ensures x.state.drawing && x.state.last == st.last
    ensures x.stamps == [Stamp(Clear, p, radius)]
  {
    Reaction(StrokeState(true, st.last), [Stamp(Clear, p, radius)])
  }

  /**
   * on_motion, identical for both tools: while drawing, stamp the line from
   * the last point to p; in every case remember p.
   */
  function Motion(op: Op, st: StrokeState, p: Point2, radius: real): (x: Reaction)
    requires 0.0 < radius
    ensures x.state.drawing == st.drawing && x.state.last == p
    ensures |x.stamps| > 0 <==> st.drawing
    ensures st.drawing ==> x.stamps[0].centre == st.last && x.stamps[|x.stamps| - 1].centre == p
    ensures forall i :: 0 <= i < |x.stamps| ==> x.stamps[i].op == op && x.stamps[i].radius == radius
    ensures st.drawing ==> |x.stamps| == |Line(st.last, p, radius)| &&
                           forall i :: 0 <= i < |x.stamps| ==> x.stamps[i].centre == Line(st.last, p, radius)[i]
    ensures Chained(x.stamps, radius)
  {
    Reaction(StrokeState(st.drawing, p), if st.drawing then StampsAlong(op, st.last, p, radius) else [])
  }

  /** on_button_release, identical for both tools: stop drawing, keep the last point. */
  function Release(st: StrokeState): (x: Reaction)
    ensures !x.state.drawing && x.state.last == st.last && x.stamps == []
  {
    Reaction(StrokeState(false, st.last), [])
  }

  /** Motion events through `moves`, in order, with the stamps concatenated. */
  function Moves(op: Op, st: StrokeState, moves: seq<Point2>, radius: real): (x: Reaction)
    requires 0.0 < radius
    decreases |moves|
  {
    if moves == [] then Reaction(st, [])
    else
      var m := Motion(op, st, moves[0], radius);
      var rest := Moves(op, m.state, moves[1..], radius);
      Reaction(rest.state, m.stamps + rest.stamps)
  }

  /** Joining two chains whose facing ends overlap gives a chain. */
  lemma ChainedAppend(s: seq<Stamp>, t: seq<Stamp>, radius: real)
    requires Chained(s, radius) && Chained(t, radius)
    requires |s| > 0 && |t| > 0 ==> Dist2(s[|s| - 1].centre, t[0].centre) < Sq(radius)
    ensures Chained(s + t, radius)
  {
    var u := s + t;
    forall i | 0 <= i < |u| - 1
      ensures Dist2(u[i].centre, u[i + 1].centre) < Sq(radius)
    {
      if i < |s| - 1 {
        assert u[i] == s[i] && u[i + 1] == s[i + 1];
      } else if i == |s| - 1 {
        assert u[i] == s[|s| - 1] && u[i + 1] == t[0];
      } else {
        assert u[i] == t[i - |s|] && u[i + 1] == t[i + 1 - |s|];
      }
    }
  }

  lemma Dist2Self(p: Point2, radius: real)
    requires 0.0 < radius
    ensures Dist2(p, p) < Sq(radius)
  {
    SqPositive(radius);
  }

  /**
   * A chain that starts and ends on given points can be spliced between a
   * disc at its start and a chain that begins with a disc at its end.
   */
  lemma Splice(op: Op, p: Point2, ms: seq<Stamp>, q: Point2, rs: seq<Stamp>, radius: real)
    requires 0.0 < radius && 0 < |ms|
    requires Chained(ms, radius) && ms[0].centre == p && ms[|ms| - 1].centre == q
    requires Chained([Stamp(op, q, radius)] + rs, radius)
    ensures Chained([Stamp(op, p, radius)] + (ms + rs), radius)
  {
    var head := [Stamp(op, p, radius)];
    var tail := [Stamp(op, q, radius)] + rs;
    Dist2Self(p, radius);
    Dist2Self(q, radius);
    ChainedAppend(head, ms, radius);
    assert Chained(rs, radius) by {
      forall i | 0 <= i < |rs| - 1
        ensures Dist2(rs[i].centre, rs[i + 1].centre) < Sq(radius)
      {
        assert rs[i] == tail[i + 1] && rs[i + 1] == tail[i + 2];
      }
    }
    if 0 < |rs| {
      assert rs[0] == tail[1];
      assert Dist2(tail[0].centre, tail[1].centre) < Sq(radius);
      assert (head + ms)[|head + ms| - 1] == ms[|ms| - 1];
    }
    ChainedAppend(head + ms, rs, radius);
    assert head + (ms + rs) == (head + ms) + rs;
  }

  /**
   * While drawing, a run of motion events stamps a chain that continues a
   * disc at the last point without a gap, and leaves the tool drawing at
   * the final pointer position.
   */
  lemma {:induction false} MovesChained(op: Op, st: StrokeState, moves: seq<Point2>, radius: real)
    requires 0.0 < radius && st.drawing
    ensures var x := Moves(op, st, moves, radius);
            x.state.drawing
            && x.state.last == (if moves == [] then st.last else moves[|moves| - 1])
            && Chained([Stamp(op, st.last, radius)] + x.stamps, radius)
    decreases |moves|
  {
    if moves == [] {
      assert [Stamp(op, st.last, radius)] + [] == [Stamp(op, st.last, radius)];
    } else {
      var m := Motion(op, st, moves[0], radius);
      var rest := Moves(op, m.state, moves[1..], radius);
      MovesChained(op, m.state, moves[1..], radius);
      Splice(op, st.last, m.stamps, moves[0], rest.stamps, radius);
      if moves[1..] != [] {
        assert moves[1..][|moves[1..]| - 1] == moves[|moves| - 1];
      }
    }
  }

  /**
   * A brush drag leaves no gap: the press disc followed by the discs of
   * every later motion event form one chain, ending at the last pointer
   * position, whatever the state before the press.
   */
  lemma BrushDragIsChained(st: StrokeState, a: Point2, moves: seq<Point2>, radius: real)
    requires 0.0 < radius
    ensures var p := BrushPress(st, a, radius);
            var x := Moves(Over, p.state, moves, radius);
            Chained(p.stamps + x.stamps, radius)
            && x.state.last == (if moves == [] then a else moves[|moves| - 1])
  {
    MovesChained(Over, BrushPress(st, a, radius).state, moves, radius);
  }

  /**
   * The eraser does not record the press position: its first motion after a
   * press stamps the line from the point remembered before the press, not
   * from the press position.
   */
  lemma EraserMotionStartsAtPreviousPoint(st: StrokeState, a: Point2, b: Point2, radius: real)
    requires 0.0 < radius
    ensures var p := EraserPress(st, a, radius);
            var m := Motion(Clear, p.state, b, radius);
            p.stamps[0].centre == a && m.stamps[0].centre == st.last
  {
  }

  /** Motion while not drawing only tracks the pointer, for either tool. */
  lemma HoverOnlyTracks(op: Op, st: StrokeState, moves: seq<Point2>, radius: real)
    requires 0.0 < radius && !st.drawing
    ensures var x := Moves(op, st, moves, radius);
            x.stamps == [] && !x.state.drawing
            && x.state.last == (if moves == [] then st.last else moves[|moves| - 1])
    decreases |moves|
  {
    if moves != [] {
      HoverOnlyTracks(op, Motion(op, st, moves[0], radius).state, moves[1..], radius);
      if moves[1..] != [] {
        assert moves[1..][|moves[1..]| - 1] == moves[|moves| - 1];
      }
    }
  }

  /** After a release, nothing is stamped until the next press. */
  lemma ReleaseEndsStroke(op: Op, st: StrokeState, moves: seq<Point2>, radius: real)
    requires 0.0 < radius
    ensures Moves(op, Release(st).state, moves, radius).stamps == []
  {
    HoverOnlyTracks(op, Release(st).state, moves, radius);
  }
}
