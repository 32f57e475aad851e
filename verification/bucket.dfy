/**
 * The bucket tool of src/tools/bucket_tool.c: a stack-based 4-connected
 * flood fill that overwrites every pixel reachable from the start pixel
 * through pixels whose ORIGINAL colour is within 10 per channel of the
 * original start colour.
 */
module Bucket {
  import opened Pixels

  datatype Point = Point(x: int, y: int)

  /** Per-channel tolerance used when deciding whether a pixel joins the region. */
  const Tolerance := 10

  predicate Inside(s: Surface, p: Point) {
    InBounds(s, p.x, p.y)
  }

  function At(s: Surface, p: Point): Pixel
    requires Valid(s) && Inside(s, p)
  {
    GetPixel(s, p.x, p.y)
  }

  /** 4-adjacency: one step left, right, up or down. */
  predicate Adjacent(p: Point, q: Point) {
    Abs(p.x - q.x) + Abs(p.y - q.y) == 1
  }

  /** `p` is in bounds and its colour in `s` is within tolerance of `target`. */
  ghost predicate Matches(s: Surface, target: Pixel, p: Point) {
    Valid(s) && Inside(s, p) && ColorsEqual(At(s, p), target, Tolerance)
  }

  /** A chain of 4-adjacent pixels of `s` that all match `target`. */
  ghost predicate IsFillPath(s: Surface, target: Pixel, path: seq<Point>) {
    && |path| > 0
    && (forall i :: 0 <= i < |path| ==> Matches(s, target, path[i]))
    && (forall i :: 0 <= i < |path| - 1 ==> Adjacent(path[i], path[i + 1]))
  }

  /** `p` is 4-connected to `start` through pixels whose colour in `s` is
      within tolerance of the colour of `start` in `s`. */
  ghost predicate InRegion(s: Surface, start: Point, p: Point) {
    && Valid(s) && Inside(s, start)
    && exists path :: IsFillPath(s, At(s, start), path) && path[0] == start && path[|path| - 1] == p
  }

  /** No pixel adjacent to a member of `set` and matching `target` lies outside it. */
  ghost predicate Closed(s: Surface, target: Pixel, region: set<Point>) {
    forall q, n :: q in region && Adjacent(q, n) && Matches(s, target, n) ==> n in region
  }

  lemma ExtendPath(s: Surface, target: Pixel, path: seq<Point>, p: Point)
    requires IsFillPath(s, target, path) && Matches(s, target, p) && Adjacent(path[|path| - 1], p)
    ensures IsFillPath(s, target, path + [p])
  {
  }

  /** A fill path that starts inside a closed set never leaves it. */
  lemma {:induction false} PathStaysInClosedSet(s: Surface, target: Pixel, region: set<Point>, path: seq<Point>)
    requires IsFillPath(s, target, path) && path[0] in region && Closed(s, target, region)
    ensures path[|path| - 1] in region
  {
    if |path| > 1 {
      var prefix := path[..|path| - 1];
      assert IsFillPath(s, target, prefix) by {
        forall i | 0 <= i < |prefix| - 1 ensures Adjacent(prefix[i], prefix[i + 1]) {
          assert prefix[i] == path[i] && prefix[i + 1] == path[i + 1];
        }
      }
      PathStaysInClosedSet(s, target, region, prefix);
      assert Adjacent(path[|path| - 2], path[|path| - 1]);
      assert Matches(s, target, path[|path| - 1]);
    }
  }

  /** The pixels (0, y) .. (w-1, y) of one row. */
  ghost function Row(w: int, y: int): set<Point>
    decreases w
  {
    if w <= 0 then {} else Row(w - 1, y) + {Point(w - 1, y)}
  }

  /** Every pixel coordinate of a w x h grid, row by row. */
  ghost function Grid(w: int, h: int): set<Point>
    decreases h
  {
    if h <= 0 then {} else Grid(w, h - 1) + Row(w, h - 1)
  }

  lemma {:induction false} RowMembers(w: int, y: int)
    ensures forall p :: p in Row(w, y) <==> 0 <= p.x < w && p.y == y
    decreases w
  {
    if w > 0 {
      RowMembers(w - 1, y);
    }
  }

  lemma {:induction false} RowSize(w: nat, y: int)
    ensures |Row(w, y)| == w
  {
    if w > 0 {
      RowSize(w - 1, y);
      RowMembers(w - 1, y);
      assert Point(w - 1, y) !in Row(w - 1, y);
    }
  }

  lemma {:induction false} GridMembers(w: int, h: int)
    ensures forall p :: p in Grid(w, h) <==> 0 <= p.x < w && 0 <= p.y < h
    decreases h
  {
    if h > 0 {
      GridMembers(w, h - 1);
      RowMembers(w, h - 1);
    }
  }

  lemma DisjointUnionSize<T>(a: set<T>, b: set<T>)
    requires a !! b
    ensures |a + b| == |a| + |b|
  {
    assert a * b == {};
  }

  lemma GridRowDisjoint(w: int, h: int)
    ensures Grid(w, h) !! Row(w, h)
  {
    GridMembers(w, h);
    RowMembers(w, h);
  }

  /** A w x h grid has w*h points. */
  lemma {:induction false} GridSize(w: nat, h: nat)
    ensures |Grid(w, h)| == w * h
  {
    if h == 0 {
      assert Grid(w, h) == {};
    } else {
      var g, r := Grid(w, h - 1), Row(w, h - 1);
      assert Grid(w, h) == g + r;
      assert |g + r| == |g| + |r| by {
        GridRowDisjoint(w, h - 1);
        DisjointUnionSize(g, r);
      }
      assert |g| == w * (h - 1) by { GridSize(w, h - 1); }
      assert |r| == w by { RowSize(w, h - 1); }
      assert w * h == w * (h - 1) + w;
    }
  }

  lemma SubsetSize<T>(a: set<T>, b: set<T>)
    requires a <= b
    ensures |a| <= |b|
  {
    assert b == a + (b - a);
  }

  /** Position of pixel p in the `visited` array: p.y * width + p.x. */
  function Index(s: Surface, p: Point): int {
    p.y * s.width + p.x
  }

  lemma IndexInRange(s: Surface, p: Point)
    requires Valid(s) && Inside(s, p)
    ensures 0 <= Index(s, p) < s.width * s.height
  {
    MulMonotone(p.y, p.y, s.width);
    MulMonotone(p.y + 1, s.height, s.width);
    assert (p.y + 1) * s.width == p.y * s.width + s.width;
    assert p.y * s.width == s.width * p.y;
  }

  /** Distinct in-bounds pixels have distinct indices. */
  lemma IndexInjective(s: Surface, p: Point, q: Point)
    requires Valid(s) && Inside(s, p) && Inside(s, q) && p != q
    ensures Index(s, p) != Index(s, q)
  {
    if p.y < q.y {
      assert (p.y + 1) * s.width == p.y * s.width + s.width;
      MulMonotone(p.y + 1, q.y, s.width);
    } else if q.y < p.y {
      assert (q.y + 1) * s.width == q.y * s.width + s.width;
      MulMonotone(q.y + 1, p.y, s.width);
    }
  }

  /** The number of worklist entries the C code allocates: width*height. */
  function SourceStackSlots(s: Surface): int {
    s.width * s.height
  }

  /** The deepest the worklist can grow: the start entry plus three net
      entries for every pixel filled (each fill pops one and pushes four). */
  function StackCapacity(s: Surface): int {
    1 + 3 * (s.width * s.height)
  }

  /** The four neighbours in the order the C code pushes them. */
  function Neighbours(p: Point): seq<Point> {
    [Point(p.x + 1, p.y), Point(p.x - 1, p.y), Point(p.x, p.y + 1), Point(p.x, p.y - 1)]
  }

  // The loop invariant of FloodFill, one concern per predicate.

  /** `visited` has one flag per pixel, set exactly for the pixels in `filled`. */
  ghost predicate VisitedMirrors(s: Surface, visited: seq<bool>, filled: set<Point>) {
    && Valid(s)
    && |visited| == s.width * s.height
    && (forall p :: p in filled ==> Inside(s, p))
    && (forall p :: Inside(s, p) ==> 0 <= Index(s, p) < |visited| && (visited[Index(s, p)] <==> p in filled))
  }

  /** Every filled pixel has a fill path from the start. */
  ghost predicate Witnessed(s: Surface, start: Point, target: Pixel, filled: set<Point>, paths: map<Point, seq<Point>>) {
    && paths.Keys == filled
    && forall q :: q in filled ==>
      IsFillPath(s, target, paths[q]) && paths[q][0] == start && paths[q][|paths[q]| - 1] == q
  }

  /** Filled pixels hold `fill`; every other pixel holds its original colour. */
  ghost predicate Painted(s: Surface, r: Surface, fill: Pixel, filled: set<Point>) {
    && SameShape(r, s)
    && forall p :: Inside(s, p) ==> At(r, p) == if p in filled then fill else At(s, p)
  }

  /** Every worklist entry is the start or a neighbour of a filled pixel. */
  ghost predicate Pushed(start: Point, stack: seq<Point>, pushedBy: seq<Point>, filled: set<Point>) {
    && |pushedBy| == |stack|
    && forall i :: 0 <= i < |stack| ==>
      stack[i] == start || (pushedBy[i] in filled && Adjacent(pushedBy[i], stack[i]))
  }

  /** Every matching neighbour of a filled pixel is filled or still waiting. */
  ghost predicate Frontier(s: Surface, start: Point, target: Pixel, stack: seq<Point>, filled: set<Point>) {
    && (start in stack || start in filled)
    && forall q, n :: q in filled && Adjacent(q, n) ==> n in stack || n in filled || !Matches(s, target, n)
  }

  ghost predicate FillInv(s: Surface, start: Point, target: Pixel, fill: Pixel, r: Surface, visited: seq<bool>,
                          stack: seq<Point>, pushedBy: seq<Point>, filled: set<Point>, paths: map<Point, seq<Point>>, peak: int)
  {
    && Valid(s) && Inside(s, start) && target == At(s, start)
    && VisitedMirrors(s, visited, filled)
    && Witnessed(s, start, target, filled, paths)
    && Painted(s, r, fill, filled)
    && Pushed(start, stack, pushedBy, filled)
    && Frontier(s, start, target, stack, filled)
    && |stack| <= peak <= 1 + 3 * |filled|
    && (filled != {} ==> peak >= 4)
  }

  lemma InitialInv(s: Surface, start: Point, fill: Pixel, visited: seq<bool>)
    requires Valid(s) && Inside(s, start)
    requires |visited| == s.width * s.height && forall i :: 0 <= i < |visited| ==> !visited[i]
    ensures FillInv(s, start, At(s, start), fill, s, visited, [start], [start], {}, map[], 1)
  {
    forall p | Inside(s, p) ensures 0 <= Index(s, p) < |visited| {
      IndexInRange(s, p);
    }
  }

  /** Popping an entry that is out of bounds, already filled or not matching keeps the invariant. */
  lemma DiscardKeepsInv(s: Surface, start: Point, target: Pixel, fill: Pixel, r: Surface, visited: seq<bool>,
                        stack: seq<Point>, pushedBy: seq<Point>, filled: set<Point>, paths: map<Point, seq<Point>>, peak: int)
    requires |stack| > 0
    requires FillInv(s, start, target, fill, r, visited, stack, pushedBy, filled, paths, peak)
    requires var p := stack[|stack| - 1];
      || !(0 <= p.x < s.width && 0 <= p.y < s.height)
      || (0 <= Index(s, p) < |visited| && visited[Index(s, p)])
      || (Inside(s, p) && !ColorsEqual(GetPixel(r, p.x, p.y), target, Tolerance))
    ensures FillInv(s, start, target, fill, r, visited, stack[..|stack| - 1], pushedBy[..|pushedBy| - 1], filled, paths, peak)
  {
    var p := stack[|stack| - 1];
    var rest := stack[..|stack| - 1];
    assert stack == rest + [p];
    assert p in filled || !Matches(s, target, p);
    forall q, n | q in filled && Adjacent(q, n) ensures n in rest || n in filled || !Matches(s, target, n) {
      assert n in stack || n in filled || !Matches(s, target, n);
    }
  }

  /** The pixel on top of a non-empty worklist passes the runtime test of the
      fill branch: in bounds, not visited, colour within tolerance. */
  ghost predicate FillsTop(s: Surface, target: Pixel, r: Surface, visited: seq<bool>, stack: seq<Point>) {
    && |stack| > 0
    && var p := stack[|stack| - 1];
    && 0 <= p.x < s.width && 0 <= p.y < s.height && 0 <= Index(s, p) < |visited| && !visited[Index(s, p)]
    && Valid(r) && InBounds(r, p.x, p.y) && ColorsEqual(GetPixel(r, p.x, p.y), target, Tolerance)
  }

  lemma FillStepPaths(s: Surface, start: Point, target: Pixel, fill: Pixel, r: Surface, visited: seq<bool>,
                      stack: seq<Point>, pushedBy: seq<Point>, filled: set<Point>, paths: map<Point, seq<Point>>, peak: int)
    returns (paths': map<Point, seq<Point>>)
    requires FillInv(s, start, target, fill, r, visited, stack, pushedBy, filled, paths, peak)
    requires FillsTop(s, target, r, visited, stack)
    ensures Witnessed(s, start, target, filled + {stack[|stack| - 1]}, paths')
    ensures stack[|stack| - 1] !in filled
  {
    var p := stack[|stack| - 1];
    var parent := pushedBy[|pushedBy| - 1];
    assert Matches(s, target, p);
    if p == start {
      paths' := paths[p := [start]];
    } else {
      ExtendPath(s, target, paths[parent], p);
      paths' := paths[p := paths[parent] + [p]];
    }
  }

  lemma FillStepPixels(s: Surface, start: Point, target: Pixel, fill: Pixel, r: Surface, visited: seq<bool>,
                       stack: seq<Point>, pushedBy: seq<Point>, filled: set<Point>, paths: map<Point, seq<Point>>, peak: int)
    requires FillInv(s, start, target, fill, r, visited, stack, pushedBy, filled, paths, peak)
    requires FillsTop(s, target, r, visited, stack)
    ensures var p := stack[|stack| - 1];
      && Painted(s, SetPixel(r, p.x, p.y, fill), fill, filled + {p})
      && VisitedMirrors(s, visited[Index(s, p) := true], filled + {p})
  {
    var p := stack[|stack| - 1];
    var r' := SetPixel(r, p.x, p.y, fill);
    forall q | Inside(s, q) ensures At(r', q) == if q in filled + {p} then fill else At(s, q) {
      GetAfterSet(r, p.x, p.y, fill, q.x, q.y);
    }
    var visited' := visited[Index(s, p) := true];
    forall q | Inside(s, q) ensures 0 <= Index(s, q) < |visited'| && (visited'[Index(s, q)] <==> q in filled + {p}) {
      if q != p {
        IndexInjective(s, p, q);
      }
    }
  }

  lemma FillStepPushed(start: Point, stack: seq<Point>, pushedBy: seq<Point>, filled: set<Point>)
    requires |stack| > 0 && Pushed(start, stack, pushedBy, filled)
    ensures var p := stack[|stack| - 1];
      Pushed(start, stack[..|stack| - 1] + Neighbours(p), pushedBy[..|pushedBy| - 1] + [p, p, p, p], filled + {p})
  {
    var p := stack[|stack| - 1];
    var stack' := stack[..|stack| - 1] + Neighbours(p);
    var pushedBy' := pushedBy[..|pushedBy| - 1] + [p, p, p, p];
    forall i | 0 <= i < |stack'| ensures stack'[i] == start || (pushedBy'[i] in filled + {p} && Adjacent(pushedBy'[i], stack'[i])) {
      if i < |stack| - 1 {
        assert stack'[i] == stack[i] && pushedBy'[i] == pushedBy[i];
      }
    }
  }

  lemma FillStepFrontier(s: Surface, start: Point, target: Pixel, stack: seq<Point>, filled: set<Point>)
    requires |stack| > 0 && Frontier(s, start, target, stack, filled)
    ensures var p := stack[|stack| - 1];
      Frontier(s, start, target, stack[..|stack| - 1] + Neighbours(p), filled + {p})
  {
    var p := stack[|stack| - 1];
    var rest := stack[..|stack| - 1];
    assert stack == rest + [p];
    var stack' := rest + Neighbours(p);
    var filled' := filled + {p};
    forall q, n | q in filled' && Adjacent(q, n) ensures n in stack' || n in filled' || !Matches(s, target, n) {
      if q == p {
        assert n in Neighbours(p);
      } else {
        assert n in stack || n in filled || !Matches(s, target, n);
      }
    }
  }

  lemma FillStepMeasure(s: Surface, filled: set<Point>, p: Point)
    requires Inside(s, p) && p !in filled
    ensures |Grid(s.width, s.height) - (filled + {p})| < |Grid(s.width, s.height) - filled|
  {
    GridMembers(s.width, s.height);
    assert p in Grid(s.width, s.height) - filled;
    assert Grid(s.width, s.height) - (filled + {p}) == (Grid(s.width, s.height) - filled) - {p};
  }

  lemma FillStepDepth(stack: seq<Point>, filled: set<Point>, peak: int, p: Point)
    requires |stack| > 0 && |stack| <= peak <= 1 + 3 * |filled| && p !in filled
    ensures var stack' := stack[..|stack| - 1] + Neighbours(p);
      var peak' := if |stack'| > peak then |stack'| else peak;
      |stack'| <= peak' <= 1 + 3 * |filled + {p}| && peak' >= 4
  {
  }

  /** Popping an unfilled matching pixel, painting it and pushing its four
      neighbours keeps the invariant and fills one more pixel of the grid. */
  lemma FillKeepsInv(s: Surface, start: Point, target: Pixel, fill: Pixel, r: Surface, visited: seq<bool>,
                     stack: seq<Point>, pushedBy: seq<Point>, filled: set<Point>, paths: map<Point, seq<Point>>, peak: int)
    returns (paths': map<Point, seq<Point>>)
    requires FillInv(s, start, target, fill, r, visited, stack, pushedBy, filled, paths, peak)
    requires FillsTop(s, target, r, visited, stack)
    ensures var p := stack[|stack| - 1];
      var stack' := stack[..|stack| - 1] + Neighbours(p);
      var peak' := if |stack'| > peak then |stack'| else peak;
      && FillInv(s, start, target, fill, SetPixel(r, p.x, p.y, fill), visited[Index(s, p) := true],
                 stack', pushedBy[..|pushedBy| - 1] + [p, p, p, p], filled + {p}, paths', peak')
      && |Grid(s.width, s.height) - (filled + {p})| < |Grid(s.width, s.height) - filled|
  {
    var p := stack[|stack| - 1];
    paths' := FillStepPaths(s, start, target, fill, r, visited, stack, pushedBy, filled, paths, peak);
    FillStepPixels(s, start, target, fill, r, visited, stack, pushedBy, filled, paths, peak);
    FillStepPushed(start, stack, pushedBy, filled);
    FillStepFrontier(s, start, target, stack, filled);
    FillStepMeasure(s, filled, p);
    FillStepDepth(stack, filled, peak, p);
  }

  /** Once the worklist is empty, the filled set is exactly the region. */
  lemma FillDone(s: Surface, start: Point, target: Pixel, fill: Pixel, r: Surface, visited: seq<bool>,
                 stack: seq<Point>, pushedBy: seq<Point>, filled: set<Point>, paths: map<Point, seq<Point>>, peak: int)
    requires FillInv(s, start, target, fill, r, visited, stack, pushedBy, filled, paths, peak)
    requires |stack| == 0
    ensures SameShape(r, s)
    ensures forall p :: Inside(s, p) && InRegion(s, start, p) ==> At(r, p) == fill
    ensures forall p :: Inside(s, p) && !InRegion(s, start, p) ==> At(r, p) == At(s, p)
    ensures 4 <= peak <= StackCapacity(s)
  {
    assert Closed(s, target, filled);
    forall p | Inside(s, p) && InRegion(s, start, p) ensures p in filled {
      var path :| IsFillPath(s, target, path) && path[0] == start && path[|path| - 1] == p;
      PathStaysInClosedSet(s, target, filled, path);
    }
    forall p | p in filled ensures InRegion(s, start, p) {
      var path := paths[p];
      assert IsFillPath(s, target, path) && path[0] == start && path[|path| - 1] == p;
    }
    GridMembers(s.width, s.height);
    GridSize(s.width, s.height);
    SubsetSize(filled, Grid(s.width, s.height));
  }

  /**
   * The worklist loop of flood_fill: pops entries until none is left,
   * discarding those out of bounds, already visited or not matching the
   * original start colour, and otherwise painting the pixel and pushing its
   * four neighbours.
   */
  method DrainWorklist(s: Surface, start: Point, target: Pixel, fill: Pixel, r0: Surface, visited0: seq<bool>,
                       stack0: seq<Point>, ghost pushedBy0: seq<Point>, ghost filled0: set<Point>,
                       ghost paths0: map<Point, seq<Point>>, peak0: nat)
    returns (r: Surface, visited: seq<bool>, peak: nat, ghost pushedBy: seq<Point>, ghost filled: set<Point>,
             ghost paths: map<Point, seq<Point>>)
    requires FillInv(s, start, target, fill, r0, visited0, stack0, pushedBy0, filled0, paths0, peak0)
    ensures FillInv(s, start, target, fill, r, visited, [], pushedBy, filled, paths, peak)
  {
    var width, height := s.width, s.height;
    assert SameShape(r0, s) && |visited0| == width * height;
    var stack := stack0;
    r, visited, peak := r0, visited0, peak0;
    pushedBy, filled, paths := pushedBy0, filled0, paths0;
    while |stack| > 0
      invariant FillInv(s, start, target, fill, r, visited, stack, pushedBy, filled, paths, peak)
      invariant SameShape(r, s) && |visited| == width * height
      decreases |Grid(width, height) - filled|, |stack|
    {
      var p := stack[|stack| - 1];
      if 0 <= p.x < width && 0 <= p.y < height {
        IndexInRange(s, p);
      }
      if 0 <= p.x < width && 0 <= p.y < height && !visited[Index(s, p)]
         && ColorsEqual(GetPixel(r, p.x, p.y), target, Tolerance)
      {
        paths := FillKeepsInv(s, start, target, fill, r, visited, stack, pushedBy, filled, paths, peak);
        visited := visited[Index(s, p) := true];
        r := SetPixel(r, p.x, p.y, fill);
        stack := stack[..|stack| - 1] + Neighbours(p);
        pushedBy := pushedBy[..|pushedBy| - 1] + [p, p, p, p];
        filled := filled + {p};
        if |stack| > peak {
          peak := |stack|;
        }
      } else {
        DiscardKeepsInv(s, start, target, fill, r, visited, stack, pushedBy, filled, paths, peak);
        stack := stack[..|stack| - 1];
        pushedBy := pushedBy[..|pushedBy| - 1];
      }
    }
  }

  /**
   * flood_fill. Returns the filled surface and the largest worklist depth
   * reached. The start pixel is read without a bounds check, so its bytes
   * must lie in the buffer. A start outside the image changes nothing: the
   * one entry pushed for it is dropped by the bounds test of the loop. When
   * an inside start pixel already equals `fill` exactly, nothing is done.
   * Otherwise exactly the 4-connected region of the start pixel is
   * overwritten with `fill`, judged on the original colours.
   */
  method FloodFill(s: Surface, start: Point, fill: Pixel) returns (r: Surface, peak: nat)
    requires Valid(s) && Readable(s, start.x, start.y)
    ensures SameShape(r, s)
    ensures !Inside(s, start) ==> r == s && peak == if ColorsEqual(RawPixel(s, start.x, start.y), fill, 0) then 0 else 1
    ensures Inside(s, start) && ColorsEqual(At(s, start), fill, 0) ==> r == s && peak == 0
    ensures Inside(s, start) && !ColorsEqual(At(s, start), fill, 0) ==>
      forall p :: Inside(s, p) && InRegion(s, start, p) ==> At(r, p) == fill
    ensures forall p :: Inside(s, p) && !InRegion(s, start, p) ==> At(r, p) == At(s, p)
    ensures peak <= StackCapacity(s)
    ensures Inside(s, start) && !ColorsEqual(At(s, start), fill, 0) ==> peak >= 4
  {
    if Inside(s, start) {
      r, peak := FillRegion(s, start, fill);
    } else {
      var target := RawPixel(s, start.x, start.y);
      if ColorsEqual(target, fill, 0) {
        return s, 0;
      }
      // The worklist holds just `start`, which the bounds test discards.
      return s, 1;
    }
  }

  /** flood_fill from a start pixel inside the image. */
  method FillRegion(s: Surface, start: Point, fill: Pixel) returns (r: Surface, peak: nat)
    requires Valid(s) && Inside(s, start)
    ensures SameShape(r, s)
    ensures ColorsEqual(At(s, start), fill, 0) ==> r == s && peak == 0
    ensures !ColorsEqual(At(s, start), fill, 0) ==>
      forall p :: Inside(s, p) && InRegion(s, start, p) ==> At(r, p) == fill
    ensures forall p :: Inside(s, p) && !InRegion(s, start, p) ==> At(r, p) == At(s, p)
    ensures peak <= StackCapacity(s)
    ensures !ColorsEqual(At(s, start), fill, 0) ==> peak >= 4
  {
    var target := GetPixel(s, start.x, start.y);
    if ColorsEqual(target, fill, 0) {
      return s, 0;
    }
    var visited := seq(s.width * s.height, _ => false);
    InitialInv(s, start, fill, visited);
    var visitedAtEnd;
    ghost var pushedBy, filled, paths;
    r, visitedAtEnd, peak, pushedBy, filled, paths := DrainWorklist(s, start, target, fill, s, visited, [start], [start], {}, map[], 1);
    FillDone(s, start, target, fill, r, visitedAtEnd, [], pushedBy, filled, paths, peak);
  }

  /** The worklist overflow of flood_fill made concrete: on a one-pixel image
      any fill that is not a no-op reaches depth four, while the C code
      allocates width*height = 1 slot. */
  method SinglePixelFillOverflows() returns (peak: nat, slots: int)
    ensures slots == 1 && peak >= 4 && peak > slots
  {
    var white := Pixel(255, 255, 255, 255);
    var s := FromPixels(1, 1, [white]);
    GetFromPixels(1, 1, [white], 0, 0);
    OffsetInRange(s, 0, 0);
    var filled;
    filled, peak := FloodFill(s, Point(0, 0), Pixel(0, 0, 0, 255));
    slots := SourceStackSlots(s);
  }
}
