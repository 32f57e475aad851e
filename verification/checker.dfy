/**
 * layer_fill_checkerboard (src/main.c): the base layer is tiled with
 * cell x cell squares, light where the sum of the square's column and row
 * numbers is even and dark otherwise. The squares are visited row by row
 * from the top-left corner; those that stick out of the surface are
 * clipped.
 */
module Checker {
  import opened Pixels

  /** The colour rule of the C loop, applied to any pixel: light when x / cell + y / cell is even. */
  predicate IsLight(x: nat, y: nat, cell: nat)
    requires 0 < cell
  {
    (x / cell + y / cell) % 2 == 0
  }

  /** One filled square: its top-left corner and whether it is light. */
  datatype Square = Square(x: nat, y: nat, light: bool)

  /** The squares of one row of the loop, for x = x0, x0 + cell, ... below w. */
  function RowSquares(x0: nat, y: nat, w: nat, cell: nat): seq<Square>
    requires 0 < cell
    decreases w - x0
  {
    if w <= x0 then [] else [Square(x0, y, IsLight(x0, y, cell))] + RowSquares(x0 + cell, y, w, cell)
  }

  /** The squares of the rows y = y0, y0 + cell, ... below h, in loop order. */
  function RowsFrom(y0: nat, w: nat, h: nat, cell: nat): seq<Square>
    requires 0 < cell
    decreases h - y0
  {
    if h <= y0 then [] else RowSquares(0, y0, w, cell) + RowsFrom(y0 + cell, w, h, cell)
  }

  /** Every square the loop fills on a w x h surface, in the order it fills them. */
  function Squares(w: nat, h: nat, cell: nat): seq<Square>
    requires 0 < cell
  {
    RowsFrom(0, w, h, cell)
  }

  predicate Covers(q: Square, cell: nat, px: int, py: int)
  {
    q.x <= px < q.x + cell && q.y <= py < q.y + cell
  }

  /** A number in [k * cell, k * cell + cell) has quotient k. */
  lemma DivInSquare(p: nat, k: nat, cell: nat)
    requires 0 < cell && k * cell <= p < k * cell + cell
    ensures p / cell == k
  {
    var q, r := p / cell, p % cell;
    assert p == q * cell + r;
    if q < k {
      assert (q + 1) * cell <= k * cell by { MulMonotone(q + 1, k, cell); }
    } else if k < q {
      assert (k + 1) * cell <= q * cell by { MulMonotone(k + 1, q, cell); }
    }
  }

  /** A multiple of the cell size is its quotient times the cell size. */
  lemma ExactDiv(x: nat, cell: nat)
    requires 0 < cell && x % cell == 0
    ensures (x / cell) * cell == x
  {
  }

  /** A multiple of the cell size plus the cell size is again a multiple. */
  lemma ModStep(x: nat, cell: nat)
    requires 0 < cell && x % cell == 0
    ensures (x + cell) % cell == 0
  {
    var k := x / cell;
    ExactDiv(x, cell);
    assert (k + 1) * cell == x + cell;
    DivInSquare(x + cell, k + 1, cell);
  }

  /** A square whose corner is a multiple of the cell size has the colour the rule gives each of its pixels. */
  lemma SquareColour(q: Square, cell: nat, px: nat, py: nat)
    requires 0 < cell && q.x % cell == 0 && q.y % cell == 0
    requires q.light == IsLight(q.x, q.y, cell)
    requires Covers(q, cell, px, py)
    ensures q.light == IsLight(px, py, cell)
  {
    ExactDiv(q.x, cell);
    ExactDiv(q.y, cell);
    DivInSquare(px, q.x / cell, cell);
    DivInSquare(py, q.y / cell, cell);
  }

  /** Squares of a row start at multiples of the cell size, on that row, inside the width, coloured by the rule. */
  lemma {:induction false} RowSquaresShape(x0: nat, y: nat, w: nat, cell: nat)
    requires 0 < cell && x0 % cell == 0
    ensures forall i :: 0 <= i < |RowSquares(x0, y, w, cell)| ==>
              var q := RowSquares(x0, y, w, cell)[i];
              q.x % cell == 0 && q.y == y && x0 <= q.x < w && q.light == IsLight(q.x, q.y, cell)
    decreases w - x0
  {
    if x0 < w {
      ModStep(x0, cell);
      RowSquaresShape(x0 + cell, y, w, cell);
    }
  }

  /** Square q has its corner on the cell grid, inside columns [0, w) and rows [y0, h), and the rule's colour. */
  predicate OnGrid(q: Square, w: nat, y0: nat, h: nat, cell: nat)
    requires 0 < cell
  {
    q.x % cell == 0 && q.y % cell == 0 && q.x < w && y0 <= q.y < h && q.light == IsLight(q.x, q.y, cell)
  }

  /** Every square of the loop sits at multiples of the cell size inside the surface, coloured by the rule. */
  lemma {:induction false} RowsFromShape(y0: nat, w: nat, h: nat, cell: nat)
    requires 0 < cell && y0 % cell == 0
    ensures forall i :: 0 <= i < |RowsFrom(y0, w, h, cell)| ==> OnGrid(RowsFrom(y0, w, h, cell)[i], w, y0, h, cell)
    decreases h - y0
  {
    if y0 < h {
      var row := RowSquares(0, y0, w, cell);
      var rest := RowsFrom(y0 + cell, w, h, cell);
      RowSquaresShape(0, y0, w, cell);
      ModStep(y0, cell);
      RowsFromShape(y0 + cell, w, h, cell);
      var all := row + rest;
      forall i | 0 <= i < |all|
        ensures OnGrid(all[i], w, y0, h, cell)
      {
        if i >= |row| {
          assert all[i] == rest[i - |row|];
        } else {
          assert all[i] == row[i];
        }
      }
    }
  }

  /** The row loop reaches the square containing column px. */
  lemma {:induction false} RowSquaresReach(x0: nat, y: nat, w: nat, cell: nat, px: nat) returns (i: nat)
    requires 0 < cell && x0 % cell == 0 && x0 <= px < w
    ensures i < |RowSquares(x0, y, w, cell)|
    ensures var q := RowSquares(x0, y, w, cell)[i]; q.x <= px < q.x + cell && q.y == y
    decreases w - x0
  {
    if px < x0 + cell {
      i := 0;
    } else {
      ModStep(x0, cell);
      var j := RowSquaresReach(x0 + cell, y, w, cell, px);
      i := j + 1;
    }
  }

  /** The loop reaches the square containing pixel (px, py). */
  lemma {:induction false} RowsFromReach(y0: nat, w: nat, h: nat, cell: nat, px: nat, py: nat) returns (i: nat)
    requires 0 < cell && y0 % cell == 0 && px < w && y0 <= py < h
    ensures i < |RowsFrom(y0, w, h, cell)| && Covers(RowsFrom(y0, w, h, cell)[i], cell, px, py)
    decreases h - y0
  {
    var row := RowSquares(0, y0, w, cell);
    var rest := RowsFrom(y0 + cell, w, h, cell);
    assert RowsFrom(y0, w, h, cell) == row + rest;
    if py < y0 + cell {
      i := RowSquaresReach(0, y0, w, cell, px);
      assert (row + rest)[i] == row[i];
    } else {
      ModStep(y0, cell);
      var j := RowsFromReach(y0 + cell, w, h, cell, px, py);
      i := |row| + j;
      assert (row + rest)[i] == rest[j];
    }
  }

  /**
   * The squares the loop fills cover every pixel of the surface, and every
   * square covering a pixel has the colour the parity rule gives that
   * pixel; so however the squares overlap, each pixel ends up light exactly
   * when IsLight holds for it.
   */
  lemma CheckerboardParity(w: nat, h: nat, cell: nat, px: nat, py: nat) returns (i: nat)
    requires 0 < cell && px < w && py < h
    ensures i < |Squares(w, h, cell)| && Covers(Squares(w, h, cell)[i], cell, px, py)
    ensures forall j :: 0 <= j < |Squares(w, h, cell)| && Covers(Squares(w, h, cell)[j], cell, px, py) ==>
              Squares(w, h, cell)[j].light == IsLight(px, py, cell)
  {
    i := RowsFromReach(0, w, h, cell, px, py);
    RowsFromShape(0, w, h, cell);
    var sq := Squares(w, h, cell);
    forall j | 0 <= j < |sq| && Covers(sq[j], cell, px, py)
      ensures sq[j].light == IsLight(px, py, cell)
    {
      SquareColour(sq[j], cell, px, py);
    }
  }

  /** The colour the checkerboard gives pixel (x, y). */
  function CheckerColour(x: nat, y: nat, cell: nat, light: Pixel, dark: Pixel): Pixel
    requires 0 < cell
  {
    if IsLight(x, y, cell) then light else dark
  }

  /**
   * The colour of pixel (px, py), initially p, after the squares are filled
   * in order: the last square covering the pixel decides it.
   */
  function AfterSquares(p: Pixel, px: int, py: int, squares: seq<Square>, cell: nat, light: Pixel, dark: Pixel): Pixel
    decreases |squares|
  {
    if squares == [] then p
    else
      var q := squares[|squares| - 1];
      if Covers(q, cell, px, py) then (if q.light then light else dark)
      else AfterSquares(p, px, py, squares[..|squares| - 1], cell, light, dark)
  }

  /**
   * When every square covering a pixel has the same colour c, filling the
   * squares leaves c there if any square covers it, and the old colour otherwise.
   */
  lemma {:induction false} AfterSquaresAgree(p: Pixel, px: int, py: int, squares: seq<Square>, cell: nat, light: Pixel, dark: Pixel, c: Pixel)
    requires forall j :: 0 <= j < |squares| && Covers(squares[j], cell, px, py) ==> (if squares[j].light then light else dark) == c
    ensures AfterSquares(p, px, py, squares, cell, light, dark) ==
            if exists j :: 0 <= j < |squares| && Covers(squares[j], cell, px, py) then c else p
    decreases |squares|
  {
    if squares != [] {
      var n := |squares| - 1;
      var init := squares[..n];
      if Covers(squares[n], cell, px, py) {
        assert Covers(squares[n], cell, px, py);
      } else {
        forall j | 0 <= j < |init| && Covers(init[j], cell, px, py)
          ensures (if init[j].light then light else dark) == c
        {
          assert init[j] == squares[j];
        }
        AfterSquaresAgree(p, px, py, init, cell, light, dark, c);
        if exists j :: 0 <= j < |squares| && Covers(squares[j], cell, px, py) {
          var j :| 0 <= j < |squares| && Covers(squares[j], cell, px, py);
          assert init[j] == squares[j];
        }
        if exists j :: 0 <= j < |init| && Covers(init[j], cell, px, py) {
          var j :| 0 <= j < |init| && Covers(init[j], cell, px, py);
          assert init[j] == squares[j];
        }
      }
    }
  }

  /**
   * Filling the squares of the C loop, one rectangle after another, leaves
   * every pixel of the surface in the checkerboard colour the parity rule
   * gives it, whatever colour it had before.
   */
  lemma SquaresPaintCheckerboard(w: nat, h: nat, cell: nat, light: Pixel, dark: Pixel, p: Pixel, px: nat, py: nat)
    requires 0 < cell && px < w && py < h
    ensures AfterSquares(p, px, py, Squares(w, h, cell), cell, light, dark) == CheckerColour(px, py, cell, light, dark)
  {
    var i := CheckerboardParity(w, h, cell, px, py);
    var sq := Squares(w, h, cell);
    AfterSquaresAgree(p, px, py, sq, cell, light, dark, CheckerColour(px, py, cell, light, dark));
    assert Covers(sq[i], cell, px, py);
  }

  /**
   * Paint the checkerboard on a surface; `light` and `dark` are the bytes
   * cairo stores for the greys 0.8 and 0.6. The model paints pixel by
   * pixel; SquaresPaintCheckerboard shows that filling the C loop's
   * squares in order gives every pixel the same colour.
   */
  method FillCheckerboard(s: Surface, cell: nat, light: Pixel, dark: Pixel) returns (t: Surface)
    requires Valid(s) && 0 < cell
    ensures SameShape(t, s)
    ensures forall x, y :: InBounds(s, x, y) ==> GetPixel(t, x, y) == CheckerColour(x, y, cell, light, dark)
  {
    t := s;
    var y := 0;
    while y < s.height
      invariant 0 <= y <= s.height
      invariant SameShape(t, s)
      invariant forall x', y' :: InBounds(s, x', y') ==>
                  GetPixel(t, x', y') == if y' < y then CheckerColour(x', y', cell, light, dark) else GetPixel(s, x', y')
    {
      var x := 0;
      while x < s.width
        invariant 0 <= x <= s.width
        invariant SameShape(t, s)
        invariant forall x', y' :: InBounds(s, x', y') ==>
                    GetPixel(t, x', y') == if y' < y || (y' == y && x' < x) then CheckerColour(x', y', cell, light, dark) else GetPixel(s, x', y')
      {
        var c := CheckerColour(x, y, cell, light, dark);
        forall x', y' | InBounds(s, x', y')
          ensures GetPixel(SetPixel(t, x, y, c), x', y') == if (x', y') == (x, y) then c else GetPixel(t, x', y')
        {
          GetAfterSet(t, x, y, c, x', y');
        }
        t := SetPixel(t, x, y, c);
        x := x + 1;
      }
      y := y + 1;
    }
  }

  /** Neighbouring squares alternate: stepping one cell right or down flips the colour. */
  lemma Alternates(x: nat, y: nat, cell: nat)
    requires 0 < cell
    ensures IsLight(x + cell, y, cell) <==> !IsLight(x, y, cell)
    ensures IsLight(x, y + cell, cell) <==> !IsLight(x, y, cell)
  {
    NextCell(x, cell);
    NextCell(y, cell);
  }

  /** One cell further along lies in the next square. */
  lemma NextCell(x: nat, cell: nat)
    requires 0 < cell
    ensures (x + cell) / cell == x / cell + 1
  {
    var k := x / cell;
    assert k * cell <= x < k * cell + cell;
    assert (k + 1) * cell == k * cell + cell;
    DivInSquare(x + cell, k + 1, cell);
  }
}
