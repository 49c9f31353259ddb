/** Counting and moving pixels through the half-size downsampling. */
module HalvingTheorems {
  import opened Common
  import opened Bits
  import opened Glyphs

  // ----- Pixels and counts --------------------------------------------------------------

  /** The pixel at any position; everything outside the cell is dark. */
  function Pixel(m: Matrix, i: int, j: int): bit
  {
    if 0 <= i < 16 && 0 <= j < 16 then m[i][j] else 0
  }

  /** Lit pixels among `n` in row `i`, from column `c` on. */
  function RowSum(m: Matrix, i: int, c: int, n: nat): nat
  {
    if n == 0 then 0 else RowSum(m, i, c, n - 1) + Pixel(m, i, c + n - 1)
  }

  /** Lit pixels in `h` rows from row `r` and `w` columns from column `c` on. */
  function Area(m: Matrix, r: int, c: int, h: nat, w: nat): nat
  {
    if h == 0 then 0 else Area(m, r, c, h - 1, w) + RowSum(m, r + h - 1, c, w)
  }

  function LitCount(m: Matrix): nat
  {
    Area(m, 0, 0, 16, 16)
  }

  lemma {:induction false} RowSplit(m: Matrix, i: int, c: int, a: nat, b: nat)
    ensures RowSum(m, i, c, a + b) == RowSum(m, i, c, a) + RowSum(m, i, c + a, b)
  {
    if b > 0 {
      RowSplit(m, i, c, a, b - 1);
    }
  }

  lemma {:induction false} RowAtMostAll(m: Matrix, i: int, n: nat)
    ensures n <= 16 ==> RowSum(m, i, 0, n) <= RowSum(m, i, 0, 16)
    ensures n >= 16 ==> RowSum(m, i, 0, n) == RowSum(m, i, 0, 16)
    decreases if n <= 16 then 16 - n else n
  {
    if n < 16 {
      RowAtMostAll(m, i, n + 1);
    } else if n > 16 {
      RowAtMostAll(m, i, n - 1);
    }
  }

  lemma RowPart(m: Matrix, i: int, c: nat, n: nat)
    ensures RowSum(m, i, c, n) <= RowSum(m, i, 0, 16)
  {
    hide RowSum;
    RowSplit(m, i, 0, c, n);
    RowAtMostAll(m, i, c + n);
  }

  lemma {:induction false} DarkRow(m: Matrix, i: int, c: int, n: nat)
    requires i < 0 || i >= 16
    ensures RowSum(m, i, c, n) == 0
  {
    if n > 0 {
      DarkRow(m, i, c, n - 1);
    }
  }

  lemma {:induction false} AreaSplit(m: Matrix, r: int, c: int, a: nat, b: nat, w: nat)
    ensures Area(m, r, c, a + b, w) == Area(m, r, c, a, w) + Area(m, r + a, c, b, w)
  {
    if b > 0 {
      AreaSplit(m, r, c, a, b - 1, w);
    }
  }

  lemma {:induction false} AreaAtMostAll(m: Matrix, h: nat)
    ensures h <= 16 ==> Area(m, 0, 0, h, 16) <= LitCount(m)
    ensures h >= 16 ==> Area(m, 0, 0, h, 16) == LitCount(m)
    decreases if h <= 16 then 16 - h else h
  {
    hide RowSum;
    if h < 16 {
      AreaAtMostAll(m, h + 1);
    } else if h > 16 {
      DarkRow(m, h - 1, 0, 16);
      AreaAtMostAll(m, h - 1);
    }
  }

  lemma {:induction false} AreaNarrowed(m: Matrix, r: int, c: nat, h: nat, w: nat)
    ensures Area(m, r, c, h, w) <= Area(m, r, 0, h, 16)
  {
    hide RowSum;
    if h > 0 {
      AreaNarrowed(m, r, c, h - 1, w);
      RowPart(m, r + h - 1, c, w);
    }
  }

  lemma AreaPart(m: Matrix, r: nat, c: nat, h: nat, w: nat)
    ensures Area(m, r, c, h, w) <= LitCount(m)
  {
    hide Area;
    AreaNarrowed(m, r, c, h, w);
    AreaSplit(m, 0, 0, r, h, 16);
    AreaAtMostAll(m, r + h);
  }

  // ----- The downsampling bound -------------------------------------------------------------

  lemma BlockPixels(m: Matrix, b: Box, R: nat, C: nat)
    requires IsBox(m, b)
    ensures var r, c := b.r0 + 2 * R, b.c0 + 2 * C;
            BlockCount(m, b, R, C) == Pixel(m, r, c) + Pixel(m, r, c + 1) + Pixel(m, r + 1, c) + Pixel(m, r + 1, c + 1)
  {
    hide RowLit, ColLit;
  }

  lemma {:induction false} HalvedRow(m: Matrix, b: Box, out: Matrix, R: nat, n: nat)
    requires IsBox(m, b) && R < 16 && n <= 16
    requires forall C :: 0 <= C < 16 ==> out[R][C] == HalvedPixel(m, b, R, C)
    ensures 2 * RowSum(out, R, 0, n)
         <= RowSum(m, b.r0 + 2 * R, b.c0, 2 * n) + RowSum(m, b.r0 + 2 * R + 1, b.c0, 2 * n)
  {
    hide BlockCount, IsBox, Pixel;
    if n > 0 {
      var r, c := b.r0 + 2 * R, b.c0 + 2 * (n - 1);
      HalvedRow(m, b, out, R, n - 1);
      BlockPixels(m, b, R, n - 1);
      assert Pixel(out, R, n - 1) == HalvedPixel(m, b, R, n - 1) by { InCell(out, R, n - 1); }
      TwoMore(m, r, b.c0, n - 1);
      TwoMore(m, r + 1, b.c0, n - 1);
    }
  }

  lemma InCell(m: Matrix, i: nat, j: nat)
    requires i < 16 && j < 16
    ensures Pixel(m, i, j) == m[i][j]
  {
  }

  lemma TwoMore(m: Matrix, i: int, c: int, n: nat)
    ensures RowSum(m, i, c, 2 * (n + 1)) == RowSum(m, i, c, 2 * n) + Pixel(m, i, c + 2 * n) + Pixel(m, i, c + 2 * n + 1)
  {
    assert RowSum(m, i, c, 2 * n + 1) == RowSum(m, i, c, 2 * n) + Pixel(m, i, c + 2 * n);
  }

  lemma {:induction false} HalvedArea(m: Matrix, b: Box, out: Matrix, n: nat)
    requires IsBox(m, b) && n <= 16
    requires forall R, C :: 0 <= R < 16 && 0 <= C < 16 ==> out[R][C] == HalvedPixel(m, b, R, C)
    ensures 2 * Area(out, 0, 0, n, 16) <= Area(m, b.r0, b.c0, 2 * n, 32)
  {
    hide RowSum, HalvedPixel, IsBox;
    if n > 0 {
      HalvedArea(m, b, out, n - 1);
      HalvedRow(m, b, out, n - 1, 16);
      assert Area(m, b.r0, b.c0, 2 * n - 1, 32)
          == Area(m, b.r0, b.c0, 2 * n - 2, 32) + RowSum(m, b.r0 + 2 * n - 2, b.c0, 32);
    }
  }

  lemma {:induction false} BlankRow(m: Matrix, i: int, c: int, n: nat)
    requires IsBlank(m)
    ensures RowSum(m, i, c, n) == 0
  {
    if n > 0 {
      BlankRow(m, i, c, n - 1);
    }
  }

  lemma {:induction false} BlankArea(m: Matrix, r: int, c: int, h: nat, w: nat)
    requires IsBlank(m)
    ensures Area(m, r, c, h, w) == 0
  {
    hide RowSum;
    if h > 0 {
      BlankArea(m, r, c, h - 1, w);
      BlankRow(m, r + h - 1, c, w);
    }
  }

  /** The half-size glyph has at most half the lit pixels of its source, all in the top-left
      quarter of the cell. */
  lemma DownsamplingBound(m: Matrix, out: Matrix)
    requires IsHalved(m, out)
    ensures 2 * LitCount(out) <= LitCount(m)
    ensures forall R, C :: 0 <= R < 16 && 0 <= C < 16 && out[R][C] == 1 ==> R < 8 && C < 8
  {
    hide Area, BlockCount;
    if IsBlank(m) && IsBlank(out) {
      BlankArea(out, 0, 0, 16, 16);
    } else {
      var b: Box :| IsBox(m, b) && forall R, C :: 0 <= R < 16 && 0 <= C < 16 ==> out[R][C] == HalvedPixel(m, b, R, C);
      HalvedArea(m, b, out, 16);
      AreaPart(m, b.r0, b.c0, 32, 32);
    }
  }

  // ----- Uniqueness --------------------------------------------------------------------------

  lemma BoxUnique(m: Matrix, a: Box, b: Box)
    requires IsBox(m, a) && IsBox(m, b)
    ensures a == b && !IsBlank(m)
  {
  }

  /** The result depends on the glyph alone. */
  lemma HalvedUnique(m: Matrix, x: Matrix, y: Matrix)
    requires IsHalved(m, x) && IsHalved(m, y)
    ensures x == y
  {
    hide HalvedPixel, IsBox;
    forall b: Box, c: Box | IsBox(m, b) && IsBox(m, c)
      ensures b == c && !IsBlank(m)
    {
      BoxUnique(m, b, c);
    }
    assert forall i :: 0 <= i < 16 ==> x[i] == y[i];
  }

  // ----- Coverage, by positions ------------------------------------------------------------

  /** A lit pixel in the 2x2 block `(R, C)` of the bounding box. */
  predicate LitInBlock(m: Matrix, b: Box, R: nat, C: nat, i: nat, j: nat)
  {
    && i < 16 && j < 16 && m[i][j] == 1
    && (i - b.r0 == 2 * R || i - b.r0 == 2 * R + 1) && (j - b.c0 == 2 * C || j - b.c0 == 2 * C + 1)
  }

  ghost predicate TwoLitInBlock(m: Matrix, b: Box, R: nat, C: nat)
  {
    exists i: nat, j: nat, k: nat, l: nat :: LitInBlock(m, b, R, C, i, j) && LitInBlock(m, b, R, C, k, l) && (i, j) != (k, l)
  }

  lemma LitIsPixel(m: Matrix, b: Box, R: nat, C: nat, i: nat, j: nat)
    requires (i - b.r0 == 2 * R || i - b.r0 == 2 * R + 1) && (j - b.c0 == 2 * C || j - b.c0 == 2 * C + 1)
    ensures LitInBlock(m, b, R, C, i, j) <==> Pixel(m, i, j) == 1
  {
  }

  lemma BlockHasTwo(m: Matrix, b: Box, R: nat, C: nat)
    requires IsBox(m, b)
    ensures BlockCount(m, b, R, C) >= 2 <==> TwoLitInBlock(m, b, R, C)
  {
    hide BlockCount, IsBox, Pixel;
    var r, c := b.r0 + 2 * R, b.c0 + 2 * C;
    BlockPixels(m, b, R, C);
    LitIsPixel(m, b, R, C, r, c);
    LitIsPixel(m, b, R, C, r, c + 1);
    LitIsPixel(m, b, R, C, r + 1, c);
    LitIsPixel(m, b, R, C, r + 1, c + 1);
    forall i: nat, j: nat | LitInBlock(m, b, R, C, i, j)
      ensures (i == r || i == r + 1) && (j == c || j == c + 1)
    {
    }
  }

  /** A pixel of the half-size glyph is lit if and only if at least two different pixels of its block
      of the bounding box are. */
  lemma HalvedExactly(m: Matrix, b: Box, out: Matrix, R: nat, C: nat)
    requires IsBox(m, b) && IsHalved(m, out) && R < 16 && C < 16
    ensures out[R][C] == 1 <==> TwoLitInBlock(m, b, R, C)
  {
    hide BlockCount, TwoLitInBlock;
    HalvedIs(m, b, out, R, C);
    BlockHasTwo(m, b, R, C);
    if TwoLitInBlock(m, b, R, C) {
      BlockInBox(m, b, R, C);
    }
  }

  lemma HalvedIs(m: Matrix, b: Box, out: Matrix, R: nat, C: nat)
    requires IsBox(m, b) && IsHalved(m, out) && R < 16 && C < 16
    ensures out[R][C] == HalvedPixel(m, b, R, C)
  {
    hide HalvedPixel, IsBox;
    BoxUnique(m, b, b);
    forall a: Box | IsBox(m, a)
      ensures a == b
    {
      BoxUnique(m, a, b);
    }
  }

  lemma BlockInBox(m: Matrix, b: Box, R: nat, C: nat)
    requires IsBox(m, b) && TwoLitInBlock(m, b, R, C)
    ensures 2 * R <= b.r1 - b.r0 && 2 * C <= b.c1 - b.c0
  {
    hide RowLit, ColLit;
    var i: nat, j: nat, k: nat, l: nat :| LitInBlock(m, b, R, C, i, j) && LitInBlock(m, b, R, C, k, l) && (i, j) != (k, l);
    assert m[i][j] == 1;
  }

  /** The half-size form of a blank glyph is blank. */
  lemma BlankHalved(m: Matrix, out: Matrix)
    requires IsBlank(m) && IsHalved(m, out)
    ensures IsBlank(out)
  {
    hide HalvedPixel, IsBox;
    if b: Box :| IsBox(m, b) {
      BoxUnique(m, b, b);
    }
  }

  // ----- Translation ---------------------------------------------------------------------------

  /** The glyph moved by `dr` rows and `dc` columns. */
  function Moved(m: Matrix, dr: int, dc: int): Matrix
  {
    var rows := seq<seq<bit>>(16, (i: nat) requires i < 16 => MovedRow(m, i - dr, dc));
    assert forall i :: 0 <= i < 16 ==> rows[i] == MovedRow(m, i - dr, dc);
    rows
  }

  function MovedRow(m: Matrix, i: int, dc: int): (row: seq<bit>)
    ensures |row| == 16
  {
    seq<bit>(16, (j: nat) requires j < 16 => Pixel(m, i, j - dc))
  }

  lemma MovedAt(m: Matrix, dr: int, dc: int, i: nat, j: nat)
    requires i < 16 && j < 16
    ensures Moved(m, dr, dc)[i][j] == Pixel(m, i - dr, j - dc)
  {
    assert Moved(m, dr, dc)[i] == MovedRow(m, i - dr, dc);
  }

  ghost predicate StaysInside(m: Matrix, dr: int, dc: int)
  {
    forall i, j :: 0 <= i < 16 && 0 <= j < 16 && m[i][j] == 1 ==> 0 <= i + dr < 16 && 0 <= j + dc < 16
  }

  lemma MovedPixel(m: Matrix, dr: int, dc: int, i: int, j: int)
    requires StaysInside(m, dr, dc)
    ensures Pixel(Moved(m, dr, dc), i + dr, j + dc) == Pixel(m, i, j)
  {
    if 0 <= i + dr < 16 && 0 <= j + dc < 16 {
      MovedAt(m, dr, dc, i + dr, j + dc);
    }
  }

  lemma MovedBack(m: Matrix, dr: int, dc: int)
    requires StaysInside(m, dr, dc)
    ensures StaysInside(Moved(m, dr, dc), -dr, -dc) && Moved(Moved(m, dr, dc), -dr, -dc) == m
  {
    var t := Moved(m, dr, dc);
    forall i, j | 0 <= i < 16 && 0 <= j < 16
      ensures Moved(t, -dr, -dc)[i][j] == m[i][j]
      ensures t[i][j] == Pixel(m, i - dr, j - dc)
    {
      MovedAt(m, dr, dc, i, j);
      MovedAt(t, -dr, -dc, i, j);
      MovedPixel(m, dr, dc, i, j);
    }
    assert forall i :: 0 <= i < 16 ==> Moved(t, -dr, -dc)[i] == m[i];
  }

  predicate Shifts(b: Box, dr: int, dc: int)
  {
    0 <= b.r0 + dr && b.r1 + dr < 16 && 0 <= b.c0 + dc && b.c1 + dc < 16
  }

  function Shifted(b: Box, dr: int, dc: int): Box
    requires Shifts(b, dr, dc)
  {
    Box(b.r0 + dr, b.r1 + dr, b.c0 + dc, b.c1 + dc)
  }

  /** Lit pixels of the moved glyph are the moved lit pixels. */
  lemma MovedLit(m: Matrix, dr: int, dc: int)
    requires StaysInside(m, dr, dc)
    ensures var t := Moved(m, dr, dc);
            && (forall i, j :: 0 <= i < 16 && 0 <= j < 16 && t[i][j] == 1 ==> Pixel(m, i - dr, j - dc) == 1)
            && (forall i, j :: 0 <= i < 16 && 0 <= j < 16 && m[i][j] == 1 ==> Pixel(t, i + dr, j + dc) == 1)
  {
    hide Moved, StaysInside;
    var t := Moved(m, dr, dc);
    forall i, j | 0 <= i < 16 && 0 <= j < 16
      ensures t[i][j] == 1 ==> Pixel(m, i - dr, j - dc) == 1
      ensures m[i][j] == 1 ==> Pixel(t, i + dr, j + dc) == 1
    {
      MovedPixel(m, dr, dc, i - dr, j - dc);
      MovedPixel(m, dr, dc, i, j);
    }
  }

  lemma MovedRowLit(m: Matrix, dr: int, dc: int, i: nat)
    requires StaysInside(m, dr, dc) && i < 16 && RowLit(m, i)
    ensures 0 <= i + dr < 16 && RowLit(Moved(m, dr, dc), i + dr)
  {
    hide Moved, StaysInside;
    MovedLit(m, dr, dc);
    var j :| 0 <= j < 16 && m[i][j] == 1;
    assert Moved(m, dr, dc)[i + dr][j + dc] == 1;
  }

  lemma MovedColLit(m: Matrix, dr: int, dc: int, j: nat)
    requires StaysInside(m, dr, dc) && j < 16 && ColLit(m, j)
    ensures 0 <= j + dc < 16 && ColLit(Moved(m, dr, dc), j + dc)
  {
    hide Moved, StaysInside;
    MovedLit(m, dr, dc);
    var i :| 0 <= i < 16 && m[i][j] == 1;
    assert Moved(m, dr, dc)[i + dr][j + dc] == 1;
  }

  lemma MovedBox(m: Matrix, b: Box, dr: int, dc: int)
    requires StaysInside(m, dr, dc) && IsBox(m, b)
    ensures Shifts(b, dr, dc) && IsBox(Moved(m, dr, dc), Shifted(b, dr, dc))
  {
    hide Moved, StaysInside, RowLit, ColLit;
    MovedLit(m, dr, dc);
    MovedRowLit(m, dr, dc, b.r0);
    MovedRowLit(m, dr, dc, b.r1);
    MovedColLit(m, dr, dc, b.c0);
    MovedColLit(m, dr, dc, b.c1);
  }

  lemma MovedHalvedPixel(m: Matrix, b: Box, dr: int, dc: int, R: nat, C: nat)
    requires StaysInside(m, dr, dc) && IsBox(m, b)
    requires Shifts(b, dr, dc) && IsBox(Moved(m, dr, dc), Shifted(b, dr, dc))
    ensures HalvedPixel(m, b, R, C) == HalvedPixel(Moved(m, dr, dc), Shifted(b, dr, dc), R, C)
  {
    hide RowLit, ColLit, BlockCount, Pixel, Moved, StaysInside;
    var t, a := Moved(m, dr, dc), Shifted(b, dr, dc);
    var r, c := b.r0 + 2 * R, b.c0 + 2 * C;
    BlockPixels(m, b, R, C);
    BlockPixels(t, a, R, C);
    MovedPixel(m, dr, dc, r, c);
    MovedPixel(m, dr, dc, r, c + 1);
    MovedPixel(m, dr, dc, r + 1, c);
    MovedPixel(m, dr, dc, r + 1, c + 1);
  }

  lemma MovedHalved(m: Matrix, out: Matrix, dr: int, dc: int)
    requires StaysInside(m, dr, dc) && IsHalved(m, out)
    ensures IsHalved(Moved(m, dr, dc), out)
  {
    hide HalvedPixel, IsBox;
    var t := Moved(m, dr, dc);
    if IsBlank(m) && IsBlank(out) {
      forall i, j | 0 <= i < 16 && 0 <= j < 16
        ensures t[i][j] == 0
      {
        MovedAt(m, dr, dc, i, j);
      }
    } else {
      var b: Box :| IsBox(m, b) && forall R, C :: 0 <= R < 16 && 0 <= C < 16 ==> out[R][C] == HalvedPixel(m, b, R, C);
      MovedBox(m, b, dr, dc);
      var a := Shifted(b, dr, dc);
      forall R, C | 0 <= R < 16 && 0 <= C < 16
        ensures out[R][C] == HalvedPixel(t, a, R, C)
      {
        MovedHalvedPixel(m, b, dr, dc, R, C);
      }
    }
  }

  /** Moving a glyph, without pushing lit pixels out of the cell, does not change its half-size form. */
  lemma TranslationInvariance(m: Matrix, out: Matrix, dr: int, dc: int)
    requires StaysInside(m, dr, dc)
    ensures IsHalved(m, out) <==> IsHalved(Moved(m, dr, dc), out)
  {
    hide IsHalved, StaysInside, Moved;
    if IsHalved(m, out) {
      MovedHalved(m, out, dr, dc);
    }
    if IsHalved(Moved(m, dr, dc), out) {
      MovedBack(m, dr, dc);
      MovedHalved(Moved(m, dr, dc), out, -dr, -dc);
    }
  }
}
