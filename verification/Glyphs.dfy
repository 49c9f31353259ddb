/** Bitmap glyphs of the APK font: unpacking, rotating, halving and packing. */
module Glyphs {
  import opened Common
  import opened Bits

  const GLYPH_BYTES := 32
  const FIRST_CP := 0x20
  const LAST_CP := 0x7E

  predicate IsSquare(m: seq<seq<bit>>)
  {
    |m| == 16 && forall r :: 0 <= r < 16 ==> |m[r]| == 16
  }

  /** A 16x16 matrix of pixels. */
  type Matrix = m: seq<seq<bit>> | IsSquare(m) witness seq(16, _ => seq(16, _ => 0))

  // ----- Decoding --------------------------------------------------------------------

  /** The 32 stored bytes of a code point; Python's slice is shorter at the end of the blob. */
  function StoredGlyph(blob: seq<byte>, cp: nat): seq<byte>
    requires cp >= 0x21
  {
    var at := (cp - 0x21) * GLYPH_BYTES;
    var end := at + GLYPH_BYTES;
    if at > |blob| then [] else blob[at..if end > |blob| then |blob| else end]
  }

  /** Two bytes a row, little-endian, most significant bit leftmost: the stored orientation. */
  function StoredRow(g: seq<byte>, r: nat): (row: seq<bit>)
    requires |g| == GLYPH_BYTES && r < 16
    ensures |row| == 16
  {
    seq(16, x requires 0 <= x < 16 => Bit(Le16(g[2 * r], g[2 * r + 1]), 15 - x))
  }

  function StoredMatrix(g: seq<byte>): Matrix
    requires |g| == GLYPH_BYTES
  {
    seq(16, r requires 0 <= r < 16 => StoredRow(g, r))
  }

  /** The stored glyph turned upright, by a quarter turn. */
  function Turn(raw: Matrix): Matrix
  {
    seq(16, r requires 0 <= r < 16 => seq(16, c requires 0 <= c < 16 => raw[c][15 - r]))
  }

  /** `None` where the source raises an IndexError because the blob is too short. */
  function DecodeApkGlyph(blob: seq<byte>, cp: nat): Option<Matrix>
    requires cp >= 0x21
  {
    var g := StoredGlyph(blob, cp);
    if |g| < GLYPH_BYTES then None else Some(Turn(StoredMatrix(g)))
  }

  // ----- Packing ------------------------------------------------------------------------

  /** Two bytes a row, high byte first. */
  function Packed(rows: seq<seq<bit>>): (bs: seq<byte>)
    requires forall r :: 0 <= r < |rows| ==> |rows[r]| == 16
    ensures |bs| == 2 * |rows|
  {
    if rows == [] then []
    else
      var v := Value(rows[|rows| - 1]);
      Packed(rows[..|rows| - 1]) + [v / 0x100 % 0x100, v % 0x100]
  }

  method PackUpright(mat: Matrix) returns (out: seq<byte>)
    ensures out == Packed(mat)
  {
    hide Value;
    out := [];
    for r := 0 to 16
      invariant out == Packed(mat[..r])
    {
      var val := PackRow(mat[r]);
      out := out + [val / 0x100 % 0x100];
      out := out + [val % 0x100];
      assert mat[..r + 1][..r] == mat[..r];
    }
    assert mat[..16] == mat;
  }

  method PackRow(row: seq<bit>) returns (val: nat)
    requires |row| == 16
    ensures val == Value(row)
  {
    hide Bit, Value, Pow2;
    val := 0;
    PackEnds(row);
    for x := 0 to 16
      invariant val == Value(row[..x]) * Pow2(16 - x)
    {
      PackStep(row, x);
      if row[x] != 0 {
        val := SetBit(val, 15 - x);
      }
    }
  }

  lemma PackEnds(row: seq<bit>)
    requires |row| == 16
    ensures Value(row[..0]) * Pow2(16) == 0 && Value(row[..16]) * Pow2(0) == Value(row)
  {
    assert row[..16] == row;
  }

  /** One more pixel doubles the number and adds its weight. */
  lemma PackStep(row: seq<bit>, x: nat)
    requires |row| == 16 && x < 16
    ensures var val := Value(row[..x]) * Pow2(16 - x);
            && Bit(val, 15 - x) == 0
            && Value(row[..x + 1]) * Pow2(15 - x) == val + if row[x] != 0 then Pow2(15 - x) else 0
  {
    hide Bit;
    ShiftedBitClear(Value(row[..x]), 15 - x);
    assert row[..x + 1][..x] == row[..x];
    Distribute(Value(row[..x]), row[x], Pow2(15 - x));
  }

  lemma Distribute(v: nat, b: bit, p: nat)
    ensures (2 * v + b) * p == v * (2 * p) + (if b == 1 then p else 0)
  {
  }

  /** The bit about to be set is still clear, so setting it adds its weight. */
  lemma {:induction false} ShiftedBitClear(v: nat, k: nat)
    ensures Bit(v * Pow2(k + 1), k) == 0
  {
    assert v * Pow2(k + 1) == 2 * (v * Pow2(k));
    if k > 0 {
      ShiftedBitClear(v, k - 1);
    }
  }

  // ----- Halving ---------------------------------------------------------------------------

  predicate RowLit(m: Matrix, i: nat)
    requires i < 16
  {
    exists j :: 0 <= j < 16 && m[i][j] == 1
  }

  predicate ColLit(m: Matrix, j: nat)
    requires j < 16
  {
    exists i :: 0 <= i < 16 && m[i][j] == 1
  }

  /** The lit rows among the first `n`, in order. */
  function LitRows(m: Matrix, n: nat): (rows: seq<nat>)
    requires n <= 16
    ensures forall i :: i in rows ==> i < n
  {
    if n == 0 then [] else LitRows(m, n - 1) + (if RowLit(m, n - 1) then [n - 1] else [])
  }

  function LitCols(m: Matrix, n: nat): (cols: seq<nat>)
    requires n <= 16
    ensures forall j :: j in cols ==> j < n
  {
    if n == 0 then [] else LitCols(m, n - 1) + (if ColLit(m, n - 1) then [n - 1] else [])
  }

  /** A box of pixels: first and last row, first and last column. */
  datatype Bounds = Box(r0: nat, r1: nat, c0: nat, c1: nat)

  type Box = b: Bounds | b.r0 <= b.r1 < 16 && b.c0 <= b.c1 < 16 witness Box(0, 0, 0, 0)

  /** The bounding box of the lit pixels. */
  ghost predicate IsBox(m: Matrix, b: Box)
  {
    && RowLit(m, b.r0) && RowLit(m, b.r1) && ColLit(m, b.c0) && ColLit(m, b.c1)
    && forall i, j :: 0 <= i < 16 && 0 <= j < 16 && m[i][j] == 1 ==> b.r0 <= i <= b.r1 && b.c0 <= j <= b.c1
  }

  ghost predicate IsBounds(m: Matrix, b: Bounds)
  {
    b.r0 <= b.r1 < 16 && b.c0 <= b.c1 < 16 && IsBox(m, b)
  }

  ghost predicate IsBlank(m: Matrix)
  {
    forall i, j :: 0 <= i < 16 && 0 <= j < 16 ==> m[i][j] == 0
  }

  /** A pixel inside the box; blocks at the far edges reach beyond it. */
  function BoxPixel(m: Matrix, b: Box, i: nat, j: nat): bit
  {
    if i <= b.r1 && j <= b.c1 then m[i][j] else 0
  }

  function PairCount(m: Matrix, b: Box, i: nat, j: nat): nat
  {
    BoxPixel(m, b, i, j) + BoxPixel(m, b, i, j + 1)
  }

  /** Lit pixels of the 2x2 block `(R, C)` of the box. */
  function BlockCount(m: Matrix, b: Box, R: nat, C: nat): nat
  {
    PairCount(m, b, b.r0 + 2 * R, b.c0 + 2 * C) + PairCount(m, b, b.r0 + 2 * R + 1, b.c0 + 2 * C)
  }

  /** One pixel of the half-size glyph, given the box. */
  function HalvedPixel(m: Matrix, b: Box, R: nat, C: nat): bit
  {
    if R < (b.r1 - b.r0 + 2) / 2 && C < (b.c1 - b.c0 + 2) / 2 && BlockCount(m, b, R, C) >= 2 then 1 else 0
  }

  ghost predicate IsHalved(m: Matrix, out: Matrix)
  {
    (IsBlank(m) && IsBlank(out)) ||
    exists b: Box :: IsBox(m, b) && forall R, C :: 0 <= R < 16 && 0 <= C < 16 ==> out[R][C] == HalvedPixel(m, b, R, C)
  }

  method Halve(mat: Matrix) returns (out: array2<bit>)
    ensures fresh(out) && out.Length0 == out.Length1 == 16
    ensures IsHalved(mat, Contents(out))
  {
    hide BlockCount;
    var rows, cols := LitRows(mat, 16), LitCols(mat, 16);
    out := new bit[16, 16]((i, j) => 0);
    BoxFound(mat);
    if rows == [] {
      return;
    }
    var r0, r1, c0, c1 := rows[0], rows[|rows| - 1], cols[0], cols[|cols| - 1];
    var b: Box := Box(r0, r1, c0, c1);
    var h, w := r1 - r0 + 1, c1 - c0 + 1;
    for R := 0 to (h + 1) / 2
      invariant forall i, j :: 0 <= i < 16 && 0 <= j < 16 ==>
                  out[i, j] == if i < R then HalvedPixel(mat, b, i, j) else 0
    {
      for C := 0 to (w + 1) / 2
        invariant forall i, j :: 0 <= i < 16 && 0 <= j < 16 ==>
                    out[i, j] == if i < R || (i == R && j < C) then HalvedPixel(mat, b, i, j) else 0
      {
        var count := CountBlock(mat, b, R, C);
        out[R, C] := if count >= 2 then 1 else 0;
      }
    }
    ContentsHalved(mat, b, out);
  }

  lemma ContentsHalved(m: Matrix, b: Box, out: array2<bit>)
    requires out.Length0 == out.Length1 == 16 && IsBox(m, b)
    requires forall i, j :: 0 <= i < 16 && 0 <= j < 16 ==> out[i, j] == HalvedPixel(m, b, i, j)
    ensures IsHalved(m, Contents(out))
  {
    hide HalvedPixel, IsBox;
    assert forall i, j :: 0 <= i < 16 && 0 <= j < 16 ==> Contents(out)[i][j] == out[i, j];
  }

  method CountBlock(mat: Matrix, b: Box, R: nat, C: nat) returns (count: nat)
    ensures count == BlockCount(mat, b, R, C)
  {
    count := 0;
    for dr := 0 to 2
      invariant dr == 0 ==> count == 0
      invariant dr == 1 ==> count == PairCount(mat, b, b.r0 + 2 * R, b.c0 + 2 * C)
      invariant dr == 2 ==> count == BlockCount(mat, b, R, C)
    {
      ghost var before := count;
      for dc := 0 to 2
        invariant dc == 0 ==> count == before
        invariant dc == 1 ==> count == before + BoxPixel(mat, b, b.r0 + 2 * R + dr, b.c0 + 2 * C)
        invariant dc == 2 ==> count == before + PairCount(mat, b, b.r0 + 2 * R + dr, b.c0 + 2 * C)
      {
        var sr, sc := b.r0 + R * 2 + dr, b.c0 + C * 2 + dc;
        if sr <= b.r1 && sc <= b.c1 && mat[sr][sc] != 0 {
          count := count + 1;
        }
      }
    }
  }

  function Contents(a: array2<bit>): Matrix
    requires a.Length0 == a.Length1 == 16
    reads a
  {
    seq(16, i requires 0 <= i < 16 reads a => seq(16, j requires 0 <= j < 16 reads a => a[i, j]))
  }

  // ----- Extraction -----------------------------------------------------------------------

  /** The bytes of one output cell: blank for the space, else the packed upright glyph. */
  ghost predicate IsCell(blob: seq<byte>, cp: nat, half: bool, cell: seq<byte>)
    requires cp >= FIRST_CP
  {
    if cp == FIRST_CP then cell == seq(GLYPH_BYTES, _ => 0)
    else
      var mat := DecodeApkGlyph(blob, cp);
      && mat.Some?
      && if half then exists m: Matrix :: IsHalved(mat.value, m) && cell == Packed(m) else cell == Packed(mat.value)
  }

  function CellAt(cp: nat): nat
    requires cp >= FIRST_CP
  {
    (cp - FIRST_CP) * GLYPH_BYTES
  }

  /** All printable ASCII glyphs, one cell after the other; `None` where decoding raises. */
  method Extract(blob: seq<byte>, half: bool) returns (result: Option<seq<byte>>)
    ensures result.None? <==> |blob| < (LAST_CP - 0x20) * GLYPH_BYTES
    ensures result.Some? ==>
              && |result.value| == CellAt(LAST_CP + 1)
              && forall cp :: FIRST_CP <= cp <= LAST_CP ==>
                   IsCell(blob, cp, half, result.value[CellAt(cp)..CellAt(cp + 1)])
  {
    hide IsCell, Packed;
    var out: seq<byte> := [];
    for cp := FIRST_CP to LAST_CP + 1
      invariant |out| == CellAt(cp)
      invariant cp > 0x21 ==> |blob| >= (cp - 0x21) * GLYPH_BYTES
      invariant forall k :: FIRST_CP <= k < cp ==> IsCell(blob, k, half, out[CellAt(k)..CellAt(k + 1)])
    {
      var cell: seq<byte>;
      if cp == FIRST_CP {
        cell := seq(GLYPH_BYTES, _ => 0);
        CellIs(blob, cp, half, [], cell);
      } else {
        var decoded := DecodeApkGlyph(blob, cp);
        if decoded.None? {
          return None;
        }
        var mat := decoded.value;
        if half {
          var halved := Halve(mat);
          mat := Contents(halved);
        }
        cell := PackUpright(mat);
        CellIs(blob, cp, half, mat, cell);
      }
      ghost var before := out;
      out := out + cell;
      assert out[CellAt(cp)..CellAt(cp + 1)] == cell;
      assert forall k :: FIRST_CP <= k < cp ==> out[CellAt(k)..CellAt(k + 1)] == before[CellAt(k)..CellAt(k + 1)];
    }
    return Some(out);
  }

  lemma CellIs(blob: seq<byte>, cp: nat, half: bool, mat: seq<seq<bit>>, cell: seq<byte>)
    requires cp >= FIRST_CP
    requires if cp == FIRST_CP then cell == seq(GLYPH_BYTES, _ => 0)
             else
               var m := DecodeApkGlyph(blob, cp);
               && IsSquare(mat) && m.Some? && cell == Packed(mat)
               && if half then IsHalved(m.value, mat) else mat == m.value
    ensures IsCell(blob, cp, half, cell)
  {
  }

  // ----- The bounding box ---------------------------------------------------------------

  lemma {:induction false} LitRowsExactly(m: Matrix, n: nat)
    requires n <= 16
    ensures forall i: nat :: i in LitRows(m, n) <==> i < n && RowLit(m, i)
    ensures forall a, b :: 0 <= a < b < |LitRows(m, n)| ==> LitRows(m, n)[a] < LitRows(m, n)[b]
  {
    hide RowLit;
    if n > 0 {
      var rows := LitRows(m, n - 1);
      assert forall a :: 0 <= a < |rows| ==> rows[a] in rows;
      LitRowsExactly(m, n - 1);
    }
  }

  lemma {:induction false} LitColsExactly(m: Matrix, n: nat)
    requires n <= 16
    ensures forall j: nat :: j in LitCols(m, n) <==> j < n && ColLit(m, j)
    ensures forall a, b :: 0 <= a < b < |LitCols(m, n)| ==> LitCols(m, n)[a] < LitCols(m, n)[b]
  {
    hide ColLit;
    if n > 0 {
      var cols := LitCols(m, n - 1);
      assert forall a :: 0 <= a < |cols| ==> cols[a] in cols;
      LitColsExactly(m, n - 1);
    }
  }

  lemma BoxFound(m: Matrix)
    ensures var rows, cols := LitRows(m, 16), LitCols(m, 16);
            if rows == [] then IsBlank(m)
            else cols != [] && IsBounds(m, Box(rows[0], rows[|rows| - 1], cols[0], cols[|cols| - 1]))
  {
    hide LitRows, LitCols, IsBlank, IsBounds, RowLit, ColLit;
    var rows, cols := LitRows(m, 16), LitCols(m, 16);
    LitRowsExactly(m, 16);
    LitColsExactly(m, 16);
    if rows == [] {
      BlankFromRows(m);
    } else {
      assert rows[0] in rows;
      var j := LitInRow(m, rows[0]);
      assert j in cols;
      BoxFromLines(m, rows, cols);
    }
  }

  lemma LitInRow(m: Matrix, i: nat) returns (j: nat)
    requires i < 16 && RowLit(m, i)
    ensures j < 16 && ColLit(m, j)
  {
    j :| 0 <= j < 16 && m[i][j] == 1;
  }

  lemma BlankFromRows(m: Matrix)
    requires forall i: nat :: i < 16 ==> !RowLit(m, i)
    ensures IsBlank(m)
  {
    forall i: nat, j: nat | i < 16 && j < 16
      ensures m[i][j] == 0
    {
      assert !RowLit(m, i);
    }
  }

  lemma BoxFromLines(m: Matrix, rows: seq<nat>, cols: seq<nat>)
    requires rows != [] && cols != []
    requires forall i: nat :: i in rows <==> i < 16 && RowLit(m, i)
    requires forall j: nat :: j in cols <==> j < 16 && ColLit(m, j)
    requires forall a, b :: 0 <= a < b < |rows| ==> rows[a] < rows[b]
    requires forall a, b :: 0 <= a < b < |cols| ==> cols[a] < cols[b]
    ensures IsBounds(m, Box(rows[0], rows[|rows| - 1], cols[0], cols[|cols| - 1]))
  {
    assert rows[0] in rows && rows[|rows| - 1] in rows;
    assert cols[0] in cols && cols[|cols| - 1] in cols;
    forall i: nat, j: nat | i < 16 && j < 16 && m[i][j] == 1
      ensures rows[0] <= i <= rows[|rows| - 1] && cols[0] <= j <= cols[|cols| - 1]
    {
      assert RowLit(m, i) && ColLit(m, j);
      assert i in rows && j in cols;
    }
  }
}
