/** What decoding, packing and halving do to glyphs. */
module GlyphTheorems {
  import opened Common
  import opened Bits
  import opened Glyphs

  // ----- Rotation -------------------------------------------------------------------

  /** Decoding turns by a quarter: four turns give the glyph back. */
  lemma FourTurns(m: Matrix)
    ensures Turn(Turn(Turn(Turn(m)))) == m
  {
    var t := Turn(Turn(m));
    assert forall r, c :: 0 <= r < 16 && 0 <= c < 16 ==> t[r][c] == m[15 - r][15 - c];
    var u := Turn(Turn(t));
    assert forall r, c :: 0 <= r < 16 && 0 <= c < 16 ==> u[r][c] == t[15 - r][15 - c];
    assert forall r :: 0 <= r < 16 ==> u[r] == m[r];
  }

  // ----- Rows as 16-bit numbers ------------------------------------------------------------

  /** The number of a row, split into its two bytes, gives back the row's pixels. */
  lemma RowBytes(row: seq<bit>, x: nat)
    requires |row| == 16 && x < 16
    ensures var v := Value(row);
            && v < 0x1_0000
            && row[x] == if x < 8 then Bit(v / 0x100, 7 - x) else Bit(v % 0x100, 15 - x)
  {
    var v := Value(row);
    ValueBound(row);
    Pow2Of8And16();
    BitsOfValue(row);
    BitsOfAt(v, 16, x);
    BitSplit(v % 0x100, v / 0x100, 8, 15 - x);
    assert v % 0x100 + 0x100 * (v / 0x100) == v;
  }

  lemma {:induction false} PackedAt(rows: seq<seq<bit>>, r: nat)
    requires forall r :: 0 <= r < |rows| ==> |rows[r]| == 16
    requires r < |rows|
    ensures Packed(rows)[2 * r] == Value(rows[r]) / 0x100 % 0x100
    ensures Packed(rows)[2 * r + 1] == Value(rows[r]) % 0x100
  {
    hide Value;
    if r < |rows| - 1 {
      PackedAt(rows[..|rows| - 1], r);
    }
  }

  /** Reading packed bytes back, two bytes a row, high byte first, leftmost pixel on top. */
  function Unpacked(bs: seq<byte>): Matrix
    requires |bs| == GLYPH_BYTES
  {
    seq(16, r requires 0 <= r < 16 => BitsOf(Le16(bs[2 * r + 1], bs[2 * r]), 16))
  }

  lemma UnpackedRowOfPacked(m: Matrix, r: nat)
    requires r < 16
    ensures Le16(Packed(m)[2 * r + 1], Packed(m)[2 * r]) == Value(m[r])
  {
    hide Packed, Value;
    PackedAt(m, r);
    RowBytes(m[r], 0);
  }

  lemma UnpackPacked(m: Matrix)
    ensures Unpacked(Packed(m)) == m
  {
    hide Packed, BitsOf, Value, Le16;
    var bs := Packed(m);
    forall r | 0 <= r < 16
      ensures Unpacked(bs)[r] == m[r]
    {
      UnpackedRowOfPacked(m, r);
      BitsOfValue(m[r]);
    }
  }

  lemma TwoBytes(hi: byte, lo: byte)
    ensures Le16(lo, hi) / 0x100 % 0x100 == hi && Le16(lo, hi) % 0x100 == lo
  {
  }

  lemma UnpackedRow(bs: seq<byte>, r: nat)
    requires |bs| == GLYPH_BYTES && r < 16
    ensures Value(Unpacked(bs)[r]) == Le16(bs[2 * r + 1], bs[2 * r])
  {
    hide BitsOf, Value;
    Pow2Of8And16();
    ValueOfBits(Le16(bs[2 * r + 1], bs[2 * r]), 16);
  }

  lemma PackUnpacked(bs: seq<byte>)
    requires |bs| == GLYPH_BYTES
    ensures Packed(Unpacked(bs)) == bs
  {
    hide Packed, Value, Unpacked, Le16;
    var m, out := Unpacked(bs), Packed(Unpacked(bs));
    forall i | 0 <= i < GLYPH_BYTES
      ensures out[i] == bs[i]
    {
      var r := i / 2;
      PackedAt(m, r);
      UnpackedRow(bs, r);
      TwoBytes(bs[2 * r], bs[2 * r + 1]);
      assert i == if i % 2 == 0 then 2 * r else 2 * r + 1;
    }
  }

  // ----- Decoding is a bijection ---------------------------------------------------------------

  /** The stored bytes whose stored matrix is `raw`: little-endian rows. */
  function Stored(raw: Matrix): (g: seq<byte>)
    ensures |g| == GLYPH_BYTES
  {
    seq(GLYPH_BYTES, i requires 0 <= i < GLYPH_BYTES =>
      if i % 2 == 0 then Value(raw[i / 2]) % 0x100 else Value(raw[i / 2]) / 0x100 % 0x100)
  }

  lemma StoredRowBit(g: seq<byte>, r: nat, x: nat)
    requires |g| == GLYPH_BYTES && r < 16 && x < 16
    ensures StoredMatrix(g)[r][x] == if x < 8 then Bit(g[2 * r + 1], 7 - x) else Bit(g[2 * r], 15 - x)
  {
    hide Bit;
    Pow2Of8And16();
    BitSplit(g[2 * r], g[2 * r + 1], 8, 15 - x);
    assert StoredRow(g, r)[x] == Bit(Le16(g[2 * r], g[2 * r + 1]), 15 - x);
  }

  lemma StoredBytes(raw: Matrix, r: nat)
    requires r < 16
    ensures Stored(raw)[2 * r] == Value(raw[r]) % 0x100 && Stored(raw)[2 * r + 1] == Value(raw[r]) / 0x100
  {
    hide Value, Pow2;
    ValueBound(raw[r]);
    Pow2Of8And16();
    assert (2 * r) / 2 == r && (2 * r + 1) / 2 == r;
  }

  lemma StoreThenRead(raw: Matrix)
    ensures StoredMatrix(Stored(raw)) == raw
  {
    hide Value, Bit, Stored, StoredMatrix;
    var m := StoredMatrix(Stored(raw));
    forall r | 0 <= r < 16
      ensures m[r] == raw[r]
    {
      forall x: nat | x < 16
        ensures m[r][x] == raw[r][x]
      {
        StoredBytes(raw, r);
        StoredRowBit(Stored(raw), r, x);
        RowBytes(raw[r], x);
      }
    }
  }

  lemma StoredRowValue(g: seq<byte>, r: nat)
    requires |g| == GLYPH_BYTES && r < 16
    ensures Value(StoredMatrix(g)[r]) == Le16(g[2 * r], g[2 * r + 1])
  {
    hide Bit, BitsOf, Value;
    var v := Le16(g[2 * r], g[2 * r + 1]);
    forall x: nat | x < 16
      ensures BitsOf(v, 16)[x] == StoredRow(g, r)[x]
    {
      BitsOfAt(v, 16, x);
    }
    assert BitsOf(v, 16) == StoredRow(g, r);
    Pow2Of8And16();
    ValueOfBits(v, 16);
  }

  lemma RestoredBytes(g: seq<byte>, r: nat)
    requires |g| == GLYPH_BYTES && r < 16
    ensures var s := Stored(StoredMatrix(g)); s[2 * r] == g[2 * r] && s[2 * r + 1] == g[2 * r + 1]
  {
    hide Value, Stored, StoredMatrix;
    StoredBytes(StoredMatrix(g), r);
    StoredRowValue(g, r);
    TwoBytes(g[2 * r + 1], g[2 * r]);
  }

  lemma ReadThenStore(g: seq<byte>)
    requires |g| == GLYPH_BYTES
    ensures Stored(StoredMatrix(g)) == g
  {
    hide Stored, StoredMatrix;
    var s := Stored(StoredMatrix(g));
    forall i | 0 <= i < GLYPH_BYTES
      ensures s[i] == g[i]
    {
      RestoredBytes(g, i / 2);
      assert i == if i % 2 == 0 then 2 * (i / 2) else 2 * (i / 2) + 1;
    }
  }

  /** Every upright glyph is the decoding of exactly one stored glyph. */
  lemma DecodeBijection(m: Matrix, g: seq<byte>)
    requires |g| == GLYPH_BYTES
    ensures Turn(StoredMatrix(g)) == m <==> g == Stored(Turn(Turn(Turn(m))))
  {
    hide Turn, Stored, StoredMatrix;
    FourTurns(m);
    FourTurns(StoredMatrix(g));
    ReadThenStore(g);
    StoreThenRead(Turn(Turn(Turn(m))));
  }

  /** A bit of an upright, packed glyph is a bit of the stored glyph. */
  lemma PackedBit(g: seq<byte>, r: nat, x: nat)
    requires |g| == GLYPH_BYTES && r < 16 && x < 16
    ensures Bit(Packed(Turn(StoredMatrix(g)))[2 * r + x / 8], 7 - x % 8) == Bit(g[2 * x + r / 8], r % 8)
  {
    hide Packed, Value, Bit, StoredMatrix;
    var m := Turn(StoredMatrix(g));
    PackedAt(m, r);
    RowBytes(m[r], x);
    assert m[r][x] == StoredMatrix(g)[x][15 - r];
    StoredRowBit(g, x, 15 - r);
  }

  /** Where each bit of the extracted font comes from: bit `x` of row `r` of glyph `cp`'s cell
      is bit `r` (counted from the low end) of row `x` of the stored glyph. */
  lemma ExtractedBit(blob: seq<byte>, out: seq<byte>, cp: nat, r: nat, x: nat)
    requires FIRST_CP < cp <= LAST_CP && r < 16 && x < 16
    requires |blob| >= (LAST_CP - 0x20) * GLYPH_BYTES && |out| == CellAt(LAST_CP + 1)
    requires IsCell(blob, cp, false, out[CellAt(cp)..CellAt(cp + 1)])
    ensures Bit(out[(cp - 0x20) * 32 + 2 * r + x / 8], 7 - x % 8)
         == Bit(blob[(cp - 0x21) * 32 + 2 * x + r / 8], r % 8)
  {
    hide Packed, Bit, StoredMatrix, Turn;
    var cell, g := out[CellAt(cp)..CellAt(cp + 1)], StoredGlyph(blob, cp);
    PackedBit(g, r, x);
    assert cell[2 * r + x / 8] == out[(cp - 0x20) * 32 + 2 * r + x / 8];
    assert g[2 * x + r / 8] == blob[(cp - 0x21) * 32 + 2 * x + r / 8];
  }
}
