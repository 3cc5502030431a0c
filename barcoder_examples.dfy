/** A worked instance of the corner barcode: a 64 x 64 frame with 4 x 4 squares,
    two to a row, four bits in all. The upper grid covers columns and rows 0-7,
    the lower grid columns and rows 56-63. */
module BarcoderExamples {
  import opened Arith
  import opened Barcoder

  predicate IsSmall(g: Geometry) {
    g.width == 64 && g.height == 64 && g.codeSize == 4 && g.rowBits == 2 && g.totalBits == 4
  }

  /** The bits of 5 (binary 0101). */
  lemma BitsOfFive()
    ensures Bit(5, 0) && !Bit(5, 1) && Bit(5, 2) && !Bit(5, 3)
  {
    assert Pow2(1) == 2 && Pow2(2) == 4 && Pow2(3) == 8;
  }

  /** Pixel `(dx, dy)` of the square of bit `i` in `corner`, after barcoding frame 5:
      the square sits at column `o + (i % 2) * 4`, row `o + (i / 2) * 4`, where the
      corner's origin `o` is 0 for the upper corner and 64 - 8 = 56 for the lower one. */
  lemma SmallSquare(g: Geometry, s: seq<Pixel>, corner: Corner, i: nat, dy: nat, dx: nat)
    requires IsSmall(g) && |s| == 64 * 64 && i < 4 && dy < 4 && dx < 4
    ensures g.Fits()
    ensures var o := if corner == Upper then 0 else 56;
      g.Barcoded(s, 5)[(o + (i / 2) * 4 + dy) * 64 + (o + (i % 2) * 4 + dx)] == Colour(Bit(5, i))
  {
    assert g.Fits() && g.CornersApart();
    var o := if corner == Upper then 0 else 56;
    assert g.BlockX(corner, i) == o + (i % 2) * 4 && g.BlockY(corner, i) == o + (i / 2) * 4;
    g.BarcodedBlock(corner, s, 5, i, dy, dx);
  }

  /** Frame number 5 in the upper corner: the squares of bits 0 and 2, at columns 0-3,
      rows 0-3 and at columns 0-3, rows 4-7, are black; those of bits 1 and 3, at
      columns 4-7, rows 0-3 and at columns 4-7, rows 4-7, are white. */
  lemma ExampleFiveUpper(g: Geometry, s: seq<Pixel>, dy: nat, dx: nat)
    requires IsSmall(g) && |s| == 64 * 64 && dy < 4 && dx < 4
    ensures g.Fits()
    ensures g.Barcoded(s, 5)[dy * 64 + dx] == Black
    ensures g.Barcoded(s, 5)[dy * 64 + (4 + dx)] == White
    ensures g.Barcoded(s, 5)[(4 + dy) * 64 + dx] == Black
    ensures g.Barcoded(s, 5)[(4 + dy) * 64 + (4 + dx)] == White
  {
    BitsOfFive();
    SmallSquare(g, s, Upper, 0, dy, dx);
    SmallSquare(g, s, Upper, 1, dy, dx);
    SmallSquare(g, s, Upper, 2, dy, dx);
    SmallSquare(g, s, Upper, 3, dy, dx);
  }
  /** Frame number 5 in the lower corner: the squares of bits 0 and 2, at columns 56-59,
      rows 56-59 and at columns 56-59, rows 60-63, are black; those of bits 1 and 3, at
      columns 60-63, rows 56-59 and at columns 60-63, rows 60-63, are white. */
  lemma ExampleFiveLower(g: Geometry, s: seq<Pixel>, dy: nat, dx: nat)
    requires IsSmall(g) && |s| == 64 * 64 && dy < 4 && dx < 4
    ensures g.Fits()
    ensures g.Barcoded(s, 5)[(56 + dy) * 64 + (56 + dx)] == Black
    ensures g.Barcoded(s, 5)[(56 + dy) * 64 + (60 + dx)] == White
    ensures g.Barcoded(s, 5)[(60 + dy) * 64 + (56 + dx)] == Black
    ensures g.Barcoded(s, 5)[(60 + dy) * 64 + (60 + dx)] == White
  {
    BitsOfFive();
    SmallSquare(g, s, Lower, 0, dy, dx);
    SmallSquare(g, s, Lower, 1, dy, dx);
    SmallSquare(g, s, Lower, 2, dy, dx);
    SmallSquare(g, s, Lower, 3, dy, dx);
  }

  /** Both corners of frame number 5 read back as 5. */
  lemma ExampleFiveReads(g: Geometry, s: seq<Pixel>)
    requires IsSmall(g) && |s| == 64 * 64
    ensures g.Fits()
    ensures g.ReadCorner(Upper, g.Barcoded(s, 5)) == 5
    ensures g.ReadCorner(Lower, g.Barcoded(s, 5)) == 5
  {
    assert Pow2(4) == 16 by {
      assert Pow2(1) == 2 && Pow2(2) == 4 && Pow2(3) == 8;
    }
    assert 5 % Pow2(g.totalBits) == 5;
    assert g.Fits() && g.CornersApart();
    g.BarcodedReadsBack(s, 5);
  }
}
