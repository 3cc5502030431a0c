/** The corner-barcode encoder of src/examples/barcoder/barcoder.cpp.

    A frame is a flat, row-major array of `width * height` RGB pixels. A frame
    number is stamped into it as a grid of `codeSize x codeSize` squares, one
    per bit: bit `i` goes to grid cell `(i % rowBits, i / rowBits)`, black for
    1 and white for 0. The same grid is stamped twice, once anchored at the
    top-left corner of the frame and once anchored so that a full
    `rowBits x rowBits` grid ends at the bottom-right corner. */
module Barcoder {
  import opened Arith
  import opened Wrappers

  newtype byte = x: int | 0 <= x < 256

  datatype Pixel = Pixel(red: byte, green: byte, blue: byte)

  const Black: Pixel := Pixel(0, 0, 0)
  const White: Pixel := Pixel(255, 255, 255)

  /** The colour a square gets: black for a set bit, white for a clear one. */
  function Colour(bit: bool): (p: Pixel)
    ensures p == Black <==> bit
    ensures p == White <==> !bit
  {
    if bit then Black else White
  }

  datatype Corner = Upper | Lower

  /** The encoder's configuration: the frame size and the layout of the grid. */
  datatype Geometry = Geometry(width: nat, height: nat, codeSize: nat, rowBits: nat, totalBits: nat)
  {
    /** The configurations on which both corners are written within the frame:
        a full `rowBits x rowBits` grid of squares fits in each dimension and
        holds every bit, and `1 << i` stays within a 32-bit `int`. */
    predicate Fits() {
      codeSize >= 1 && rowBits >= 1 && width >= 1 && height >= 1 && totalBits <= 31 &&
      totalBits <= rowBits * rowBits &&
      codeSize * rowBits <= width && codeSize * rowBits <= height
    }

    /** The two corner grids cannot share a pixel. */
    predicate CornersApart() {
      2 * (codeSize * rowBits) <= width || 2 * (codeSize * rowBits) <= height
    }

    function OriginX(corner: Corner): int {
      if corner == Upper then 0 else width - codeSize * rowBits
    }

    function OriginY(corner: Corner): int {
      if corner == Upper then 0 else height - codeSize * rowBits
    }

    /** Left column of the square of bit `i` in `corner`. */
    function BlockX(corner: Corner, i: nat): int
      requires rowBits > 0
    {
      OriginX(corner) + (i % rowBits) * codeSize
    }

    /** Top row of the square of bit `i` in `corner`. */
    function BlockY(corner: Corner, i: nat): int
      requires rowBits > 0
    {
      OriginY(corner) + (i / rowBits) * codeSize
    }

    /** Pixel `k` lies in the `codeSize x codeSize` square whose top-left pixel is at column `x`, row `y`. */
    predicate InSquare(k: nat, x: int, y: int) {
      width > 0 &&
      y <= k / width < y + codeSize && x <= k % width < x + codeSize
    }

    /** Pixel `k` of the square at column `x`, row `y` has been painted by a
        row-by-row sweep that has reached row `i`, column `j`. */
    predicate Painted(k: nat, x: int, y: int, i: int, j: int) {
      width > 0 && y <= k / width && x <= k % width < x + codeSize &&
      (k / width < i || (k / width == i && k % width < j))
    }

    /** The pixel at row `r`, column `c` of the frame, flat index `r * width + c`,
        is in the square at column `x`, row `y` when its row and column are. */
    lemma SquarePixel(r: nat, c: nat, x: int, y: int)
      requires c < width && y <= r < y + codeSize && x <= c < x + codeSize
      ensures InSquare(r * width + c, x, y)
    {
      DivModUnique(r, c, width);
    }

    /** Painting column `j` of row `i` adds exactly the pixel at flat index `i * width + j`. */
    lemma PaintNext(k: nat, x: int, y: int, i: int, j: int)
      requires 0 <= j < width && x <= j < x + codeSize && y <= i
      ensures Painted(k, x, y, i, j + 1) <==> (Painted(k, x, y, i, j) || k == i * width + j)
    {
      DivModUnique(i, j, width);
      if k / width == i && k % width == j {
        assert k == (k / width) * width + k % width;
      }
    }

    /** The bit whose square in `corner` covers pixel `k`, computed from the
        pixel's position relative to the corner's origin (the inverse of the layout). */
    function Owner(corner: Corner, k: nat): Option<nat>
      requires Fits()
    {
      var c := k % width - OriginX(corner);
      var r := k / width - OriginY(corner);
      if c < 0 || r < 0 then None
      else
        var i := (r / codeSize) * rowBits + c / codeSize;
        MulNonneg(r / codeSize, rowBits);
        if c / codeSize < rowBits && i < totalBits then Some(i) else None
    }

    /** Pixel `k`, previously `p`, after the squares of bits `0 .. bits-1` of `n` were written in `corner`. */
    function PixelAfter(corner: Corner, p: Pixel, n: nat, k: nat, bits: nat): Pixel
      requires Fits()
    {
      match Owner(corner, k)
      case Some(i) => if i < bits then Colour(Bit(n, i)) else p
      case None => p
    }

    /** The frame `s` with frame number `n` stamped into `corner`. */
    function Stamp(corner: Corner, s: seq<Pixel>, n: nat): seq<Pixel>
      requires Fits()
    {
      seq(|s|, k requires 0 <= k < |s| => PixelAfter(corner, s[k], n, k, totalBits))
    }

    /** The frame `s` with frame number `n` stamped into both corners, upper first. */
    function Barcoded(s: seq<Pixel>, n: nat): seq<Pixel>
      requires Fits()
    {
      Stamp(Lower, Stamp(Upper, s, n), n)
    }

    /** Every bit's square lies within the frame. */
    lemma BlockFits(corner: Corner, i: nat)
      requires Fits() && i < totalBits
      ensures 0 <= BlockX(corner, i) && BlockX(corner, i) + codeSize <= width
      ensures 0 <= BlockY(corner, i) && BlockY(corner, i) + codeSize <= height
    {
      CellFits(i, codeSize, rowBits, totalBits);
    }

    /** Pixel `k` is in the square of bit `i` exactly when bit `i` owns it:
        the loop's writes and the layout's inverse agree. */
    lemma OwnerIff(corner: Corner, k: nat, i: nat)
      requires Fits() && i < totalBits
      ensures InSquare(k, BlockX(corner, i), BlockY(corner, i)) <==> Owner(corner, k) == Some(i)
    {
      var c := k % width - OriginX(corner);
      var r := k / width - OriginY(corner);
      CellIff(r, c, i, codeSize, rowBits);
    }

    /** The pixel sampled to read bit `i` back: the top-left pixel of its square. */
    function Sample(corner: Corner, i: nat): (k: nat)
      requires Fits() && i < totalBits
      ensures k < width * height
      ensures InSquare(k, BlockX(corner, i), BlockY(corner, i))
    {
      BlockFits(corner, i);
      IndexInBounds(BlockY(corner, i), BlockX(corner, i), width, height);
      DivModUnique(BlockY(corner, i), BlockX(corner, i), width);
      BlockY(corner, i) * width + BlockX(corner, i)
    }

    /** A ghost reading of bits `0 .. bits-1` from `corner`: bit `i` is 1
        when the sampled pixel of its square is black. This is a reference
        reader derived from the encoder's layout, not the repository's
        decoder, whose source is not part of this model. */
    ghost function ReadBits(corner: Corner, s: seq<Pixel>, bits: nat): nat
      requires Fits() && |s| == width * height && bits <= totalBits
    {
      if bits == 0 then 0
      else ReadBits(corner, s, bits - 1) + (if s[Sample(corner, bits - 1)] == Black then Pow2(bits - 1) else 0)
    }

    ghost function ReadCorner(corner: Corner, s: seq<Pixel>): nat
      requires Fits() && |s| == width * height
    {
      ReadBits(corner, s, totalBits)
    }

    /** Distinct bits of one corner have disjoint squares. */
    lemma BlocksDisjoint(corner: Corner, i: nat, j: nat, k: nat)
      requires Fits() && i < totalBits && j < totalBits && i != j
      ensures !(InSquare(k, BlockX(corner, i), BlockY(corner, i)) && InSquare(k, BlockX(corner, j), BlockY(corner, j)))
    {
      OwnerIff(corner, k, i);
      OwnerIff(corner, k, j);
    }

    /** Every pixel of the square of bit `i` gets the colour of bit `i` of `n`. */
    lemma StampBlock(corner: Corner, s: seq<Pixel>, n: nat, i: nat, dy: nat, dx: nat)
      requires Fits() && |s| == width * height && i < totalBits
      requires dy < codeSize && dx < codeSize
      ensures 0 <= (BlockY(corner, i) + dy) * width + (BlockX(corner, i) + dx) < |s|
      ensures Owner(corner, (BlockY(corner, i) + dy) * width + (BlockX(corner, i) + dx)) == Some(i)
      ensures Stamp(corner, s, n)[(BlockY(corner, i) + dy) * width + (BlockX(corner, i) + dx)] == Colour(Bit(n, i))
    {
      var r, c := BlockY(corner, i) + dy, BlockX(corner, i) + dx;
      BlockFits(corner, i);
      IndexInBounds(r, c, width, height);
      DivModUnique(r, c, width);
      OwnerIff(corner, r * width + c, i);
    }

    /** Stamping `corner` changes only pixels inside its squares. */
    lemma StampOnlyBlocks(corner: Corner, s: seq<Pixel>, n: nat, k: nat)
      requires Fits() && k < |s|
      ensures Stamp(corner, s, n)[k] != s[k] ==>
        exists i: nat :: i < totalBits && InSquare(k, BlockX(corner, i), BlockY(corner, i))
    {
      if Owner(corner, k).Some? {
        var i := Owner(corner, k).value;
        OwnerIff(corner, k, i);
      }
    }

    /** Only the low `totalBits` bits of the frame number reach the pixels,
        so the frame number wraps around modulo `2^totalBits`. */
    lemma StampLowBits(corner: Corner, s: seq<Pixel>, n: nat)
      requires Fits()
      ensures Stamp(corner, s, n) == Stamp(corner, s, n % Pow2(totalBits))
    {
      forall k | 0 <= k < |s|
        ensures Stamp(corner, s, n)[k] == Stamp(corner, s, n % Pow2(totalBits))[k]
      {
        if Owner(corner, k).Some? {
          BitOfLow(n, totalBits, Owner(corner, k).value);
        }
      }
    }

    /** Reading a stamped corner back yields the low `bits` bits of the frame number. */
    lemma {:induction false} ReadStampedBits(corner: Corner, s: seq<Pixel>, n: nat, bits: nat)
      requires Fits() && |s| == width * height && bits <= totalBits
      ensures ReadBits(corner, Stamp(corner, s, n), bits) == n % Pow2(bits)
    {
      if bits > 0 {
        ReadStampedBits(corner, s, n, bits - 1);
        var k := Sample(corner, bits - 1);
        OwnerIff(corner, k, bits - 1);
        ModPow2Step(n, bits - 1);
      }
    }

    /** Two frames that agree on the sampled pixels of `corner` read the same. */
    lemma {:induction false} ReadAgree(corner: Corner, s: seq<Pixel>, t: seq<Pixel>, bits: nat)
      requires Fits() && |s| == width * height && |t| == |s| && bits <= totalBits
      requires forall i: nat :: i < bits ==> s[Sample(corner, i)] == t[Sample(corner, i)]
      ensures ReadBits(corner, s, bits) == ReadBits(corner, t, bits)
    {
      if bits > 0 {
        ReadAgree(corner, s, t, bits - 1);
      }
    }

    lemma DivBelow(x: int, d: int, m: int)
      requires x >= 0 && d > 0 && x / d < m
      ensures x < m * d
    {
      MulMonoLeft(x / d, m - 1, d);
      assert (m - 1) * d + d == m * d;
    }

    /** A pixel owned in the upper corner lies in the top-left `codeSize * rowBits` square. */
    lemma UpperOwnedNearOrigin(k: nat)
      requires Fits() && Owner(Upper, k).Some?
      ensures k % width < codeSize * rowBits && k / width < codeSize * rowBits
    {
      var c, r := k % width, k / width;
      DivBelow(c, codeSize, rowBits);
      RowBelow(r / codeSize, rowBits, c / codeSize, totalBits);
      DivBelow(r, codeSize, rowBits);
    }

    /** When the corners are apart, no pixel is owned in both. */
    lemma CornersDisjoint(k: nat)
      requires Fits() && CornersApart()
      ensures !(Owner(Upper, k).Some? && Owner(Lower, k).Some?)
    {
      var p := codeSize * rowBits;
      if k % width < p && k / width < p {
        assert Owner(Lower, k).None? by {
          assert k % width - OriginX(Lower) < 0 || k / width - OriginY(Lower) < 0;
        }
      } else if Owner(Upper, k).Some? {
        UpperOwnedNearOrigin(k);
        assert false;
      }
    }

    /** Round trip: the lower corner of a barcoded frame reads back as the
        frame number modulo `2^totalBits`, and so does the upper corner when
        the corners are apart (otherwise the lower grid may overwrite it). */
    lemma BarcodedReadsBack(s: seq<Pixel>, n: nat)
      requires Fits() && |s| == width * height
      ensures ReadCorner(Lower, Barcoded(s, n)) == n % Pow2(totalBits)
      ensures CornersApart() ==> ReadCorner(Upper, Barcoded(s, n)) == n % Pow2(totalBits)
    {
      var u := Stamp(Upper, s, n);
      ReadStampedBits(Lower, u, n, totalBits);
      if CornersApart() {
        ReadStampedBits(Upper, s, n, totalBits);
        forall i: nat | i < totalBits
          ensures u[Sample(Upper, i)] == Barcoded(s, n)[Sample(Upper, i)]
        {
          var k := Sample(Upper, i);
          OwnerIff(Upper, k, i);
          CornersDisjoint(k);
        }
        ReadAgree(Upper, u, Barcoded(s, n), totalBits);
      }
    }

    /** After `barcodeFrame` the squares of the lower corner carry the bits of `n`,
        and so do those of the upper corner when the corners are apart. */
    lemma BarcodedBlock(corner: Corner, s: seq<Pixel>, n: nat, i: nat, dy: nat, dx: nat)
      requires Fits() && |s| == width * height && i < totalBits
      requires corner == Upper ==> CornersApart()
      requires dy < codeSize && dx < codeSize
      ensures 0 <= (BlockY(corner, i) + dy) * width + (BlockX(corner, i) + dx) < |s|
      ensures Barcoded(s, n)[(BlockY(corner, i) + dy) * width + (BlockX(corner, i) + dx)] == Colour(Bit(n, i))
    {
      var u := Stamp(Upper, s, n);
      StampBlock(corner, s, n, i, dy, dx);
      StampBlock(corner, u, n, i, dy, dx);
      if corner == Upper {
        LowerKeepsUpper(u, n, (BlockY(Upper, i) + dy) * width + (BlockX(Upper, i) + dx));
      }
    }

    /** When the corners are apart, stamping the lower corner keeps every pixel the upper corner owns. */
    lemma LowerKeepsUpper(u: seq<Pixel>, n: nat, k: nat)
      requires Fits() && CornersApart() && k < |u| && Owner(Upper, k).Some?
      ensures Stamp(Lower, u, n)[k] == u[k]
    {
      CornersDisjoint(k);
    }

    /** `barcodeFrame` changes only pixels inside the `2 * totalBits` squares. */
    lemma BarcodedOnlyBlocks(s: seq<Pixel>, n: nat, k: nat)
      requires Fits() && k < |s|
      ensures Barcoded(s, n)[k] != s[k] ==>
        exists corner: Corner, i: nat :: i < totalBits && InSquare(k, BlockX(corner, i), BlockY(corner, i))
    {
      if Owner(Lower, k).Some? {
        var i := Owner(Lower, k).value;
        OwnerIff(Lower, k, i);
      } else if Owner(Upper, k).Some? {
        var i := Owner(Upper, k).value;
        OwnerIff(Upper, k, i);
      }
    }

    /** Barcoding `a` and then `b` leaves the frame as barcoding `b` alone. */
    lemma BarcodedOverwrite(s: seq<Pixel>, a: nat, b: nat)
      requires Fits()
      ensures Barcoded(Barcoded(s, a), b) == Barcoded(s, b)
    {
      assert forall k | 0 <= k < |s| :: Barcoded(Barcoded(s, a), b)[k] == Barcoded(s, b)[k];
    }

    /** The barcoded frame depends only on the low `totalBits` bits of the frame number. */
    lemma BarcodedLowBits(s: seq<Pixel>, n: nat)
      requires Fits()
      ensures Barcoded(s, n) == Barcoded(s, n % Pow2(totalBits))
      ensures Barcoded(s, Pow2(totalBits)) == Barcoded(s, 0)
    {
      StampLowBits(Upper, s, n);
      StampLowBits(Lower, Stamp(Upper, s, n), n);
      StampLowBits(Upper, s, Pow2(totalBits));
      StampLowBits(Lower, Stamp(Upper, s, Pow2(totalBits)), Pow2(totalBits));
    }
  }

  /** The value stamped by successive `barcodeFrame` calls is the call count
      modulo `2^totalBits`, also across the wrap of the 64-bit counter. */
  lemma FrameCounterWrap(n: nat, t: nat)
    requires t <= 64
    ensures ((n + 1) % U64) % Pow2(t) == (n + 1) % Pow2(t)
  {
    Pow2Of64();
    Pow2Add(t, 64 - t);
    var a, b := Pow2(t), Pow2(64 - t);
    assert a * b == U64;
    ModMod(n + 1, a, b);
  }

  /** The encoder object: the frame geometry and the next frame number. */
  class Barcoder {
    const width: nat
    const height: nat
    const codeSize: nat
    const rowBits: nat
    const totalBits: nat
    var nextFrameno: uint64

    function Layout(): Geometry {
      Geometry(width, height, codeSize, rowBits, totalBits)
    }

    constructor (width: nat, height: nat, codeSize: nat, rowBits: nat, totalBits: nat)
      ensures Layout() == Geometry(width, height, codeSize, rowBits, totalBits)
      ensures nextFrameno == 0
    {
      this.width, this.height := width, height;
      this.codeSize, this.rowBits, this.totalBits := codeSize, rowBits, totalBits;
      nextFrameno := 0;
    }

    /** Paints the `codeSize x codeSize` square with top-left pixel at column `x`, row `y`. */
    method WriteBit(frame: array<Pixel>, x: int, y: int, bit: bool)
      requires frame.Length == width * height
      requires 0 <= x && x + codeSize <= width && 0 <= y && y + codeSize <= height
      modifies frame
      ensures forall k :: 0 <= k < frame.Length ==>
        frame[k] == if Layout().InSquare(k, x, y) then Colour(bit) else old(frame[k])
    {
      var g := Layout();
      var i := y;
      while i < y + codeSize
        invariant y <= i <= y + codeSize
        invariant forall k :: 0 <= k < frame.Length ==>
          frame[k] == if g.Painted(k, x, y, i, x) then Colour(bit) else old(frame[k])
      {
        var j := x;
        while j < x + codeSize
          invariant x <= j <= x + codeSize
          invariant forall k :: 0 <= k < frame.Length ==>
            frame[k] == if g.Painted(k, x, y, i, j) then Colour(bit) else old(frame[k])
        {
          forall k: nat | k < frame.Length
            ensures g.Painted(k, x, y, i, j + 1) <==> (g.Painted(k, x, y, i, j) || k == i * width + j)
          {
            g.PaintNext(k, x, y, i, j);
          }
          IndexInBounds(i, j, width, height);
          frame[i * width + j] := Colour(bit);
          j := j + 1;
        }
        i := i + 1;
      }
    }

    /** Stamps `frameno` into the top-left corner. */
    method BarcodeFrameUpper(frame: array<Pixel>, frameno: uint64)
      requires Layout().Fits() && frame.Length == width * height
      modifies frame
      ensures frame[..] == Layout().Stamp(Upper, old(frame[..]), frameno as nat)
    {
      var g := Layout();
      var i := 0;
      while i < totalBits
        invariant 0 <= i <= totalBits
        invariant forall k :: 0 <= k < frame.Length ==>
          frame[k] == g.PixelAfter(Upper, old(frame[k]), frameno as nat, k, i)
      {
        forall k: nat | k < frame.Length
          ensures g.InSquare(k, g.BlockX(Upper, i), g.BlockY(Upper, i)) <==> g.Owner(Upper, k) == Some(i)
        {
          g.OwnerIff(Upper, k, i);
        }
        g.BlockFits(Upper, i);
        WriteBit(frame, (i % rowBits) * codeSize, (i / rowBits) * codeSize, Bit(frameno as nat, i));
        i := i + 1;
      }
      assert forall k | 0 <= k < frame.Length ::
        frame[..][k] == g.Stamp(Upper, old(frame[..]), frameno as nat)[k];
    }

    /** Stamps `frameno` into the bottom-right corner. */
    method BarcodeFrameLower(frame: array<Pixel>, frameno: uint64)
      requires Layout().Fits() && frame.Length == width * height
      modifies frame
      ensures frame[..] == Layout().Stamp(Lower, old(frame[..]), frameno as nat)
    {
      var g := Layout();
      var i := 0;
      while i < totalBits
        invariant 0 <= i <= totalBits
        invariant forall k :: 0 <= k < frame.Length ==>
          frame[k] == g.PixelAfter(Lower, old(frame[k]), frameno as nat, k, i)
      {
        forall k: nat | k < frame.Length
          ensures g.InSquare(k, g.BlockX(Lower, i), g.BlockY(Lower, i)) <==> g.Owner(Lower, k) == Some(i)
        {
          g.OwnerIff(Lower, k, i);
        }
        g.BlockFits(Lower, i);
        WriteBit(frame, (width - codeSize * rowBits) + (i % rowBits) * codeSize,
                 (height - codeSize * rowBits) + (i / rowBits) * codeSize, Bit(frameno as nat, i));
        i := i + 1;
      }
      assert forall k | 0 <= k < frame.Length ::
        frame[..][k] == g.Stamp(Lower, old(frame[..]), frameno as nat)[k];
    }

    /** Stamps the next frame number into both corners and advances it;
        `uint64_t` increment wraps at `2^64`. */
    method BarcodeFrame(frame: array<Pixel>)
      requires Layout().Fits() && frame.Length == width * height
      modifies this, frame
      ensures frame[..] == Layout().Barcoded(old(frame[..]), old(nextFrameno) as nat)
      ensures nextFrameno as int == (old(nextFrameno) as int + 1) % U64
    {
      BarcodeFrameUpper(frame, nextFrameno);
      BarcodeFrameLower(frame, nextFrameno);
      nextFrameno := ((nextFrameno as int + 1) % U64) as uint64;
    }
  }
}
