/** Whole images in libdither/image_dither.cpp: blocks of 16 by 16 pixels taken four
    at a time along the rows of blocks, the blocks left over one at a time, and the
    strips at the right and at the bottom.
 */
module DitherImage {
  import opened Bits
  import opened DitherBlock
  import opened HilbertCurve
  import opened HilbertTable

  // -------------------------------------------------------------- the offset tables

  /** Where cell i of a block lies, from the first pixel of the block. */
  function Offset(c: nat, i: nat, width: nat): nat
    requires c < 4 && i < 256
  {
    var p := Cell(c, i);
    Linear(p.y, p.x, width)
  }

  function Linear(y: nat, x: nat, width: nat): nat { y * width + x }

  /** What _calc_offset_table stores: a uint16_t. */
  function Stored(c: nat, i: nat, width: nat): nat
    requires c < 4 && i < 256
  {
    Offset(c, i, width) % 65536
  }

  lemma {:induction false} OffsetBound(c: nat, i: nat, width: nat)
    requires c < 4 && i < 256
    ensures 0 <= Offset(c, i, width) <= 15 * width + 15
  {
    hide Cell;
    var p := Cell(c, i);
    assert p.y * width <= 15 * width;
  }

  /** The stored offsets are right, all 1024 of them, if and only if the image is at
      most 4368 pixels wide. */
  lemma {:induction false} OffsetsExactIff(width: nat)
    ensures (forall c, i :: 0 <= c < 4 && 0 <= i < 256 ==> Stored(c, i, width) == Offset(c, i, width))
            <==> width <= 4368
  {
    hide Cell, CellIndex;
    if width <= 4368 {
      forall c, i | 0 <= c < 4 && 0 <= i < 256
        ensures Stored(c, i, width) == Offset(c, i, width)
      {
        OffsetBound(c, i, width);
      }
    } else {
      var far := Point(15, 15);
      var i := CellIndex(0, far);
      CellOnce(0, i, far);
      assert Offset(0, i, width) == 15 * width + 15;
      assert Stored(0, i, width) != Offset(0, i, width);
    }
  }

  /** _calc_offset_table. */
  method CalcOffsetTable(coorTbl: seq<int>, width: nat, ghost c: nat) returns (offsetTbl: seq<nat>)
    requires c < 4 && IsTable(coorTbl, c)
    ensures |offsetTbl| == 256 && forall i :: 0 <= i < 256 ==> offsetTbl[i] == Stored(c, i, width)
  {
    hide Cell, Table;
    offsetTbl := [];
    for i := 0 to 256
      invariant |offsetTbl| == i && forall k :: 0 <= k < i ==> offsetTbl[k] == Stored(c, k, width)
    {
      TableEntry(coorTbl, c, i);
      var x, y := coorTbl[2 * i], coorTbl[2 * i + 1];
      assert Linear(y, x, width) % 65536 == Stored(c, i, width);
      offsetTbl := offsetTbl + [(y * width + x) % 65536];
    }
  }

  // ------------------------------------------------------------------ the geometry

  function Column(p: nat, width: nat): nat { if width == 0 then 0 else p % width }

  function Line(p: nat, width: nat): nat { if width == 0 then 0 else p / width }

  lemma {:induction false} SameDivision(a: nat, r: nat, b: nat, s: nat, width: nat)
    requires a * width + r == b * width + s && r < width && s < width
    ensures a == b && r == s
  {
    if a < b {
      Multiples(a, b, width);
      assert false;
    } else if b < a {
      Multiples(b, a, width);
      assert false;
    }
  }

  lemma {:induction false} Multiples(a: nat, b: nat, width: nat)
    requires a < b
    ensures a * width + width <= b * width
  {
    assert (a + 1) * width == a * width + width;
    assert (a + 1) * width <= b * width;
  }

  lemma {:induction false} Unique(line: nat, column: nat, width: nat)
    requires column < width
    ensures (line * width + column) / width == line && (line * width + column) % width == column
  {
    var p := line * width + column;
    Divide(p, width);
    SameDivision(p / width, p % width, line, column, width);
  }

  lemma {:induction false} Divide(p: nat, width: nat)
    requires width > 0
    ensures p == p / width * width + p % width && 0 <= p % width < width
  {
  }

  /** Blocks in a row of blocks, and rows of blocks. */
  function Across(width: nat): nat { width / 16 }

  function Base(k: nat, width: nat): nat
    requires width >= 16
  {
    k / Across(width) * (16 * width) + k % Across(width) * 16
  }

  /** The position belongs to the part of the image covered by whole blocks. */
  predicate InBlocks(p: nat, width: nat, height: nat) {
    Column(p, width) < 16 * Across(width) && Line(p, width) < 16 * Across(height)
  }

  /** Which block, and which place inside it. */
  function BlockOf(p: nat, width: nat): nat { Line(p, width) / 16 * Across(width) + Column(p, width) / 16 }

  function InBlock16(p: nat, width: nat): (q: Point)
    ensures InBlock(q)
  {
    Point(Column(p, width) % 16, Line(p, width) % 16)
  }

  lemma {:induction false} BaseAt(br: nat, bc: nat, width: nat)
    requires width >= 16 && bc < Across(width)
    ensures Base(br * Across(width) + bc, width) == br * (16 * width) + bc * 16
  {
    hide Across;
    AcrossPositive(width);
    Unique(br, bc, Across(width));
  }

  lemma {:induction false} AcrossPositive(width: nat)
    requires width >= 16
    ensures Across(width) > 0 && 16 * Across(width) <= width
  {
  }

  lemma {:induction false} Regroup(br: nat, y: nat, width: nat)
    ensures br * (16 * width) + y * width == (16 * br + y) * width
  {
  }

  /** A pixel of block (br, bc), by its place inside the block. */
  lemma {:induction false} PixelOf(br: nat, bc: nat, x: nat, y: nat, width: nat)
    requires width >= 16 && bc < Across(width) && x < 16 && y < 16
    ensures var p := br * (16 * width) + bc * 16 + y * width + x;
            Column(p, width) == 16 * bc + x && Line(p, width) == 16 * br + y
            && BlockOf(p, width) == br * Across(width) + bc && InBlock16(p, width) == Point(x, y)
  {
    var p := br * (16 * width) + bc * 16 + y * width + x;
    AcrossPositive(width);
    Regroup(br, y, width);
    assert p == (16 * br + y) * width + (16 * bc + x);
    Unique(16 * br + y, 16 * bc + x, width);
    assert (16 * br + y) / 16 == br && (16 * bc + x) / 16 == bc;
  }

  /** Every position in the part covered by blocks is the pixel of its block at its
      place: nothing is left out and nothing is shared. */
  lemma {:induction false} PositionOf(p: nat, width: nat, height: nat)
    requires width >= 16 && InBlocks(p, width, height)
    ensures BlockOf(p, width) < Across(width) * Across(height)
    ensures Base(BlockOf(p, width), width) + InBlock16(p, width).y * width + InBlock16(p, width).x == p
  {
    var line, column := Line(p, width), Column(p, width);
    var br, bc := line / 16, column / 16;
    Divide(p, width);
    BaseAt(br, bc, width);
    Regroup(br, line % 16, width);
    assert br < Across(height) && bc < Across(width);
    RowMajor(br, bc, Across(width), Across(height));
  }

  lemma {:induction false} RowMajor(br: nat, bc: nat, h: nat, v: nat)
    requires br < v && bc < h
    ensures br * h + bc < h * v
  {
    assert (br + 1) * h <= v * h;
  }

  function Total(width: nat, height: nat): nat { Across(width) * Across(height) }

  function Offsets(c: nat, width: nat): (s: seq<nat>)
    requires c < 4
    ensures |s| == 256
  {
    seq(256, i requires 0 <= i < 256 => Offset(c, i, width))
  }

  /** Cell i of block k, with any curve: it lies in the image, and knows its block and
      its cell. */
  lemma {:induction false} CellOfBlock(k: nat, c: nat, i: nat, width: nat, height: nat)
    requires k < Total(width, height) && c < 4 && i < 256
    ensures width >= 16
    ensures var p := Base(k, width) + Offset(c, i, width);
            && p < width * height && InBlocks(p, width, height)
            && BlockOf(p, width) == k && CellIndex(c, InBlock16(p, width)) == i
  {
    hide Cell, CellIndex;
    SomeBlocks(k, width, height);
    var h := Across(width);
    var br, bc := k / h, k % h;
    Divide(k, h);
    var cell := Cell(c, i);
    PixelOf(br, bc, cell.x, cell.y, width);
    CellOnce(c, i, cell);
    var p := Base(k, width) + Offset(c, i, width);
    assert p == br * (16 * width) + bc * 16 + cell.y * width + cell.x;
    RowOf(k, h, Across(height));
    assert Line(p, width) < height;
    Divide(p, width);
    RowMajor(Line(p, width), Column(p, width), width, height);
  }

  lemma {:induction false} SomeBlocks(k: nat, width: nat, height: nat)
    requires k < Total(width, height)
    ensures width >= 16 && height >= 16 && Across(width) > 0
  {
    assert width < 16 ==> Total(width, height) == 0;
    assert height < 16 ==> Total(width, height) == 0;
  }

  lemma {:induction false} RowOf(k: nat, h: nat, v: nat)
    requires h > 0 && k < h * v
    ensures k / h < v
  {
    Divide(k, h);
    var q := k / h;
    assert q >= v ==> q * h >= v * h;
  }

  // ------------------------------------------------- what the whole image becomes

  /** The mask 0xfff8fcf8. */
  function Masked(p: Pixel): (r: Pixel)
    ensures r.a == p.a && On565(r)
  {
    Pixel(p.a, p.r - p.r % 8, p.g - p.g % 4, p.b - p.b % 8)
  }

  /** Block k uses curve k % 4, and the narrow path if it is one of a full group of four. */
  predicate Grouped(k: nat, width: nat, height: nat) { k / 4 < Total(width, height) / 4 }

  ghost function Output(image: seq<Pixel>, width: nat, height: nat, p: nat): Pixel
    requires |image| == width * height && p < |image|
  {
    if InBlocks(p, width, height) then
      BlockKnown(p, width, height);
      var k := BlockOf(p, width);
      BlockOut(Grouped(k, width, height), BlockPixels(image, width, height, k), CellIndex(k % 4, InBlock16(p, width)))
    else Masked(image[p])
  }

  ghost function BlockPixels(image: seq<Pixel>, width: nat, height: nat, k: nat): (xs: seq<Pixel>)
    requires |image| == width * height && k < Total(width, height)
    ensures |xs| == 256
  {
    BlockInside(k, k % 4, width, height);
    Taken(image, Base(k, width), Offsets(k % 4, width))
  }

  lemma {:induction false} BlockInside(k: nat, c: nat, width: nat, height: nat)
    requires k < Total(width, height) && c < 4
    ensures width >= 16 && forall i :: 0 <= i < 256 ==> Base(k, width) + Offsets(c, width)[i] < width * height
  {
    hide Offset;
    SomeBlocks(k, width, height);
    forall i | 0 <= i < 256
      ensures Base(k, width) + Offsets(c, width)[i] < width * height
    {
      CellOfBlock(k, c, i, width, height);
    }
  }

  lemma {:induction false} BlockKnown(p: nat, width: nat, height: nat)
    requires InBlocks(p, width, height)
    ensures width >= 16 && BlockOf(p, width) < Total(width, height)
  {
    PositionOf(p, width, height);
  }

  /** In every image every pixel keeps its alpha byte and lands on the 5-6-5 grid. */
  lemma {:induction false} OutputKeepsAlpha(image: seq<Pixel>, width: nat, height: nat, p: nat)
    requires |image| == width * height && p < |image|
    ensures Output(image, width, height, p).a == image[p].a && On565(Output(image, width, height, p))
  {
    hide BlockOut, Cell, CellIndex, Base, InBlocks, BlockOf, InBlock16, Grouped;
    if InBlocks(p, width, height) {
      BlockKnown(p, width, height);
      var k := BlockOf(p, width);
      var i := CellIndex(k % 4, InBlock16(p, width));
      BlockKeepsAlpha(Grouped(k, width, height), BlockPixels(image, width, height, k), i);
      CellBack(p, k % 4, width, height);
    }
  }

  /** An image that is on the grid already stays as it is ... */
  lemma {:induction false} GridImageUntouched(image: seq<Pixel>, width: nat, height: nat, p: nat)
    requires |image| == width * height && p < |image| && forall k :: 0 <= k < |image| ==> On565(image[k])
    ensures Output(image, width, height, p) == image[p]
  {
    hide BlockOut, Cell, CellIndex, Base, InBlocks, BlockOf, InBlock16, Grouped, Offset;
    if InBlocks(p, width, height) {
      BlockKnown(p, width, height);
      var k := BlockOf(p, width);
      var i := CellIndex(k % 4, InBlock16(p, width));
      var xs := BlockPixels(image, width, height, k);
      BlockInside(k, k % 4, width, height);
      GridBlockUntouched(Grouped(k, width, height), xs, i);
      CellBack(p, k % 4, width, height);
    }
  }

  /** ... so dithering twice is the same as dithering once. */
  lemma {:induction false} DitherTwice(image: seq<Pixel>, once: seq<Pixel>, width: nat, height: nat, p: nat)
    requires |image| == width * height == |once| && p < |image|
    requires forall k :: 0 <= k < |image| ==> once[k] == Output(image, width, height, k)
    ensures Output(once, width, height, p) == once[p]
  {
    hide Output;
    forall k | 0 <= k < |image|
      ensures On565(once[k])
    {
      OutputKeepsAlpha(image, width, height, k);
    }
    GridImageUntouched(once, width, height, p);
  }

  /** The cell a position is at leads back to the position. */
  lemma {:induction false} CellBack(p: nat, c: nat, width: nat, height: nat)
    requires InBlocks(p, width, height) && c < 4
    ensures width >= 16 && Base(BlockOf(p, width), width) + Offset(c, CellIndex(c, InBlock16(p, width)), width) == p
  {
    hide Cell, CellIndex;
    BlockKnown(p, width, height);
    PositionOf(p, width, height);
    CellOnce(c, 0, InBlock16(p, width));
  }

  /** Block k's pixels exactly: the places of an image that belong to block k are its
      256 cells, each once. */
  ghost function PlacesOf(k: nat, c: nat, width: nat, height: nat): (place: seq<int>)
    requires c < 4
    ensures |place| == width * height
  {
    seq(width * height, p requires 0 <= p =>
      if InBlocks(p, width, height) && BlockOf(p, width) == k then CellIndex(c, InBlock16(p, width)) else -1)
  }

  lemma {:induction false} EachPixelOnce(k: nat, c: nat, width: nat, height: nat)
    requires k < Total(width, height) && c < 4
    ensures width >= 16 && Placed(PlacesOf(k, c, width, height), Base(k, width), Offsets(c, width))
  {
    hide Offset, Base, InBlocks, BlockOf, InBlock16, CellIndex;
    SomeBlocks(k, width, height);
    var place, base, offsets := PlacesOf(k, c, width, height), Base(k, width), Offsets(c, width);
    forall i | 0 <= i < |offsets|
      ensures base + offsets[i] < |place| && place[base + offsets[i]] == i
    {
      CellOfBlock(k, c, i, width, height);
    }
    forall p | 0 <= p < |place| && place[p] >= 0
      ensures place[p] < |offsets| && base + offsets[place[p]] == p
    {
      CellBack(p, c, width, height);
    }
  }

  // ------------------------------------------------------------------- the walk

  /** ref_ptr and line_start_ptr when k blocks have been passed: block k sits in row
      k / h_cnts of blocks, at column k % h_cnts. */
  predicate Walk(k: nat, refPtr: nat, lineStart: nat, width: nat) {
    width >= 16 && refPtr == Base(k, width) && lineStart == k / Across(width) * (16 * width)
  }

  function Advance(refPtr: nat, lineStart: nat, width: nat): (nat, nat)
    requires refPtr >= lineStart
  {
    if refPtr + 16 - lineStart + 16 > width then (lineStart + 16 * width, lineStart + 16 * width)
    else (refPtr + 16, lineStart)
  }

  lemma {:induction false} WalkOn(k: nat, refPtr: nat, lineStart: nat, width: nat)
    requires Walk(k, refPtr, lineStart, width)
    ensures refPtr >= lineStart && var n := Advance(refPtr, lineStart, width); Walk(k + 1, n.0, n.1, width)
  {
    var h := Across(width);
    AcrossPositive(width);
    Divide(k, h);
    var br, bc := k / h, k % h;
    NextBlock(k, h);
    hide Across;
    if bc + 1 == h {
      assert (br + 1) * (16 * width) == br * (16 * width) + 16 * width;
    }
  }

  lemma {:induction false} NextBlock(k: nat, h: nat)
    requires h > 0
    ensures if k % h + 1 == h then (k + 1) / h == k / h + 1 && (k + 1) % h == 0
            else (k + 1) / h == k / h && (k + 1) % h == k % h + 1
  {
    Divide(k, h);
    var br, bc := k / h, k % h;
    if bc + 1 == h {
      assert (br + 1) * h == br * h + h;
      Unique(br + 1, 0, h);
    } else {
      Unique(br, bc + 1, h);
    }
  }

  lemma {:induction false} WalkStart(width: nat)
    requires width >= 16
    ensures Walk(0, 0, 0, width)
  {
    AcrossPositive(width);
    Unique(0, 0, Across(width));
  }

  // --------------------------------------------------------------------- the code

  /** The inner loop of dither_irregular_block. */
  method MaskRow(image: array<Pixel>, at: nat, n: nat)
    requires at + n <= image.Length
    modifies image
    ensures forall p :: 0 <= p < image.Length ==>
              image[p] == if at <= p < at + n then Masked(old(image[p])) else old(image[p])
  {
    hide Masked;
    for j := 0 to n
      invariant forall p :: 0 <= p < image.Length ==>
                  image[p] == if at <= p < at + j then Masked(old(image[p])) else old(image[p])
    {
      image[at + j] := Masked(image[at + j]);
    }
  }

  /** Part of a line as a stretch of positions. */
  lemma {:induction false} RowInside(line: nat, x0: nat, n: nat, width: nat, height: nat)
    requires line < height && x0 + n <= width
    ensures line * width + x0 + n <= width * height
    ensures forall p: nat :: p < width * height ==>
              (line * width + x0 <= p < line * width + x0 + n
               <==> Line(p, width) == line && x0 <= Column(p, width) < x0 + n)
  {
    hide Column, Line;
    if n > 0 {
      PositionIn(line, x0 + n - 1, width, height);
    } else {
      assert (line + 1) * width == line * width + width;
      assert (line + 1) * width <= height * width;
    }
    forall p: nat | p < width * height
      ensures line * width + x0 <= p < line * width + x0 + n
              <==> Line(p, width) == line && x0 <= Column(p, width) < x0 + n
    {
      if width > 0 {
        PositionFrom(p, width);
        if line * width + x0 <= p < line * width + x0 + n {
          SameDivision(Line(p, width), Column(p, width), line, p - line * width, width);
        }
      }
    }
  }

  /** dither_irregular_block on the rectangle with corner (x0, y0). */
  method DitherIrregularBlock(image: array<Pixel>, x0: nat, y0: nat, blkW: nat, blkH: nat, width: nat,
                              ghost height: nat)
    requires image.Length == width * height && x0 + blkW <= width && y0 + blkH <= height
    modifies image
    ensures forall p :: 0 <= p < image.Length ==>
              image[p] == if x0 <= Column(p, width) < x0 + blkW && y0 <= Line(p, width) < y0 + blkH
                          then Masked(old(image[p])) else old(image[p])
  {
    hide Column, Line, Masked;
    var lineStart := y0 * width + x0;
    for i := 0 to blkH
      invariant lineStart == (y0 + i) * width + x0
      invariant forall p :: 0 <= p < image.Length ==>
                  image[p] == if x0 <= Column(p, width) < x0 + blkW && y0 <= Line(p, width) < y0 + i
                              then Masked(old(image[p])) else old(image[p])
    {
      RowInside(y0 + i, x0, blkW, width, height);
      MaskRow(image, lineStart, blkW);
      assert (y0 + i + 1) * width == (y0 + i) * width + width;
      lineStart := lineStart + width;
    }
  }

  lemma {:induction false} PositionIn(line: nat, column: nat, width: nat, height: nat)
    requires line < height && column < width
    ensures line * width + column < width * height
    ensures Line(line * width + column, width) == line && Column(line * width + column, width) == column
  {
    Unique(line, column, width);
    RowMajor(line, column, width, height);
  }

  lemma {:induction false} PositionFrom(p: nat, width: nat)
    requires width > 0
    ensures p == Line(p, width) * width + Column(p, width) && Column(p, width) < width
  {
    Divide(p, width);
  }

  /** The image when the first k blocks are done. */
  ghost predicate Done(now: seq<Pixel>, was: seq<Pixel>, width: nat, height: nat, k: nat) {
    && |now| == |was| == width * height
    && forall p :: 0 <= p < |now| ==>
         now[p] == if InBlocks(p, width, height) && BlockOf(p, width) < k then Output(was, width, height, p) else was[p]
  }

  /** A block that has not been reached yet still has its original pixels. */
  lemma {:induction false} StillOriginal(now: seq<Pixel>, was: seq<Pixel>, width: nat, height: nat, done: nat, k: nat)
    requires Done(now, was, width, height, done) && done <= k < Total(width, height)
    ensures BlockPixels(now, width, height, k) == BlockPixels(was, width, height, k)
  {
    hide Offset, Base, InBlocks, BlockOf, Output;
    var a, b := BlockPixels(now, width, height, k), BlockPixels(was, width, height, k);
    forall i | 0 <= i < 256
      ensures a[i] == b[i]
    {
      CellOfBlock(k, k % 4, i, width, height);
      BlockInside(k, k % 4, width, height);
    }
  }

  method SingleBlock(image: array<Pixel>, refPtr: nat, offsets: seq<nat>, ghost k: nat, width: nat, ghost height: nat,
                     ghost was: seq<Pixel>)
    requires image.Length == width * height && k < Total(width, height) && !Grouped(k, width, height)
    requires width >= 16 && refPtr == Base(k, width) && offsets == Offsets(k % 4, width)
    requires Done(image[..], was, width, height, k)
    modifies image
    ensures Done(image[..], was, width, height, k + 1)
  {
    hide Offset, Base, InBlocks, BlockOf, InBlock16, CellIndex, BlockOut, Offsets, Grouped;
    EachPixelOnce(k, k % 4, width, height);
    StillOriginal(image[..], was, width, height, k, k);
    ghost var now := image[..];
    DitherSingleBlock(image, refPtr, offsets, PlacesOf(k, k % 4, width, height));
    forall p | 0 <= p < image.Length
      ensures image[p] == if InBlocks(p, width, height) && BlockOf(p, width) < k + 1
                          then Output(was, width, height, p) else was[p]
    {
      assert image[p] == if InBlocks(p, width, height) && BlockOf(p, width) == k
                         then BlockOut(false, BlockPixels(was, width, height, k), CellIndex(k % 4, InBlock16(p, width)))
                         else now[p];
    }
  }

  /** The four blocks of group g, by position: which of them, and which cell. */
  ghost function LanesOf(g: nat, width: nat, height: nat): (lane: seq<int>)
    ensures |lane| == width * height
  {
    seq(width * height, p requires 0 <= p =>
      if InBlocks(p, width, height) && 4 * g <= BlockOf(p, width) < 4 * g + 4 then BlockOf(p, width) - 4 * g else -1)
  }

  ghost function CellsOf(g: nat, width: nat, height: nat): (place: seq<int>)
    ensures |place| == width * height
  {
    var lane := LanesOf(g, width, height);
    seq(width * height, p requires 0 <= p < width * height =>
      if 0 <= lane[p] < 4 then CellIndex(lane[p], InBlock16(p, width)) else -1)
  }

  lemma {:induction false} GroupPlaced(g: nat, width: nat, height: nat, bases: seq<nat>, offsets: seq<seq<nat>>)
    requires 4 * g + 3 < Total(width, height) && width >= 16 && |bases| == 4 == |offsets|
    requires forall j :: 0 <= j < 4 ==> bases[j] == Base(4 * g + j, width) && offsets[j] == Offsets(j, width)
    ensures PlacedFour(LanesOf(g, width, height), CellsOf(g, width, height), bases, offsets)
  {
    hide Offset, Base, InBlocks, BlockOf, InBlock16, CellIndex;
    var lane, place := LanesOf(g, width, height), CellsOf(g, width, height);
    forall j, i | 0 <= j < 4 && 0 <= i < 256
      ensures bases[j] + offsets[j][i] < |lane| && lane[bases[j] + offsets[j][i]] == j
              && place[bases[j] + offsets[j][i]] == i
    {
      CellOfBlock(4 * g + j, j, i, width, height);
    }
    forall p | 0 <= p < |lane| && lane[p] >= 0
      ensures lane[p] < 4 && 0 <= place[p] < 256 && bases[lane[p]] + offsets[lane[p]][place[p]] == p
    {
      CellBack(p, lane[p], width, height);
      assert 4 * g + lane[p] == BlockOf(p, width);
    }
  }

  lemma {:induction false} GroupOutput(now: seq<Pixel>, was: seq<Pixel>, width: nat, height: nat, g: nat, j: nat,
                                       p: nat)
    requires Done(now, was, width, height, 4 * g) && g < Total(width, height) / 4 && j < 4
    requires p < |was| && InBlocks(p, width, height) && BlockOf(p, width) == 4 * g + j
    ensures Output(was, width, height, p)
         == BlockOut(true, BlockPixels(now, width, height, 4 * g + j), CellIndex(j, InBlock16(p, width)))
  {
    hide Base, InBlocks, BlockOf, InBlock16, CellIndex, BlockOut, Offsets, Total, BlockPixels;
    var k := 4 * g + j;
    assert k % 4 == j && k / 4 == g;
    StillOriginal(now, was, width, height, 4 * g, k);
  }

  method FourBlocks(image: array<Pixel>, bases: seq<nat>, offsets: seq<seq<nat>>, ghost g: nat, width: nat,
                    ghost height: nat, ghost was: seq<Pixel>)
    requires image.Length == width * height && g < Total(width, height) / 4 && width >= 16 && |bases| == 4 == |offsets|
    requires forall j :: 0 <= j < 4 ==> bases[j] == Base(4 * g + j, width) && offsets[j] == Offsets(j, width)
    requires Done(image[..], was, width, height, 4 * g)
    modifies image
    ensures Done(image[..], was, width, height, 4 * g + 4)
  {
    hide Offset, Base, InBlocks, BlockOf, InBlock16, CellIndex, BlockOut, Offsets, Total, Output;
    GroupPlaced(g, width, height, bases, offsets);
    ghost var now := image[..];
    ghost var lane, place := LanesOf(g, width, height), CellsOf(g, width, height);
    DitherFourBlock(image, bases, offsets, lane, place);
    forall p | 0 <= p < image.Length
      ensures image[p] == if InBlocks(p, width, height) && BlockOf(p, width) < 4 * g + 4
                          then Output(was, width, height, p) else was[p]
    {
      if lane[p] >= 0 {
        GroupOutput(now, was, width, height, g, lane[p], p);
        GroupPixels(now, width, height, g, lane[p], bases, offsets);
      }
    }
  }

  lemma {:induction false} GroupPixels(image: seq<Pixel>, width: nat, height: nat, g: nat, j: nat, bases: seq<nat>,
                                       offsets: seq<seq<nat>>)
    requires |image| == width * height && 4 * g + j < Total(width, height) && j < 4 && |bases| == 4 == |offsets|
             && width >= 16
    requires bases[j] == Base(4 * g + j, width) && offsets[j] == Offsets(j, width)
    ensures (forall i :: 0 <= i < 256 ==> bases[j] + offsets[j][i] < |image|)
            && Taken(image, bases[j], offsets[j]) == BlockPixels(image, width, height, 4 * g + j)
  {
    hide Offset, Base;
    BlockInside(4 * g + j, j, width, height);
    assert (4 * g + j) % 4 == j;
  }

  /** _img_dither_00, on tables that _calc_offset_table made. */
  method ImgDither(image: array<Pixel>, width: nat, height: nat, offsetTbl: seq<seq<nat>>)
    requires image.Length == width * height && width <= 4368
    requires |offsetTbl| == 4
             && forall c :: 0 <= c < 4 ==>
                  |offsetTbl[c]| == 256 && forall i :: 0 <= i < 256 ==> offsetTbl[c][i] == Stored(c, i, width)
    modifies image
    ensures forall p :: 0 <= p < image.Length ==> image[p] == Output(old(image[..]), width, height, p)
  {
    hide Offset, Stored, Base, Output;
    OffsetsExactIff(width);
    assert forall c :: 0 <= c < 4 ==> offsetTbl[c] == Offsets(c, width);
    ghost var was := image[..];
    var hCnts, vCnts := width / 16, height / 16;
    var totalCnts := hCnts * vCnts;
    assert totalCnts == Total(width, height);
    DitherBlocks(image, width, height, offsetTbl, totalCnts);
    var blkW := width - hCnts * 16;
    if blkW > 0 {
      DitherIrregularBlock(image, hCnts * 16, 0, blkW, height, width, height);
    }
    var blkH := height - vCnts * 16;
    if blkH > 0 {
      DitherIrregularBlock(image, 0, vCnts * 16, width - blkW, blkH, width, height);
    }
    forall p | 0 <= p < image.Length
      ensures image[p] == Output(was, width, height, p)
    {
      StripPixel(was, width, height, p);
    }
  }

  lemma {:induction false} StripPixel(image: seq<Pixel>, width: nat, height: nat, p: nat)
    requires |image| == width * height && p < |image|
    ensures width > 0 && Column(p, width) < width && Line(p, width) < height
    ensures InBlocks(p, width, height) ==> BlockOf(p, width) < Total(width, height)
    ensures !InBlocks(p, width, height) ==> Output(image, width, height, p) == Masked(image[p])
  {
    hide BlockOut, CellIndex, BlockPixels;
    assert width > 0;
    Divide(p, width);
    RowOf(p, width, height);
    if InBlocks(p, width, height) {
      BlockKnown(p, width, height);
    }
  }

  lemma {:induction false} DoneNothing(was: seq<Pixel>, width: nat, height: nat)
    requires |was| == width * height
    ensures Done(was, was, width, height, 0)
  {
    hide Output;
  }

  lemma {:induction false} WalkIs(k: nat, refPtr: nat, lineStart: nat, width: nat)
    requires Walk(k, refPtr, lineStart, width)
    ensures width >= 16 && refPtr == Base(k, width)
  {
  }

  /** The two block loops of _img_dither_00. */
  method DitherBlocks(image: array<Pixel>, width: nat, height: nat, offsetTbl: seq<seq<nat>>, totalCnts: nat)
    requires image.Length == width * height && totalCnts == Total(width, height)
    requires |offsetTbl| == 4 && forall c :: 0 <= c < 4 ==> offsetTbl[c] == Offsets(c, width)
    modifies image
    ensures Done(image[..], old(image[..]), width, height, totalCnts)
  {
    hide Offsets, Offset, Base, Done, Walk, Total;
    ghost var was := image[..];
    DoneNothing(was, width, height);
    var lineStart, refPtr := 0, 0;
    if totalCnts > 0 {
      SomeBlocks(0, width, height);
      WalkStart(width);
    }
    ghost var k := 0;
    for i := 0 to totalCnts / 4
      invariant k == 4 * i && Done(image[..], was, width, height, k)
      invariant totalCnts > 0 ==> Walk(k, refPtr, lineStart, width)
    {
      ghost var before := image[..];
      var srcBlkPtr: seq<nat> := [];
      for j := 0 to 4
        modifies {}
        invariant |srcBlkPtr| == j && Walk(4 * i + j, refPtr, lineStart, width)
        invariant forall l :: 0 <= l < j ==> srcBlkPtr[l] == Base(4 * i + l, width)
      {
        WalkIs(4 * i + j, refPtr, lineStart, width);
        srcBlkPtr := srcBlkPtr + [refPtr];
        WalkOn(4 * i + j, refPtr, lineStart, width);
        var n := Advance(refPtr, lineStart, width);
        refPtr, lineStart := n.0, n.1;
      }
      WalkIs(4 * i + 4, refPtr, lineStart, width);
      assert image[..] == before;
      FourBlocks(image, srcBlkPtr, offsetTbl, i, width, height, was);
      k := k + 4;
    }
    for i := 0 to totalCnts % 4
      invariant k == 4 * (totalCnts / 4) + i && Done(image[..], was, width, height, k)
      invariant totalCnts > 0 ==> Walk(k, refPtr, lineStart, width)
    {
      assert k % 4 == i && k / 4 == totalCnts / 4;
      WalkIs(k, refPtr, lineStart, width);
      SingleBlock(image, refPtr, offsetTbl[i % 4], k, width, height, was);
      WalkOn(k, refPtr, lineStart, width);
      var n := Advance(refPtr, lineStart, width);
      refPtr, lineStart := n.0, n.1;
      k := k + 1;
    }
  }

  /** Initialising the dither for an image size and running it on one image. */
  method Process(image: array<Pixel>, width: nat, height: nat)
    requires image.Length == width * height && width <= 4368
    modifies image
    ensures forall p :: 0 <= p < image.Length ==> image[p] == Output(old(image[..]), width, height, p)
  {
    hide Output, Stored, IsTable;
    ghost var was := image[..];
    var offsetTbl: seq<seq<nat>> := [];
    for c := 0 to 4
      modifies {}
      invariant |offsetTbl| == c
      invariant forall j :: 0 <= j < c ==>
                  |offsetTbl[j]| == 256 && forall i :: 0 <= i < 256 ==> offsetTbl[j][i] == Stored(j, i, width)
    {
      CurveTableIsTable(c);
      var tbl := CalcOffsetTable(CurveTable(c), width, c);
      offsetTbl := offsetTbl + [tbl];
    }
    assert image[..] == was;
    ImgDither(image, width, height, offsetTbl);
  }
}
