/** What libdither/image_dither.cpp makes of an image, as a relation between the pixels that
    go in and those that come out. What a pixel loses is the difference between the two;
    nothing else is carried along a block.
 */
module DitherLaw {
  import opened Bits
  import opened DitherKernel
  import opened DitherBlock
  import opened DitherImage
  import opened HilbertCurve

  /** r is the greatest multiple of q not above v. */
  predicate RoundedDown(q: nat, v: int, r: int)
    requires q > 0
  {
    r % q == 0 && r <= v < r + q
  }

  // ------------------------------------------------------------------- one channel

  /** What value s of a channel loses, nothing before the first. */
  function Loss(before: seq<byte>, after: seq<byte>, s: int): int {
    if 0 <= s < |before| && s < |after| then (before[s] as int) - (after[s] as int) else 0
  }

  /** The eight last losses before value t, in the two parts the 8-bit code adds up. */
  function Outer(before: seq<byte>, after: seq<byte>, t: int): int {
    8 * Loss(before, after, t - 1) + Loss(before, after, t - 7) + Loss(before, after, t - 8)
  }

  function Inner(before: seq<byte>, after: seq<byte>, t: int): int {
    4 * Loss(before, after, t - 2) + 4 * Loss(before, after, t - 3)
    + 2 * Loss(before, after, t - 4) + 2 * Loss(before, after, t - 5) + 2 * Loss(before, after, t - 6)
  }

  /** A signed byte, wrapping. */
  function SignedByte(v: int): int { if v % 256 < 128 then v % 256 else v % 256 - 256 }

  /** Value t comes out as the original plus an eighth of the weighted losses, kept within
      a byte and rounded down to the grid; the 8-bit path wraps both parts of the sum and
      keeps their sum within a signed byte. */
  predicate Follows(narrow: bool, q: Step, before: seq<byte>, after: seq<byte>, t: nat)
    requires t < |before| == |after|
  {
    var outer, inner := Outer(before, after, t), Inner(before, after, t);
    var bytes := SignedByte(outer) + SignedByte(inner);
    var sum := if !narrow then outer + inner else if bytes < -128 then -128 else if bytes > 127 then 127 else bytes;
    var v := before[t] + sum / 8;
    RoundedDown(q, if v < 0 then 0 else if v > 255 then 255 else v, after[t])
  }

  lemma {:induction false} BackIsLoss(narrow: bool, q: Step, xs: seq<byte>, t: nat, age: nat)
    requires t <= |xs|
    ensures Back(Errors(narrow, q, xs[..t]), age) == Loss(xs, Dithered(narrow, q, xs), t - 1 - age)
  {
    hide Level, Errors;
    if age < t {
      var s := t - 1 - age;
      ErrorAt(narrow, q, xs[..t], s);
      assert xs[..t][..s] == xs[..s];
    }
  }

  lemma {:induction false} WrapIsSignedByte(v: int)
    ensures Wrap8(v) == SignedByte(v)
  {
  }

  lemma {:induction false} OnGridIs(q: Step, v: int, r: byte)
    requires OnGrid(q, r) && r <= v < r + q
    ensures RoundedDown(q, v, r)
  {
  }

  lemma {:induction false} PartsAre(narrow: bool, q: Step, xs: seq<byte>, t: nat)
    requires t <= |xs|
    ensures OuterHalf(Errors(narrow, q, xs[..t])) == Outer(xs, Dithered(narrow, q, xs), t)
    ensures InnerHalf(Errors(narrow, q, xs[..t])) == Inner(xs, Dithered(narrow, q, xs), t)
  {
    hide Dithered, Errors, Back, Loss;
    BackIsLoss(narrow, q, xs, t, 0);
    BackIsLoss(narrow, q, xs, t, 1);
    BackIsLoss(narrow, q, xs, t, 2);
    BackIsLoss(narrow, q, xs, t, 3);
    BackIsLoss(narrow, q, xs, t, 4);
    BackIsLoss(narrow, q, xs, t, 5);
    BackIsLoss(narrow, q, xs, t, 6);
    BackIsLoss(narrow, q, xs, t, 7);
  }

  /** Every channel, on either path, follows that rule at every value. */
  lemma {:induction false} ChannelFollows(narrow: bool, q: Step, xs: seq<byte>, t: nat)
    requires t < |xs|
    ensures Follows(narrow, q, xs, Dithered(narrow, q, xs), t)
  {
    hide Dithered, Errors, Wrap8, SignedByte, Back, Outer, Inner, OuterHalf, InnerHalf, RoundedDown, Quantize, OnGrid;
    var errors := Errors(narrow, q, xs[..t]);
    PartsAre(narrow, q, xs, t);
    WrapIsSignedByte(OuterHalf(errors));
    WrapIsSignedByte(InnerHalf(errors));
    WindowIsParts(errors);
    DitheredIs(narrow, q, xs, t);
    OnGridIs(q, Clamp(xs[t] + Feedback(narrow, errors)), Dithered(narrow, q, xs)[t]);
  }

  lemma {:induction false} WindowIsParts(errors: seq<int>)
    ensures Window(errors) == OuterHalf(errors) + InnerHalf(errors)
  {
    hide Back;
  }

  lemma {:induction false} DitheredIs(narrow: bool, q: Step, xs: seq<byte>, t: nat)
    requires t < |xs|
    ensures Dithered(narrow, q, xs)[t] == Quantize(q, Clamp(xs[t] + Feedback(narrow, Errors(narrow, q, xs[..t]))))
  {
    hide Quantize, Errors, Feedback;
  }

  // ---------------------------------------------------------------------- the image

  /** A place inside block k, with `across` blocks in a row. */
  function Spot(k: nat, across: nat, cell: Point, width: nat): nat
    requires across > 0 && InBlock(cell)
  {
    Linear(16 * (k / across) + cell.y, 16 * (k % across) + cell.x, width)
  }

  /** Cell s of block k, along the curve of that block. */
  function Place(k: nat, s: nat, width: nat): nat
    requires width >= 16 && s < 256
  {
    Spot(k, width / 16, Cell(k % 4, s), width)
  }

  lemma {:induction false} PlaceIs(k: nat, s: nat, width: nat)
    requires width >= 16 && s < 256
    ensures Place(k, s, width) == Base(k, width) + Offset(k % 4, s, width)
  {
    hide Cell;
    Regroup(k / Across(width), Cell(k % 4, s).y, width);
  }

  /** One colour of block k along its curve. */
  ghost function Along(image: seq<Pixel>, width: nat, k: nat, c: Channel): (s: seq<byte>)
    requires width >= 16 && forall s :: 0 <= s < 256 ==> Place(k, s, width) < |image|
    ensures |s| == 256
  {
    seq(256, s requires 0 <= s < 256 => Of(image[Place(k, s, width)], c))
  }

  lemma {:induction false} PlacesInside(k: nat, width: nat, height: nat)
    requires k < Total(width, height)
    ensures width >= 16 && forall s :: 0 <= s < 256 ==> Place(k, s, width) < width * height
  {
    hide Place, Base, Offset;
    SomeBlocks(k, width, height);
    BlockInside(k, k % 4, width, height);
    forall s | 0 <= s < 256
      ensures Place(k, s, width) < width * height
    {
      PlaceIs(k, s, width);
      CellOfBlock(k, k % 4, s, width, height);
    }
  }

  /** In every image every whole block follows the rule in every colour, along curve k % 4
      for block k, on the 8-bit path exactly if it is in a full group of four. */
  lemma {:induction false} BlockFollows(image: seq<Pixel>, after: seq<Pixel>, width: nat, height: nat,
                                        k: nat, t: nat, c: Channel)
    requires |image| == width * height == |after| && k < Total(width, height) && t < 256 && c != A
    requires forall p :: 0 <= p < |image| ==> after[p] == Output(image, width, height, p)
    ensures width >= 16 && forall s :: 0 <= s < 256 ==> Place(k, s, width) < |image|
    ensures Follows(k < Total(width, height) - Total(width, height) % 4, if c == G then 4 else 8,
                    Along(image, width, k, c), Along(after, width, k, c), t)
  {
    hide Place, Base, Offset, Output, Follows, Dithered, Total;
    PlacesInside(k, width, height);
    var xs := BlockPixels(image, width, height, k);
    var narrow := Grouped(k, width, height);
    forall s | 0 <= s < 256
      ensures Along(image, width, k, c)[s] == Of(xs[s], c)
      ensures Along(after, width, k, c)[s] == Dithered(narrow, StepOf(c), Stream(xs, c))[s]
    {
      PlaceIs(k, s, width);
      OutputAt(image, width, height, k, s);
    }
    assert Along(image, width, k, c) == Stream(xs, c);
    assert Along(after, width, k, c) == Dithered(narrow, StepOf(c), Stream(xs, c));
    ChannelFollows(narrow, StepOf(c), Stream(xs, c), t);
  }

  lemma {:induction false} OutputAt(image: seq<Pixel>, width: nat, height: nat, k: nat, s: nat)
    requires |image| == width * height && k < Total(width, height) && s < 256
    ensures width >= 16 && Base(k, width) + Offset(k % 4, s, width) < |image|
    ensures BlockPixels(image, width, height, k)[s] == image[Base(k, width) + Offset(k % 4, s, width)]
    ensures Output(image, width, height, Base(k, width) + Offset(k % 4, s, width))
         == BlockOut(Grouped(k, width, height), BlockPixels(image, width, height, k), s)
  {
    hide Base, Offset, InBlocks, BlockOf, InBlock16, CellIndex, BlockOut, Total;
    CellOfBlock(k, k % 4, s, width, height);
  }

  /** Every pixel outside the whole blocks is rounded down, channel by channel, and keeps
      its alpha byte. */
  lemma {:induction false} StripRoundedDown(image: seq<Pixel>, width: nat, height: nat, p: nat)
    requires |image| == width * height && p < |image|
    requires p % width >= width - width % 16 || p / width >= height - height % 16
    ensures var out := Output(image, width, height, p);
            && out.a == image[p].a && RoundedDown(8, image[p].r, out.r)
            && RoundedDown(4, image[p].g, out.g) && RoundedDown(8, image[p].b, out.b)
  {
    hide BlockOut, CellIndex, BlockPixels;
    assert !InBlocks(p, width, height);
  }
}
