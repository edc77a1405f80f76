/** One 16 by 16 block in libdither/image_dither.cpp: dither_single_block and
    dither_four_block rewrite the pixels of a block, or of four at once, in the order
    of an offset table.
 */
module DitherBlock {
  import opened Bits
  import opened DitherKernel

  const CELLS: nat := 256

  datatype Pixel = Pixel(a: byte, r: byte, g: byte, b: byte)

  datatype Channel = A | R | G | B

  function Of(p: Pixel, c: Channel): byte {
    match c
    case A => p.a
    case R => p.r
    case G => p.g
    case B => p.b
  }

  /** The mask 0xfff8fcf8, channel by channel. */
  function StepOf(c: Channel): Step {
    match c
    case A => 1
    case G => 4
    case _ => 8
  }

  function Stream(xs: seq<Pixel>, c: Channel): (s: seq<byte>)
    ensures |s| == |xs|
  {
    seq(|xs|, i requires 0 <= i < |xs| => Of(xs[i], c))
  }

  /** One channel of a block after dithering. The wide path leaves alpha alone, the
      narrow path puts it through the same lanes as the colours. */
  function After(narrow: bool, xs: seq<Pixel>, c: Channel): (s: seq<byte>)
    ensures |s| == |xs|
  {
    if c == A && !narrow then Stream(xs, A) else Dithered(narrow, StepOf(c), Stream(xs, c))
  }

  /** A block after dithering, pixel by pixel along its curve. */
  function BlockOut(narrow: bool, xs: seq<Pixel>, i: nat): Pixel
    requires i < |xs|
  {
    Pixel(After(narrow, xs, A)[i], After(narrow, xs, R)[i], After(narrow, xs, G)[i], After(narrow, xs, B)[i])
  }

  predicate On565(p: Pixel) { p.r % 8 == 0 && p.g % 4 == 0 && p.b % 8 == 0 }

  /** On both paths every pixel keeps its alpha byte and lands on the 5-6-5 grid. */
  lemma {:induction false} BlockKeepsAlpha(narrow: bool, xs: seq<Pixel>, i: nat)
    requires i < |xs|
    ensures BlockOut(narrow, xs, i).a == xs[i].a && On565(BlockOut(narrow, xs, i))
  {
    hide Dithered;
    ExactChannelUntouched(Stream(xs, A));
    DitheredOnGrid(narrow, 8, Stream(xs, R), i);
    DitheredOnGrid(narrow, 4, Stream(xs, G), i);
    DitheredOnGrid(narrow, 8, Stream(xs, B), i);
  }

  /** Where the 8-bit sums stay true in every colour, a block of a group of four comes
      out as it would on its own. */
  lemma {:induction false} GroupedLikeSingle(xs: seq<Pixel>, i: nat)
    requires i < |xs|
    requires FitsThroughout(8, Stream(xs, R)) && FitsThroughout(4, Stream(xs, G)) && FitsThroughout(8, Stream(xs, B))
    ensures BlockOut(true, xs, i) == BlockOut(false, xs, i)
  {
    hide Dithered, FitsThroughout;
    ExactChannelUntouched(Stream(xs, A));
    TrueWindowIff(8, Stream(xs, R));
    TrueWindowIff(4, Stream(xs, G));
    TrueWindowIff(8, Stream(xs, B));
  }

  /** A block that is on the grid already stays as it is. */
  lemma {:induction false} GridBlockUntouched(narrow: bool, xs: seq<Pixel>, i: nat)
    requires i < |xs| && forall k :: 0 <= k < |xs| ==> On565(xs[k])
    ensures BlockOut(narrow, xs, i) == xs[i]
  {
    hide Dithered;
    ExactChannelUntouched(Stream(xs, A));
    GridChannelUntouched(narrow, 8, Stream(xs, R));
    GridChannelUntouched(narrow, 4, Stream(xs, G));
    GridChannelUntouched(narrow, 8, Stream(xs, B));
  }

  /** On the narrow path no colour moves by more than 23. */
  lemma {:induction false} NarrowStaysClose(xs: seq<Pixel>, i: nat, c: Channel)
    requires i < |xs|
    ensures -15 <= (Of(xs[i], c) as int) - (Of(BlockOut(true, xs, i), c) as int) <= 23
  {
    hide Dithered, Errors;
    NarrowErrorBound(StepOf(c), Stream(xs, c), i);
    ErrorAt(true, StepOf(c), Stream(xs, c), i);
  }

  // ---------------------------------------------------------------- one channel

  /** A ring of eight errors and what they feed back: the row sum on the wide path,
      the shifted register sum on the narrow one. */
  datatype Lane = Lane(ring: seq<int>, carry: int)

  ghost predicate LaneOk(narrow: bool, lane: Lane, m: nat, errors: seq<int>) {
    && Ring(lane.ring, m, errors) && Bounded(errors)
    && lane.carry == if narrow then Feedback(true, errors) else Window(errors)
  }

  function FreshLane(): Lane { Lane([0, 0, 0, 0, 0, 0, 0, 0], 0) }

  lemma {:induction false} FreshLaneOk(narrow: bool)
    ensures LaneOk(narrow, FreshLane(), 7, [])
  {
    assert forall a: nat :: Back([], a) == 0;
  }

  lemma {:induction false} RingBounded(ring: seq<int>, m: nat, errors: seq<int>)
    requires Ring(ring, m, errors) && Bounded(errors)
    ensures forall i :: 0 <= i < 8 ==> -255 <= ring[i] <= 255
  {
    assert forall a: nat :: -255 <= Back(errors, a) <= 255;
    forall i | 0 <= i < 8
      ensures -255 <= ring[i] <= 255
    {
      assert SlotOf(m, if i <= m then m - i else m - i + 8) == i;
    }
  }

  /** One channel of one pixel in dither_single_block. */
  method DiffuseWide(lane: Lane, m: nat, q: Step, x: byte, ghost errors: seq<int>) returns (level: byte, next: Lane)
    requires m < 8 && LaneOk(false, lane, m, errors)
    ensures level == Level(false, q, x, errors)
    ensures LaneOk(false, next, NextSlot(m), errors + [x - level])
  {
    hide Window, Ring, Back, LaneSum;
    WindowBound(errors);
    var value := x + lane.carry / 8;
    ClipIsClamp(value);
    level := Quantize(q, Clip8(value));
    var e: int := x - level;
    RingPush(lane.ring, m, errors, e);
    assert |lane.ring| == 8 by { RingRegisters(lane.ring, m, errors); }
    var ring := lane.ring[NextSlot(m) := e];
    assert Bounded(errors + [e]);
    RingBounded(ring, NextSlot(m), errors + [e]);
    RotatedRowsAreTheWindow(ring, NextSlot(m), errors + [e]);
    next := Lane(ring, LaneSum(ring, Weights(NextSlot(m))));
  }

  /** One byte lane of one pixel in dither_four_block. */
  method DiffuseNarrow(lane: Lane, m: nat, q: Step, x: byte, ghost errors: seq<int>) returns (level: byte, next: Lane)
    requires m < 8 && LaneOk(true, lane, m, errors)
    ensures level == Level(true, q, x, errors)
    ensures LaneOk(true, next, NextSlot(m), errors + [x - level])
  {
    hide NarrowWindow, Ring, Back, RegisterSum;
    level := Quantize(q, Clamp(x + lane.carry));
    var e := Wrap8(x - level);
    assert -16 <= lane.carry <= 15;
    assert e == x - level;
    RingPush(lane.ring, m, errors, e);
    assert |lane.ring| == 8 by { RingRegisters(lane.ring, m, errors); }
    var ring := lane.ring[NextSlot(m) := e];
    assert Bounded(errors + [e]);
    RegistersAreTheWindow(ring, NextSlot(m), errors + [e]);
    next := Lane(ring, RegisterSum(ring, NextSlot(m)) / 8);
  }

  /** The errors of a channel after t pixels. */
  ghost function ErrorsTo(narrow: bool, xs: seq<Pixel>, c: Channel, t: nat): seq<int>
    requires t <= |xs|
  {
    Errors(narrow, StepOf(c), Stream(xs, c)[..t])
  }

  lemma {:induction false} ErrorsPush(narrow: bool, xs: seq<Pixel>, c: Channel, t: nat)
    requires t < |xs|
    ensures ErrorsTo(narrow, xs, c, t + 1)
         == ErrorsTo(narrow, xs, c, t)
            + [Of(xs[t], c) - Level(narrow, StepOf(c), Of(xs[t], c), ErrorsTo(narrow, xs, c, t))]
    ensures Dithered(narrow, StepOf(c), Stream(xs, c))[t]
            == Level(narrow, StepOf(c), Of(xs[t], c), ErrorsTo(narrow, xs, c, t))
  {
    hide Level;
    var s := Stream(xs, c);
    assert s[..t + 1][..t] == s[..t];
  }

  // ------------------------------------------------------------------- the pixels

  datatype Lanes = Lanes(a: Lane, r: Lane, g: Lane, b: Lane)

  function FreshLanes(): Lanes { Lanes(FreshLane(), FreshLane(), FreshLane(), FreshLane()) }

  ghost predicate LanesOk(narrow: bool, l: Lanes, m: nat, xs: seq<Pixel>, t: nat)
    requires t <= |xs|
  {
    && (narrow ==> LaneOk(true, l.a, m, ErrorsTo(true, xs, A, t)))
    && LaneOk(narrow, l.r, m, ErrorsTo(narrow, xs, R, t))
    && LaneOk(narrow, l.g, m, ErrorsTo(narrow, xs, G, t))
    && LaneOk(narrow, l.b, m, ErrorsTo(narrow, xs, B, t))
  }

  lemma {:induction false} FreshLanesOk(narrow: bool, xs: seq<Pixel>)
    ensures LanesOk(narrow, FreshLanes(), 7, xs, 0)
  {
    hide LaneOk, FreshLane;
    FreshLaneOk(narrow);
  }

  method WidePixel(l: Lanes, m: nat, argb: Pixel, ghost xs: seq<Pixel>, ghost t: nat) returns (out: Pixel, next: Lanes)
    requires m < 8 && t < |xs| && xs[t] == argb && LanesOk(false, l, m, xs, t)
    ensures out == BlockOut(false, xs, t) && LanesOk(false, next, NextSlot(m), xs, t + 1)
  {
    hide LaneOk, Level, Dithered, ErrorsTo;
    ErrorsPush(false, xs, R, t);
    ErrorsPush(false, xs, G, t);
    ErrorsPush(false, xs, B, t);
    var b, lb := DiffuseWide(l.b, m, 8, argb.b, ErrorsTo(false, xs, B, t));
    var g, lg := DiffuseWide(l.g, m, 4, argb.g, ErrorsTo(false, xs, G, t));
    var r, lr := DiffuseWide(l.r, m, 8, argb.r, ErrorsTo(false, xs, R, t));
    out := Pixel(argb.a, r, g, b);
    next := Lanes(l.a, lr, lg, lb);
  }

  method NarrowPixel(l: Lanes, m: nat, argb: Pixel, ghost xs: seq<Pixel>, ghost t: nat)
    returns (out: Pixel, next: Lanes)
    requires m < 8 && t < |xs| && xs[t] == argb && LanesOk(true, l, m, xs, t)
    ensures out == BlockOut(true, xs, t) && LanesOk(true, next, NextSlot(m), xs, t + 1)
  {
    hide LaneOk, Level, Dithered, ErrorsTo;
    ErrorsPush(true, xs, A, t);
    ErrorsPush(true, xs, R, t);
    ErrorsPush(true, xs, G, t);
    ErrorsPush(true, xs, B, t);
    var b, lb := DiffuseNarrow(l.b, m, 8, argb.b, ErrorsTo(true, xs, B, t));
    var g, lg := DiffuseNarrow(l.g, m, 4, argb.g, ErrorsTo(true, xs, G, t));
    var r, lr := DiffuseNarrow(l.r, m, 8, argb.r, ErrorsTo(true, xs, R, t));
    var a, la := DiffuseNarrow(l.a, m, 1, argb.a, ErrorsTo(true, xs, A, t));
    out := Pixel(a, r, g, b);
    next := Lanes(la, lr, lg, lb);
  }

  // ------------------------------------------------------------------- the blocks

  /** The pixels of a block in the order of its offset table. */
  function Taken(image: seq<Pixel>, base: nat, offsets: seq<nat>): (xs: seq<Pixel>)
    requires forall i :: 0 <= i < |offsets| ==> base + offsets[i] < |image|
    ensures |xs| == |offsets|
  {
    seq(|offsets|, i requires 0 <= i < |offsets| => image[base + offsets[i]])
  }

  /** `place` says which cell of the block, if any, each position of the image is. */
  ghost predicate Placed(place: seq<int>, base: nat, offsets: seq<nat>) {
    && (forall i :: 0 <= i < |offsets| ==> base + offsets[i] < |place| && place[base + offsets[i]] == i)
    && (forall p :: 0 <= p < |place| && place[p] >= 0 ==> place[p] < |offsets| && base + offsets[place[p]] == p)
  }

  /** dither_single_block. */
  method DitherSingleBlock(image: array<Pixel>, base: nat, offsets: seq<nat>, ghost place: seq<int>)
    requires |offsets| == CELLS && |place| == image.Length && Placed(place, base, offsets)
    modifies image
    ensures forall p :: 0 <= p < image.Length ==>
              image[p] == if place[p] >= 0 then BlockOut(false, Taken(old(image[..]), base, offsets), place[p])
                          else old(image[p])
  {
    hide LanesOk, BlockOut;
    ghost var xs := Taken(image[..], base, offsets);
    var lanes := FreshLanes();
    var m := 7;
    FreshLanesOk(false, xs);
    for t := 0 to CELLS
      invariant m < 8 && LanesOk(false, lanes, m, xs, t)
      invariant forall p :: 0 <= p < image.Length ==>
                  image[p] == if 0 <= place[p] < t then BlockOut(false, xs, place[p]) else old(image[p])
    {
      var at := base + offsets[t];
      assert place[at] == t && image[at] == xs[t];
      var out;
      out, lanes := WidePixel(lanes, m, image[at], xs, t);
      image[at] := out;
      m := NextSlot(m);
    }
  }

  /** `lane` and `place` say which block and which cell of it a position is. */
  ghost predicate PlacedFour(lane: seq<int>, place: seq<int>, bases: seq<nat>, offsets: seq<seq<nat>>) {
    && |lane| == |place| && |bases| == 4 == |offsets|
    && (forall j :: 0 <= j < 4 ==> |offsets[j]| == CELLS && PlacedLane(lane, place, bases[j], offsets[j], j))
    && (forall p :: 0 <= p < |lane| && lane[p] >= 0 ==>
          lane[p] < 4 && 0 <= place[p] < CELLS && bases[lane[p]] + offsets[lane[p]][place[p]] == p)
  }

  ghost predicate PlacedLane(lane: seq<int>, place: seq<int>, base: nat, offsets: seq<nat>, j: nat)
    requires |lane| == |place|
  {
    forall i :: 0 <= i < |offsets| ==>
      base + offsets[i] < |lane| && lane[base + offsets[i]] == j && place[base + offsets[i]] == i
  }

  /** What a position holds once the first t cells of the four blocks are rewritten,
      and cell t itself in the first u of them. */
  ghost predicate Rewritten(now: Pixel, was: Pixel, lane: int, place: int, xss: seq<seq<Pixel>>, t: nat, u: nat)
    requires |xss| == 4 && forall j :: 0 <= j < 4 ==> |xss[j]| == CELLS
    requires lane >= 0 ==> lane < 4 && 0 <= place < CELLS
  {
    now == if lane >= 0 && (place < t || (place == t && lane < u)) then BlockOut(true, xss[lane], place) else was
  }

  ghost predicate Blocks(xss: seq<seq<Pixel>>) { |xss| == 4 && forall j :: 0 <= j < 4 ==> |xss[j]| == CELLS }

  ghost predicate Progress(image: seq<Pixel>, was: seq<Pixel>, lane: seq<int>, place: seq<int>, xss: seq<seq<Pixel>>,
                           t: nat, u: nat)
    requires Blocks(xss)
  {
    && |image| == |was| == |lane| == |place|
    && (forall p :: 0 <= p < |image| && lane[p] >= 0 ==> lane[p] < 4 && 0 <= place[p] < CELLS)
    && forall p :: 0 <= p < |image| ==> Rewritten(image[p], was[p], lane[p], place[p], xss, t, u)
  }

  /** The cell number t of all four blocks: read, dither, write back. */
  method FourPixels(image: array<Pixel>, at: seq<nat>, lanes: seq<Lanes>, m: nat,
                    ghost was: seq<Pixel>, ghost lane: seq<int>, ghost place: seq<int>, ghost xss: seq<seq<Pixel>>,
                    ghost t: nat)
    returns (next: seq<Lanes>)
    requires Blocks(xss) && t < CELLS && m < 8 && |lanes| == 4 == |at|
             && Progress(image[..], was, lane, place, xss, t, 0)
    requires forall j :: 0 <= j < 4 ==> LanesOk(true, lanes[j], m, xss[j], t)
    requires forall j :: 0 <= j < 4 ==>
               at[j] < image.Length && lane[at[j]] == j && place[at[j]] == t && xss[j][t] == was[at[j]]
    requires forall p :: 0 <= p < image.Length && lane[p] >= 0 && place[p] == t ==> at[lane[p]] == p
    modifies image
    ensures |next| == 4 && forall j :: 0 <= j < 4 ==> LanesOk(true, next[j], NextSlot(m), xss[j], t + 1)
    ensures Progress(image[..], was, lane, place, xss, t + 1, 0)
  {
    hide LanesOk, BlockOut;
    var px := [image[at[0]], image[at[1]], image[at[2]], image[at[3]]];
    assert forall j :: 0 <= j < 4 ==> px[j] == image[..][at[j]] == xss[j][t];
    next := lanes;
    for j := 0 to 4
      invariant |next| == 4 && Progress(image[..], was, lane, place, xss, t, j)
      invariant forall l :: 0 <= l < 4 ==>
                  LanesOk(true, next[l], if l < j then NextSlot(m) else m, xss[l], if l < j then t + 1 else t)
    {
      var out, lj := NarrowPixel(next[j], m, px[j], xss[j], t);
      next := next[j := lj];
      ghost var before := image[..];
      image[at[j]] := out;
      assert image[..] == before[at[j] := out];
    }
  }

  /** dither_four_block. */
  method DitherFourBlock(image: array<Pixel>, bases: seq<nat>, offsets: seq<seq<nat>>, ghost lane: seq<int>,
                         ghost place: seq<int>)
    requires |lane| == image.Length && PlacedFour(lane, place, bases, offsets)
    modifies image
    ensures forall p :: 0 <= p < image.Length ==>
              image[p] == if lane[p] >= 0
                          then BlockOut(true, Taken(old(image[..]), bases[lane[p]], offsets[lane[p]]), place[p])
                          else old(image[p])
  {
    hide LanesOk, BlockOut;
    ghost var was := image[..];
    ghost var xss := seq(4, j requires 0 <= j < 4 => Taken(was, bases[j], offsets[j]));
    var lanes := [FreshLanes(), FreshLanes(), FreshLanes(), FreshLanes()];
    var m := 7;
    forall j | 0 <= j < 4
      ensures LanesOk(true, lanes[j], m, xss[j], 0)
    {
      FreshLanesOk(true, xss[j]);
    }
    for t := 0 to CELLS
      invariant m < 8 && |lanes| == 4 && Progress(image[..], was, lane, place, xss, t, 0)
      invariant forall j :: 0 <= j < 4 ==> LanesOk(true, lanes[j], m, xss[j], t)
    {
      var at := FourPlaces(bases, offsets, t, lane, place);
      lanes := FourPixels(image, at, lanes, m, was, lane, place, xss, t);
      m := NextSlot(m);
    }
    assert forall p :: 0 <= p < image.Length ==> Rewritten(image[..][p], was[p], lane[p], place[p], xss, CELLS, 0);
  }

  method FourPlaces(bases: seq<nat>, offsets: seq<seq<nat>>, t: nat, ghost lane: seq<int>, ghost place: seq<int>)
    returns (at: seq<nat>)
    requires PlacedFour(lane, place, bases, offsets) && t < CELLS
    ensures |at| == 4 && forall j :: 0 <= j < 4 ==>
              at[j] == bases[j] + offsets[j][t] && at[j] < |lane| && lane[at[j]] == j && place[at[j]] == t
  {
    assert PlacedLane(lane, place, bases[0], offsets[0], 0) && PlacedLane(lane, place, bases[1], offsets[1], 1);
    assert PlacedLane(lane, place, bases[2], offsets[2], 2) && PlacedLane(lane, place, bases[3], offsets[3], 3);
    at := [bases[0] + offsets[0][t], bases[1] + offsets[1][t], bases[2] + offsets[2][t], bases[3] + offsets[3][t]];
  }
}
