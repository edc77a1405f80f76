/** Error diffusion along one block in libdither/image_dither.cpp: the reference
    behaviour of one colour channel, and the two ways the code computes it, one with
    16-bit lanes and rotated rows of weights, one with 8-bit lanes and eight registers.
 */
module DitherKernel {
  import opened Bits

  // --------------------------------------------------------------- the reference

  function Clamp(v: int): byte { if v < 0 then 0 else if v > 255 then 255 else v }

  /** Grid steps: 8 for five bits, 4 for six, 1 for a channel kept whole. */
  type Step = q: nat | q == 1 || q == 4 || q == 8 witness 1

  predicate OnGrid(q: Step, v: byte) { (q == 8 ==> v % 8 == 0) && (q == 4 ==> v % 4 == 0) }

  /** Dropping the low bits of a channel. */
  function Quantize(q: Step, v: byte): (r: byte)
    ensures r <= v < r + q && OnGrid(q, r)
  {
    if q == 8 then v - v % 8 else if q == 4 then v - v % 4 else v
  }

  /** The error of the pixel `age` before the newest one, 0 before the first. */
  function Back(errors: seq<int>, age: nat): int {
    if age < |errors| then errors[|errors| - 1 - age] else 0
  }

  /** The window of the last eight errors, weighted 8, 4, 4, 2, 2, 2, 1, 1 by age. */
  function Window(errors: seq<int>): int {
    8 * Back(errors, 0) + 4 * Back(errors, 1) + 4 * Back(errors, 2) + 2 * Back(errors, 3)
      + 2 * Back(errors, 4) + 2 * Back(errors, 5) + Back(errors, 6) + Back(errors, 7)
  }

  function Wrap8(v: int): int { (v + 128) % 256 - 128 }

  function Saturate8(v: int): int { if v < -128 then -128 else if v > 127 then 127 else v }

  /** The two halves the 8-bit code adds up separately: the newest error with the two
      oldest, and the five between. */
  function OuterHalf(errors: seq<int>): int { 8 * Back(errors, 0) + Back(errors, 6) + Back(errors, 7) }

  function InnerHalf(errors: seq<int>): int {
    4 * Back(errors, 1) + 4 * Back(errors, 2) + 2 * Back(errors, 3) + 2 * Back(errors, 4) + 2 * Back(errors, 5)
  }

  /** What 8-bit arithmetic makes of the window: the halves wrap, their sum saturates. */
  function NarrowWindow(errors: seq<int>): (s: int)
    ensures -128 <= s <= 127
  {
    Saturate8(Wrap8(OuterHalf(errors)) + Wrap8(InnerHalf(errors)))
  }

  /** What the errors so far add to the next pixel. */
  function Feedback(narrow: bool, errors: seq<int>): int {
    (if narrow then NarrowWindow(errors) else Window(errors)) / 8
  }

  function Level(narrow: bool, q: Step, x: byte, errors: seq<int>): byte
  {
    Quantize(q, Clamp(x + Feedback(narrow, errors)))
  }

  function Errors(narrow: bool, q: Step, xs: seq<byte>): (es: seq<int>)
    ensures |es| == |xs|
  {
    if xs == [] then []
    else
      var n := |xs| - 1;
      var es := Errors(narrow, q, xs[..n]);
      es + [xs[n] - Level(narrow, q, xs[n], es)]
  }

  /** The channel after dithering. */
  function Dithered(narrow: bool, q: Step, xs: seq<byte>): (r: seq<byte>)
    ensures |r| == |xs|
  {
    seq(|xs|, i requires 0 <= i < |xs| => Level(narrow, q, xs[i], Errors(narrow, q, xs[..i])))
  }

  lemma {:induction false} ErrorAt(narrow: bool, q: Step, xs: seq<byte>, i: nat)
    requires i < |xs|
    ensures Errors(narrow, q, xs)[i] == (xs[i] as int) - (Dithered(narrow, q, xs)[i] as int)
  {
    hide Level;
    var n := |xs| - 1;
    if i < n {
      ErrorAt(narrow, q, xs[..n], i);
      assert xs[..n][..i] == xs[..i];
      assert Errors(narrow, q, xs)[i] == Errors(narrow, q, xs[..n])[i];
    }
  }

  // ------------------------------------------------------------------- its bounds

  /** Every dithered value is a multiple of the grid step. */
  lemma {:induction false} DitheredOnGrid(narrow: bool, q: Step, xs: seq<byte>, i: nat)
    requires i < |xs|
    ensures OnGrid(q, Dithered(narrow, q, xs)[i])
  {
    hide Feedback, Errors;
  }

  /** Errors never leave -255..255. */
  lemma {:induction false} ErrorBound(narrow: bool, q: Step, xs: seq<byte>, i: nat)
    requires i < |xs|
    ensures -255 <= Errors(narrow, q, xs)[i] <= 255
  {
    hide Dithered, Errors;
    ErrorAt(narrow, q, xs, i);
  }

  /** The 8-bit path never moves a channel far: feedback is at most 16 either way, so
      an error is less than 16 + q, and the 8-bit subtraction of a pixel never wraps. */
  lemma {:induction false} NarrowErrorBound(q: Step, xs: seq<byte>, i: nat)
    requires i < |xs|
    ensures -15 <= Errors(true, q, xs)[i] <= 15 + q
    ensures Wrap8(Errors(true, q, xs)[i]) == Errors(true, q, xs)[i]
  {
    hide Errors, NarrowWindow;
    ErrorAt(true, q, xs, i);
    var f := Feedback(true, Errors(true, q, xs[..i]));
    assert -16 <= f <= 15;
    var r := Dithered(true, q, xs)[i];
    assert r == Quantize(q, Clamp(xs[i] + f));
  }

  /** A channel that is on the grid already gathers no error and comes out as it went
      in, on either path. */
  lemma {:induction false} GridChannelUntouched(narrow: bool, q: Step, xs: seq<byte>)
    requires forall i :: 0 <= i < |xs| ==> OnGrid(q, xs[i])
    ensures Dithered(narrow, q, xs) == xs
    ensures forall i :: 0 <= i < |xs| ==> Errors(narrow, q, xs)[i] == 0
  {
    hide Quantize, Errors, Feedback;
    forall i | 0 <= i < |xs|
      ensures Dithered(narrow, q, xs)[i] == xs[i] && Errors(narrow, q, xs)[i] == 0
    {
      NoErrorYet(narrow, q, xs[..i]);
      GridValueKept(q, xs[i]);
      ErrorAt(narrow, q, xs, i);
    }
  }

  lemma {:induction false} GridValueKept(q: Step, v: byte)
    requires OnGrid(q, v)
    ensures Quantize(q, v) == v
  {
  }

  lemma {:induction false} NoErrorYet(narrow: bool, q: Step, xs: seq<byte>)
    requires forall i :: 0 <= i < |xs| ==> OnGrid(q, xs[i])
    ensures forall i :: 0 <= i < |xs| ==> Errors(narrow, q, xs)[i] == 0
    ensures Feedback(narrow, Errors(narrow, q, xs)) == 0
    decreases |xs|
  {
    hide Quantize, Feedback;
    if xs != [] {
      var n := |xs| - 1;
      NoErrorYet(narrow, q, xs[..n]);
      GridValueKept(q, xs[n]);
      assert forall i :: 0 <= i < n ==> Errors(narrow, q, xs)[i] == Errors(narrow, q, xs[..n])[i];
      assert Errors(narrow, q, xs)[n] == xs[n] - Quantize(q, Clamp(xs[n]));
    }
    NoFeedback(narrow, Errors(narrow, q, xs));
  }

  lemma {:induction false} NoFeedback(narrow: bool, errors: seq<int>)
    requires forall i :: 0 <= i < |errors| ==> errors[i] == 0
    ensures Feedback(narrow, errors) == 0
  {
    assert forall a: nat :: Back(errors, a) == 0;
  }

  /** The alpha of the 8-bit path, on a grid of step one, is always on it. */
  lemma {:induction false} ExactChannelUntouched(xs: seq<byte>)
    ensures Dithered(true, 1, xs) == xs
    ensures forall i :: 0 <= i < |xs| ==> Errors(true, 1, xs)[i] == 0
  {
    GridChannelUntouched(true, 1, xs);
  }

  // -------------------------------------------------- when 8 bits are not enough

  /** How many times 256 a value has to come down to fit a signed byte. */
  function Overflow(v: int): int { (v + 128) / 256 }

  /** The window fits a signed byte, and the halves fit too or overflow by opposite
      amounts. */
  predicate HalvesFit(errors: seq<int>) {
    && -128 <= OuterHalf(errors) + InnerHalf(errors) <= 127
    && Overflow(OuterHalf(errors)) + Overflow(InnerHalf(errors)) == 0
  }

  lemma {:induction false} WrapIs(v: int)
    ensures Wrap8(v) == v - 256 * Overflow(v) && -128 <= Wrap8(v) <= 127
  {
  }

  /** For all errors, the 8-bit sum is the true window if and only if the halves fit;
      and nothing short of that feeds the true value back after the shift. */
  lemma {:induction false} NarrowIsTrueIff(errors: seq<int>)
    ensures NarrowWindow(errors) == Window(errors) <==> HalvesFit(errors)
    ensures Feedback(true, errors) == Feedback(false, errors) <==> HalvesFit(errors)
  {
    hide Wrap8, Overflow, Back;
    var a, b := OuterHalf(errors), InnerHalf(errors);
    WrapIs(a);
    WrapIs(b);
    assert Window(errors) == a + b;
    var k := Overflow(a) + Overflow(b);
    assert Wrap8(a) + Wrap8(b) == a + b - 256 * k;
  }

  /** Errors of at most five either way are always added up right. */
  lemma {:induction false} SmallErrorsFit(errors: seq<int>)
    requires forall i :: 0 <= i < |errors| ==> -5 <= errors[i] <= 5
    ensures HalvesFit(errors)
  {
    assert forall a: nat :: -5 <= Back(errors, a) <= 5;
  }

  /** The 8-bit path feeds the true window back at every pixel of the stream. */
  ghost predicate FeedsTrueWindow(q: Step, xs: seq<byte>) {
    forall i :: 0 <= i < |xs| ==>
      Feedback(true, Errors(true, q, xs[..i])) == Window(Errors(true, q, xs[..i])) / 8
  }

  /** The halves fit at every pixel of the stream as the 16-bit path dithers it. */
  ghost predicate FitsThroughout(q: Step, xs: seq<byte>) {
    forall i :: 0 <= i < |xs| ==> HalvesFit(Errors(false, q, xs[..i]))
  }

  lemma {:induction false} ErrorsAgree(q: Step, xs: seq<byte>, n: nat)
    requires n <= |xs|
    requires forall i :: 0 <= i < n ==>
               (Feedback(true, Errors(true, q, xs[..i])) == Feedback(false, Errors(true, q, xs[..i]))
                || HalvesFit(Errors(false, q, xs[..i])))
    ensures Errors(true, q, xs[..n]) == Errors(false, q, xs[..n])
  {
    hide Feedback, HalvesFit, Quantize;
    if n > 0 {
      ErrorsAgree(q, xs, n - 1);
      assert xs[..n][..n - 1] == xs[..n - 1];
      NarrowIsTrueIff(Errors(false, q, xs[..n - 1]));
    }
  }

  /** For every stream: the 8-bit path feeds back the true window at every pixel, if and
      only if the halves fit at every pixel of the 16-bit path; and then both paths give
      the same result. */
  lemma {:induction false} TrueWindowIff(q: Step, xs: seq<byte>)
    ensures FeedsTrueWindow(q, xs) <==> FitsThroughout(q, xs)
    ensures FitsThroughout(q, xs) ==> Dithered(true, q, xs) == Dithered(false, q, xs)
  {
    hide HalvesFit, Quantize, NarrowWindow, Window, Errors;
    if FeedsTrueWindow(q, xs) || FitsThroughout(q, xs) {
      forall i | 0 <= i < |xs|
        ensures Errors(true, q, xs[..i]) == Errors(false, q, xs[..i])
        ensures HalvesFit(Errors(false, q, xs[..i]))
                <==> Feedback(true, Errors(true, q, xs[..i])) == Window(Errors(true, q, xs[..i])) / 8
      {
        ErrorsAgree(q, xs, i);
        NarrowIsTrueIff(Errors(false, q, xs[..i]));
      }
    }
  }

  // ----------------------------------------------------- two streams it gets wrong

  function White(n: nat): (s: seq<byte>)
    ensures |s| == n
  {
    seq(n, _ => 255)
  }

  function Sevens(n: nat): (s: seq<int>)
    ensures |s| == n && forall i :: 0 <= i < n ==> s[i] == 7
  {
    seq(n, _ => 7)
  }

  lemma {:induction false} ErrorsGrow(narrow: bool, q: Step, xs: seq<byte>, x: byte, es: seq<int>, e: int)
    requires Errors(narrow, q, xs) == es && e == x - Level(narrow, q, x, es)
    ensures Errors(narrow, q, xs + [x]) == es + [e]
  {
    hide Level;
    assert (xs + [x])[..|xs|] == xs;
  }

  lemma {:induction false} ErrorsOfNothing(narrow: bool, q: Step)
    ensures Errors(narrow, q, []) == []
  {
  }

  /** One more pixel while the halves fit, in numbers. */
  lemma {:induction false} NextError(xs: seq<byte>, es: seq<int>, outer: int, inner: int, x: byte, e: int)
    requires Errors(true, 8, xs) == es && outer == OuterHalf(es) && inner == InnerHalf(es)
    requires -128 <= outer <= 127 && -128 <= inner <= 127 && -128 <= outer + inner <= 127
    requires e == x - Quantize(8, Clamp(x + (outer + inner) / 8))
    ensures Errors(true, 8, xs + [x]) == es + [e]
  {
    hide Quantize, OuterHalf, InnerHalf, Errors, Wrap8;
    WrapIs(outer);
    WrapIs(inner);
    ErrorsGrow(true, 8, xs, x, es, e);
  }

  lemma {:induction false} EqualErrors(es: seq<int>, n: nat)
    requires es == Sevens(n)
    ensures 0 <= OuterHalf(es) <= 70 && 0 <= InnerHalf(es) <= 98
    ensures n >= 5 ==> 56 <= OuterHalf(es) && 84 <= InnerHalf(es)
  {
    assert forall a: nat :: Back(es, a) == if a < n then 7 else 0;
  }

  lemma {:induction false} WhiteErrors(n: nat)
    ensures Errors(true, 8, White(n)) == Sevens(n)
  {
    hide OuterHalf, InnerHalf, Errors;
    ErrorsOfNothing(true, 8);
    if n == 0 {
      assert White(0) == [] && Sevens(0) == [];
    } else {
      WhiteErrors(n - 1);
      var xs, es := White(n - 1), Sevens(n - 1);
      EqualErrors(es, n - 1);
      assert Level(true, 8, 255, es) == 248;
      ErrorsGrow(true, 8, xs, 255, es, 7);
      assert xs + [255] == White(n) && es + [7] == Sevens(n);
    }
  }

  /** From the fifth white pixel on the sum saturates: the window is 140 to 168, what is
      fed back is that of 127. */
  lemma {:induction false} WhiteSaturates(n: nat)
    requires n >= 5
    ensures var es := Errors(true, 8, White(n)); Window(es) >= 140 && NarrowWindow(es) == 127
  {
    hide Errors;
    WhiteErrors(n);
    EqualErrors(Sevens(n), n);
  }

  lemma {:induction false} FirstThree()
    ensures Errors(true, 8, [247, 254, 9]) == [7, 6, -7]
  {
    hide Errors;
    ErrorsOfNothing(true, 8);
    NextError([], [], 0, 0, 247, 7);
    assert [] + [247 as byte] == [247] && [] + [7] == [7];
    NextError([247], [7], 56, 0, 254, 6);
    assert [247] + [254] == [247, 254] && [7] + [6] == [7, 6];
    NextError([247, 254], [7, 6], 48, 28, 9, -7);
    assert [247, 254] + [9] == [247, 254, 9] && [7, 6] + [-7] == [7, 6, -7];
  }

  lemma {:induction false} FirstSix()
    ensures Errors(true, 8, [247, 254, 9, 254, 9, 100]) == [7, 6, -7, 6, -7, 12]
  {
    hide Errors;
    FirstThree();
    NextError([247, 254, 9], [7, 6, -7], -56, 52, 254, 6);
    assert [247, 254, 9] + [254] == [247, 254, 9, 254] && [7, 6, -7] + [6] == [7, 6, -7, 6];
    NextError([247, 254, 9, 254], [7, 6, -7, 6], 48, 10, 9, -7);
    assert [247, 254, 9, 254] + [9] == [247, 254, 9, 254, 9] && [7, 6, -7, 6] + [-7] == [7, 6, -7, 6, -7];
    NextError([247, 254, 9, 254, 9], [7, 6, -7, 6, -7], -56, 22, 100, 12);
    assert [247, 254, 9, 254, 9] + [100] == [247, 254, 9, 254, 9, 100]
           && [7, 6, -7, 6, -7] + [12] == [7, 6, -7, 6, -7, 12];
  }

  /** Eight pixels after which a half wraps and the feedback has the wrong sign. */
  lemma {:induction false} WrapFlipsTheSign()
    ensures var es := Errors(true, 8, [247, 254, 9, 254, 9, 100, 100, 255]);
            Feedback(false, es) == 14 && Feedback(true, es) == -16
  {
    hide Errors;
    FirstSix();
    NextError([247, 254, 9, 254, 9, 100], [7, 6, -7, 6, -7, 12], 96, 8, 100, -12);
    assert [247, 254, 9, 254, 9, 100] + [100] == [247, 254, 9, 254, 9, 100, 100]
           && [7, 6, -7, 6, -7, 12] + [-12] == [7, 6, -7, 6, -7, 12, -12];
    NextError([247, 254, 9, 254, 9, 100, 100], [7, 6, -7, 6, -7, 12, -12], -89, 30, 255, 15);
    assert [247, 254, 9, 254, 9, 100, 100] + [255] == [247, 254, 9, 254, 9, 100, 100, 255]
           && [7, 6, -7, 6, -7, 12, -12] + [15] == [7, 6, -7, 6, -7, 12, -12, 15];
    assert OuterHalf([7, 6, -7, 6, -7, 12, -12, 15]) == 133 && InnerHalf([7, 6, -7, 6, -7, 12, -12, 15]) == -16;
  }

  // ----------------------------------------------------------------------- CLIP8

  /** The macro on a 32-bit value: the shift is arithmetic. */
  function Clip8(v: int): byte { if 0 <= v <= 255 then v else (-v) / 65536 % 256 }

  lemma ClipIsClamp(v: int)
    requires -65535 <= v <= 65536
    ensures Clip8(v) == Clamp(v)
  {
    if v > 255 {
      assert (-v) / 65536 == -1;
    } else if v < 0 {
      assert (-v) / 65536 == 0;
    }
  }

  /** Outside that range it is wrong. */
  lemma ClipWrongBeyond(v: int)
    requires 65536 < v <= 131072 || -131072 < v <= -65536
    ensures Clip8(v) != Clamp(v)
  {
    if v > 0 {
      assert (-v) / 65536 == -2;
    } else {
      assert (-v) / 65536 == 1;
    }
  }

  ghost predicate Bounded(errors: seq<int>) { forall i :: 0 <= i < |errors| ==> -255 <= errors[i] <= 255 }

  lemma {:induction false} WindowBound(errors: seq<int>)
    requires Bounded(errors)
    ensures -6120 <= Window(errors) <= 6120
  {
    assert forall a: nat :: -255 <= Back(errors, a) <= 255;
  }

  // --------------------------------------------------------------------- the ring

  /** The ring slot that holds the error of a given age when slot m holds the newest. */
  function SlotOf(m: nat, age: nat): nat
    requires m < 8 && age < 8
  {
    if age <= m then m - age else m - age + 8
  }

  function NextSlot(m: nat): nat { if m == 7 then 0 else m + 1 }

  ghost predicate Ring(ring: seq<int>, m: nat, errors: seq<int>) {
    && |ring| == 8 && m < 8
    && ring[SlotOf(m, 0)] == Back(errors, 0) && ring[SlotOf(m, 1)] == Back(errors, 1)
    && ring[SlotOf(m, 2)] == Back(errors, 2) && ring[SlotOf(m, 3)] == Back(errors, 3)
    && ring[SlotOf(m, 4)] == Back(errors, 4) && ring[SlotOf(m, 5)] == Back(errors, 5)
    && ring[SlotOf(m, 6)] == Back(errors, 6) && ring[SlotOf(m, 7)] == Back(errors, 7)
  }

  lemma {:induction false} RingPush(ring: seq<int>, m: nat, errors: seq<int>, e: int)
    requires Ring(ring, m, errors)
    ensures Ring(ring[NextSlot(m) := e], NextSlot(m), errors + [e])
  {
    forall a: nat
      ensures Back(errors + [e], a + 1) == Back(errors, a)
    {
    }
    assert Back(errors + [e], 0) == e;
  }

  /** s_weight. */
  function Weights(m: nat): (row: seq<int>)
    requires m < 8
    ensures |row| == 8
  {
    if m == 0 then [8, 1, 1, 2, 2, 2, 4, 4]
    else if m == 1 then [4, 8, 1, 1, 2, 2, 2, 4]
    else if m == 2 then [4, 4, 8, 1, 1, 2, 2, 2]
    else if m == 3 then [2, 4, 4, 8, 1, 1, 2, 2]
    else if m == 4 then [2, 2, 4, 4, 8, 1, 1, 2]
    else if m == 5 then [2, 2, 2, 4, 4, 8, 1, 1]
    else if m == 6 then [1, 2, 2, 2, 4, 4, 8, 1]
    else [1, 1, 2, 2, 2, 4, 4, 8]
  }

  function Wrap16(v: int): int { (v + 32768) % 65536 - 32768 }

  /** vmulq_s16 and the pairwise sums: products in 16-bit lanes, summed in wider ones. */
  function LaneSum(ring: seq<int>, row: seq<int>): int
    requires |ring| == 8 == |row|
  {
    Wrap16(ring[0] * row[0]) + Wrap16(ring[1] * row[1]) + Wrap16(ring[2] * row[2]) + Wrap16(ring[3] * row[3])
      + Wrap16(ring[4] * row[4]) + Wrap16(ring[5] * row[5]) + Wrap16(ring[6] * row[6]) + Wrap16(ring[7] * row[7])
  }

  lemma {:induction false} NoWrap16(e: int, w: int)
    requires -255 <= e <= 255 && Weight(w)
    ensures Wrap16(e * w) == e * w
  {
  }

  predicate Weight(w: int) { w == 1 || w == 2 || w == 4 || w == 8 }

  lemma {:induction false} RowSum(ring: seq<int>, w0: int, w1: int, w2: int, w3: int, w4: int, w5: int, w6: int,
                                  w7: int)
    requires |ring| == 8 && forall i :: 0 <= i < 8 ==> -255 <= ring[i] <= 255
    requires Weight(w0) && Weight(w1) && Weight(w2) && Weight(w3) && Weight(w4) && Weight(w5) && Weight(w6)
             && Weight(w7)
    ensures LaneSum(ring, [w0, w1, w2, w3, w4, w5, w6, w7])
         == ring[0] * w0 + ring[1] * w1 + ring[2] * w2 + ring[3] * w3
            + ring[4] * w4 + ring[5] * w5 + ring[6] * w6 + ring[7] * w7
  {
    hide Wrap16;
    NoWrap16(ring[0], w0);
    NoWrap16(ring[1], w1);
    NoWrap16(ring[2], w2);
    NoWrap16(ring[3], w3);
    NoWrap16(ring[4], w4);
    NoWrap16(ring[5], w5);
    NoWrap16(ring[6], w6);
    NoWrap16(ring[7], w7);
  }

  /** The row for slot m, applied to the ring as it lies in memory, is the window. */
  lemma {:induction false} RotatedRowsAreTheWindow(ring: seq<int>, m: nat, errors: seq<int>)
    requires Ring(ring, m, errors) && forall i :: 0 <= i < 8 ==> -255 <= ring[i] <= 255
    ensures LaneSum(ring, Weights(m)) == Window(errors)
  {
    hide LaneSum, Back;
    match m
    case 0 => RowSum(ring, 8, 1, 1, 2, 2, 2, 4, 4);
    case 1 => RowSum(ring, 4, 8, 1, 1, 2, 2, 2, 4);
    case 2 => RowSum(ring, 4, 4, 8, 1, 1, 2, 2, 2);
    case 3 => RowSum(ring, 2, 4, 4, 8, 1, 1, 2, 2);
    case 4 => RowSum(ring, 2, 2, 4, 4, 8, 1, 1, 2);
    case 5 => RowSum(ring, 2, 2, 2, 4, 4, 8, 1, 1);
    case 6 => RowSum(ring, 1, 2, 2, 2, 4, 4, 8, 1);
    case 7 => RowSum(ring, 1, 1, 2, 2, 2, 4, 4, 8);
  }

  lemma {:induction false} WrapSum(a: int, b: int)
    ensures Wrap8(Wrap8(a) + Wrap8(b)) == Wrap8(a + b)
    ensures Wrap8(Wrap8(a) + b) == Wrap8(a + b)
  {
  }

  lemma {:induction false} WrapTwice(k: int, a: int)
    ensures Wrap8(k * Wrap8(a)) == Wrap8(k * a)
  {
    var n := (a + 128) / 256;
    assert a == Wrap8(a) + 256 * n;
    assert k * a == k * Wrap8(a) + 256 * (k * n);
    WrapMultiple(k * Wrap8(a), k * n);
  }

  lemma {:induction false} WrapMultiple(v: int, n: int)
    ensures Wrap8(v + 256 * n) == Wrap8(v)
  {
  }

  function Ahead(m: nat, d: nat): nat
    requires m < 8 && d < 8
  {
    if m + d < 8 then m + d else m + d - 8
  }

  /** The register code after pixel m of a group of eight, in its own order. */
  function RegisterSum(ring: seq<int>, m: nat): int
    requires |ring| == 8 && m < 8
  {
    var x8 := Wrap8(8 * ring[m]);
    var x1 := Wrap8(ring[Ahead(m, 1)] + ring[Ahead(m, 2)]);
    var x2 := Wrap8(Wrap8(ring[Ahead(m, 3)] + ring[Ahead(m, 4)]) + ring[Ahead(m, 5)]);
    var x4 := Wrap8(ring[Ahead(m, 6)] + ring[Ahead(m, 7)]);
    var sum0 := Wrap8(x8 + x1);
    var sum1 := Wrap8(Wrap8(4 * x4) + Wrap8(2 * x2));
    Saturate8(sum0 + sum1)
  }

  lemma {:induction false} RingRegisters(ring: seq<int>, m: nat, errors: seq<int>)
    requires Ring(ring, m, errors)
    ensures |ring| == 8 && m < 8
    ensures ring[m] == Back(errors, 0) && ring[Ahead(m, 7)] == Back(errors, 1) && ring[Ahead(m, 6)] == Back(errors, 2)
    ensures ring[Ahead(m, 5)] == Back(errors, 3) && ring[Ahead(m, 4)] == Back(errors, 4)
            && ring[Ahead(m, 3)] == Back(errors, 5)
    ensures ring[Ahead(m, 2)] == Back(errors, 6) && ring[Ahead(m, 1)] == Back(errors, 7)
  {
    hide Back;
  }

  /** The register code is the window too, in 8-bit arithmetic. */
  lemma {:induction false} RegistersAreTheWindow(ring: seq<int>, m: nat, errors: seq<int>)
    requires Ring(ring, m, errors)
    ensures RegisterSum(ring, m) == NarrowWindow(errors)
  {
    hide Wrap8, Back, Ahead, SlotOf, Ring, Saturate8;
    RingRegisters(ring, m, errors);
    var b0, b1, b2, b3 := Back(errors, 0), Back(errors, 1), Back(errors, 2), Back(errors, 3);
    var b4, b5, b6, b7 := Back(errors, 4), Back(errors, 5), Back(errors, 6), Back(errors, 7);
    WrapSum(8 * b0, b7 + b6);
    WrapSum(b5 + b4, b3);
    WrapTwice(4, b2 + b1);
    WrapTwice(2, b5 + b4 + b3);
    WrapSum(4 * (b2 + b1), 2 * (b5 + b4 + b3));
    assert 8 * b0 + (b7 + b6) == 8 * b0 + b6 + b7;
    assert 4 * (b2 + b1) + 2 * (b5 + b4 + b3) == 4 * b1 + 4 * b2 + 2 * b3 + 2 * b4 + 2 * b5;
  }
}
