/** The literal tables of s_hilbert_curve in libdither/image_dither.cpp, and the proof
    that they list the curve of `HilbertCurve`.

    An index is taken apart into four base-4 digits and each digit into two bits, high
    bit first; a row of a table below is sixteen points, x and y alternating.
 */
module HilbertTable {
  import opened Bits
  import opened HilbertCurve

  function Pick(hi: bool, lo: bool, a: int, b: int, c: int, d: int): int {
    if hi then (if lo then d else c) else (if lo then b else a)
  }

  function Digit(hi: bool, lo: bool): (q: nat)
    ensures q < 4
  {
    if hi then (if lo then 3 else 2) else (if lo then 1 else 0)
  }

  function At(isY: bool, h1: bool, l1: bool, h0: bool, l0: bool,
              x0: int, y0: int, x1: int, y1: int, x2: int, y2: int, x3: int, y3: int, x4: int, y4: int, x5: int,
                  y5: int, x6: int, y6: int, x7: int, y7: int,
              x8: int, y8: int, x9: int, y9: int, x10: int, y10: int, x11: int, y11: int, x12: int, y12: int, x13: int,
                  y13: int, x14: int, y14: int, x15: int, y15: int): int {
    if isY then
      Pick(h1, l1, Pick(h0, l0, y0, y1, y2, y3), Pick(h0, l0, y4, y5, y6, y7), Pick(h0, l0, y8, y9, y10, y11),
           Pick(h0, l0, y12, y13, y14, y15))
    else
      Pick(h1, l1, Pick(h0, l0, x0, x1, x2, x3), Pick(h0, l0, x4, x5, x6, x7), Pick(h0, l0, x8, x9, x10, x11),
           Pick(h0, l0, x12, x13, x14, x15))
  }

  /** s_hilbert_curve[0]. */
  function Table0(isY: bool, h3: bool, l3: bool, h2: bool, l2: bool, h1: bool, l1: bool, h0: bool, l0: bool): int {
    Pick(h3, l3,
      Pick(h2, l2,
        At(isY, h1, l1, h0, l0, 0, 0, 1, 0, 1, 1, 0, 1, 0, 2, 0, 3, 1, 3, 1, 2,
           2, 2, 2, 3, 3, 3, 3, 2, 3, 1, 2, 1, 2, 0, 3, 0),
        At(isY, h1, l1, h0, l0, 4, 0, 4, 1, 5, 1, 5, 0, 6, 0, 7, 0, 7, 1, 6, 1,
           6, 2, 7, 2, 7, 3, 6, 3, 5, 3, 5, 2, 4, 2, 4, 3),
        At(isY, h1, l1, h0, l0, 4, 4, 4, 5, 5, 5, 5, 4, 6, 4, 7, 4, 7, 5, 6, 5,
           6, 6, 7, 6, 7, 7, 6, 7, 5, 7, 5, 6, 4, 6, 4, 7),
        At(isY, h1, l1, h0, l0, 3, 7, 2, 7, 2, 6, 3, 6, 3, 5, 3, 4, 2, 4, 2, 5,
           1, 5, 1, 4, 0, 4, 0, 5, 0, 6, 1, 6, 1, 7, 0, 7)),
      Pick(h2, l2,
        At(isY, h1, l1, h0, l0, 0, 8, 0, 9, 1, 9, 1, 8, 2, 8, 3, 8, 3, 9, 2, 9,
           2, 10, 3, 10, 3, 11, 2, 11, 1, 11, 1, 10, 0, 10, 0, 11),
        At(isY, h1, l1, h0, l0, 0, 12, 1, 12, 1, 13, 0, 13, 0, 14, 0, 15, 1, 15, 1, 14,
           2, 14, 2, 15, 3, 15, 3, 14, 3, 13, 2, 13, 2, 12, 3, 12),
        At(isY, h1, l1, h0, l0, 4, 12, 5, 12, 5, 13, 4, 13, 4, 14, 4, 15, 5, 15, 5, 14,
           6, 14, 6, 15, 7, 15, 7, 14, 7, 13, 6, 13, 6, 12, 7, 12),
        At(isY, h1, l1, h0, l0, 7, 11, 7, 10, 6, 10, 6, 11, 5, 11, 4, 11, 4, 10, 5, 10,
           5, 9, 4, 9, 4, 8, 5, 8, 6, 8, 6, 9, 7, 9, 7, 8)),
      Pick(h2, l2,
        At(isY, h1, l1, h0, l0, 8, 8, 8, 9, 9, 9, 9, 8, 10, 8, 11, 8, 11, 9, 10, 9,
           10, 10, 11, 10, 11, 11, 10, 11, 9, 11, 9, 10, 8, 10, 8, 11),
        At(isY, h1, l1, h0, l0, 8, 12, 9, 12, 9, 13, 8, 13, 8, 14, 8, 15, 9, 15, 9, 14,
           10, 14, 10, 15, 11, 15, 11, 14, 11, 13, 10, 13, 10, 12, 11, 12),
        At(isY, h1, l1, h0, l0, 12, 12, 13, 12, 13, 13, 12, 13, 12, 14, 12, 15, 13, 15, 13, 14,
           14, 14, 14, 15, 15, 15, 15, 14, 15, 13, 14, 13, 14, 12, 15, 12),
        At(isY, h1, l1, h0, l0, 15, 11, 15, 10, 14, 10, 14, 11, 13, 11, 12, 11, 12, 10, 13, 10,
           13, 9, 12, 9, 12, 8, 13, 8, 14, 8, 14, 9, 15, 9, 15, 8)),
      Pick(h2, l2,
        At(isY, h1, l1, h0, l0, 15, 7, 14, 7, 14, 6, 15, 6, 15, 5, 15, 4, 14, 4, 14, 5,
           13, 5, 13, 4, 12, 4, 12, 5, 12, 6, 13, 6, 13, 7, 12, 7),
        At(isY, h1, l1, h0, l0, 11, 7, 11, 6, 10, 6, 10, 7, 9, 7, 8, 7, 8, 6, 9, 6,
           9, 5, 8, 5, 8, 4, 9, 4, 10, 4, 10, 5, 11, 5, 11, 4),
        At(isY, h1, l1, h0, l0, 11, 3, 11, 2, 10, 2, 10, 3, 9, 3, 8, 3, 8, 2, 9, 2,
           9, 1, 8, 1, 8, 0, 9, 0, 10, 0, 10, 1, 11, 1, 11, 0),
        At(isY, h1, l1, h0, l0, 12, 0, 13, 0, 13, 1, 12, 1, 12, 2, 12, 3, 13, 3, 13, 2,
           14, 2, 14, 3, 15, 3, 15, 2, 15, 1, 14, 1, 14, 0, 15, 0)))
  }

  /** s_hilbert_curve[1]. */
  function Table1(isY: bool, h3: bool, l3: bool, h2: bool, l2: bool, h1: bool, l1: bool, h0: bool, l0: bool): int {
    Pick(h3, l3,
      Pick(h2, l2,
        At(isY, h1, l1, h0, l0, 15, 15, 15, 14, 14, 14, 14, 15, 13, 15, 12, 15, 12, 14, 13, 14,
           13, 13, 12, 13, 12, 12, 13, 12, 14, 12, 14, 13, 15, 13, 15, 12),
        At(isY, h1, l1, h0, l0, 15, 11, 14, 11, 14, 10, 15, 10, 15, 9, 15, 8, 14, 8, 14, 9,
           13, 9, 13, 8, 12, 8, 12, 9, 12, 10, 13, 10, 13, 11, 12, 11),
        At(isY, h1, l1, h0, l0, 11, 11, 10, 11, 10, 10, 11, 10, 11, 9, 11, 8, 10, 8, 10, 9,
           9, 9, 9, 8, 8, 8, 8, 9, 8, 10, 9, 10, 9, 11, 8, 11),
        At(isY, h1, l1, h0, l0, 8, 12, 8, 13, 9, 13, 9, 12, 10, 12, 11, 12, 11, 13, 10, 13,
           10, 14, 11, 14, 11, 15, 10, 15, 9, 15, 9, 14, 8, 14, 8, 15)),
      Pick(h2, l2,
        At(isY, h1, l1, h0, l0, 7, 15, 6, 15, 6, 14, 7, 14, 7, 13, 7, 12, 6, 12, 6, 13,
           5, 13, 5, 12, 4, 12, 4, 13, 4, 14, 5, 14, 5, 15, 4, 15),
        At(isY, h1, l1, h0, l0, 3, 15, 3, 14, 2, 14, 2, 15, 1, 15, 0, 15, 0, 14, 1, 14,
           1, 13, 0, 13, 0, 12, 1, 12, 2, 12, 2, 13, 3, 13, 3, 12),
        At(isY, h1, l1, h0, l0, 3, 11, 3, 10, 2, 10, 2, 11, 1, 11, 0, 11, 0, 10, 1, 10,
           1, 9, 0, 9, 0, 8, 1, 8, 2, 8, 2, 9, 3, 9, 3, 8),
        At(isY, h1, l1, h0, l0, 4, 8, 5, 8, 5, 9, 4, 9, 4, 10, 4, 11, 5, 11, 5, 10,
           6, 10, 6, 11, 7, 11, 7, 10, 7, 9, 6, 9, 6, 8, 7, 8)),
      Pick(h2, l2,
        At(isY, h1, l1, h0, l0, 7, 7, 6, 7, 6, 6, 7, 6, 7, 5, 7, 4, 6, 4, 6, 5,
           5, 5, 5, 4, 4, 4, 4, 5, 4, 6, 5, 6, 5, 7, 4, 7),
        At(isY, h1, l1, h0, l0, 3, 7, 3, 6, 2, 6, 2, 7, 1, 7, 0, 7, 0, 6, 1, 6,
           1, 5, 0, 5, 0, 4, 1, 4, 2, 4, 2, 5, 3, 5, 3, 4),
        At(isY, h1, l1, h0, l0, 3, 3, 3, 2, 2, 2, 2, 3, 1, 3, 0, 3, 0, 2, 1, 2,
           1, 1, 0, 1, 0, 0, 1, 0, 2, 0, 2, 1, 3, 1, 3, 0),
        At(isY, h1, l1, h0, l0, 4, 0, 5, 0, 5, 1, 4, 1, 4, 2, 4, 3, 5, 3, 5, 2,
           6, 2, 6, 3, 7, 3, 7, 2, 7, 1, 6, 1, 6, 0, 7, 0)),
      Pick(h2, l2,
        At(isY, h1, l1, h0, l0, 8, 0, 8, 1, 9, 1, 9, 0, 10, 0, 11, 0, 11, 1, 10, 1,
           10, 2, 11, 2, 11, 3, 10, 3, 9, 3, 9, 2, 8, 2, 8, 3),
        At(isY, h1, l1, h0, l0, 8, 4, 9, 4, 9, 5, 8, 5, 8, 6, 8, 7, 9, 7, 9, 6,
           10, 6, 10, 7, 11, 7, 11, 6, 11, 5, 10, 5, 10, 4, 11, 4),
        At(isY, h1, l1, h0, l0, 12, 4, 13, 4, 13, 5, 12, 5, 12, 6, 12, 7, 13, 7, 13, 6,
           14, 6, 14, 7, 15, 7, 15, 6, 15, 5, 14, 5, 14, 4, 15, 4),
        At(isY, h1, l1, h0, l0, 15, 3, 15, 2, 14, 2, 14, 3, 13, 3, 12, 3, 12, 2, 13, 2,
           13, 1, 12, 1, 12, 0, 13, 0, 14, 0, 14, 1, 15, 1, 15, 0)))
  }

  /** s_hilbert_curve[2]. */
  function Table2(isY: bool, h3: bool, l3: bool, h2: bool, l2: bool, h1: bool, l1: bool, h0: bool, l0: bool): int {
    Pick(h3, l3,
      Pick(h2, l2,
        At(isY, h1, l1, h0, l0, 15, 15, 14, 15, 14, 14, 15, 14, 15, 13, 15, 12, 14, 12, 14, 13,
           13, 13, 13, 12, 12, 12, 12, 13, 12, 14, 13, 14, 13, 15, 12, 15),
        At(isY, h1, l1, h0, l0, 11, 15, 11, 14, 10, 14, 10, 15, 9, 15, 8, 15, 8, 14, 9, 14,
           9, 13, 8, 13, 8, 12, 9, 12, 10, 12, 10, 13, 11, 13, 11, 12),
        At(isY, h1, l1, h0, l0, 11, 11, 11, 10, 10, 10, 10, 11, 9, 11, 8, 11, 8, 10, 9, 10,
           9, 9, 8, 9, 8, 8, 9, 8, 10, 8, 10, 9, 11, 9, 11, 8),
        At(isY, h1, l1, h0, l0, 12, 8, 13, 8, 13, 9, 12, 9, 12, 10, 12, 11, 13, 11, 13, 10,
           14, 10, 14, 11, 15, 11, 15, 10, 15, 9, 14, 9, 14, 8, 15, 8)),
      Pick(h2, l2,
        At(isY, h1, l1, h0, l0, 15, 7, 15, 6, 14, 6, 14, 7, 13, 7, 12, 7, 12, 6, 13, 6,
           13, 5, 12, 5, 12, 4, 13, 4, 14, 4, 14, 5, 15, 5, 15, 4),
        At(isY, h1, l1, h0, l0, 15, 3, 14, 3, 14, 2, 15, 2, 15, 1, 15, 0, 14, 0, 14, 1,
           13, 1, 13, 0, 12, 0, 12, 1, 12, 2, 13, 2, 13, 3, 12, 3),
        At(isY, h1, l1, h0, l0, 11, 3, 10, 3, 10, 2, 11, 2, 11, 1, 11, 0, 10, 0, 10, 1,
           9, 1, 9, 0, 8, 0, 8, 1, 8, 2, 9, 2, 9, 3, 8, 3),
        At(isY, h1, l1, h0, l0, 8, 4, 8, 5, 9, 5, 9, 4, 10, 4, 11, 4, 11, 5, 10, 5,
           10, 6, 11, 6, 11, 7, 10, 7, 9, 7, 9, 6, 8, 6, 8, 7)),
      Pick(h2, l2,
        At(isY, h1, l1, h0, l0, 7, 7, 7, 6, 6, 6, 6, 7, 5, 7, 4, 7, 4, 6, 5, 6,
           5, 5, 4, 5, 4, 4, 5, 4, 6, 4, 6, 5, 7, 5, 7, 4),
        At(isY, h1, l1, h0, l0, 7, 3, 6, 3, 6, 2, 7, 2, 7, 1, 7, 0, 6, 0, 6, 1,
           5, 1, 5, 0, 4, 0, 4, 1, 4, 2, 5, 2, 5, 3, 4, 3),
        At(isY, h1, l1, h0, l0, 3, 3, 2, 3, 2, 2, 3, 2, 3, 1, 3, 0, 2, 0, 2, 1,
           1, 1, 1, 0, 0, 0, 0, 1, 0, 2, 1, 2, 1, 3, 0, 3),
        At(isY, h1, l1, h0, l0, 0, 4, 0, 5, 1, 5, 1, 4, 2, 4, 3, 4, 3, 5, 2, 5,
           2, 6, 3, 6, 3, 7, 2, 7, 1, 7, 1, 6, 0, 6, 0, 7)),
      Pick(h2, l2,
        At(isY, h1, l1, h0, l0, 0, 8, 1, 8, 1, 9, 0, 9, 0, 10, 0, 11, 1, 11, 1, 10,
           2, 10, 2, 11, 3, 11, 3, 10, 3, 9, 2, 9, 2, 8, 3, 8),
        At(isY, h1, l1, h0, l0, 4, 8, 4, 9, 5, 9, 5, 8, 6, 8, 7, 8, 7, 9, 6, 9,
           6, 10, 7, 10, 7, 11, 6, 11, 5, 11, 5, 10, 4, 10, 4, 11),
        At(isY, h1, l1, h0, l0, 4, 12, 4, 13, 5, 13, 5, 12, 6, 12, 7, 12, 7, 13, 6, 13,
           6, 14, 7, 14, 7, 15, 6, 15, 5, 15, 5, 14, 4, 14, 4, 15),
        At(isY, h1, l1, h0, l0, 3, 15, 2, 15, 2, 14, 3, 14, 3, 13, 3, 12, 2, 12, 2, 13,
           1, 13, 1, 12, 0, 12, 0, 13, 0, 14, 1, 14, 1, 15, 0, 15)))
  }

  /** s_hilbert_curve[3]. */
  function Table3(isY: bool, h3: bool, l3: bool, h2: bool, l2: bool, h1: bool, l1: bool, h0: bool, l0: bool): int {
    Pick(h3, l3,
      Pick(h2, l2,
        At(isY, h1, l1, h0, l0, 0, 0, 0, 1, 1, 1, 1, 0, 2, 0, 3, 0, 3, 1, 2, 1,
           2, 2, 3, 2, 3, 3, 2, 3, 1, 3, 1, 2, 0, 2, 0, 3),
        At(isY, h1, l1, h0, l0, 0, 4, 1, 4, 1, 5, 0, 5, 0, 6, 0, 7, 1, 7, 1, 6,
           2, 6, 2, 7, 3, 7, 3, 6, 3, 5, 2, 5, 2, 4, 3, 4),
        At(isY, h1, l1, h0, l0, 4, 4, 5, 4, 5, 5, 4, 5, 4, 6, 4, 7, 5, 7, 5, 6,
           6, 6, 6, 7, 7, 7, 7, 6, 7, 5, 6, 5, 6, 4, 7, 4),
        At(isY, h1, l1, h0, l0, 7, 3, 7, 2, 6, 2, 6, 3, 5, 3, 4, 3, 4, 2, 5, 2,
           5, 1, 4, 1, 4, 0, 5, 0, 6, 0, 6, 1, 7, 1, 7, 0)),
      Pick(h2, l2,
        At(isY, h1, l1, h0, l0, 8, 0, 9, 0, 9, 1, 8, 1, 8, 2, 8, 3, 9, 3, 9, 2,
           10, 2, 10, 3, 11, 3, 11, 2, 11, 1, 10, 1, 10, 0, 11, 0),
        At(isY, h1, l1, h0, l0, 12, 0, 12, 1, 13, 1, 13, 0, 14, 0, 15, 0, 15, 1, 14, 1,
           14, 2, 15, 2, 15, 3, 14, 3, 13, 3, 13, 2, 12, 2, 12, 3),
        At(isY, h1, l1, h0, l0, 12, 4, 12, 5, 13, 5, 13, 4, 14, 4, 15, 4, 15, 5, 14, 5,
           14, 6, 15, 6, 15, 7, 14, 7, 13, 7, 13, 6, 12, 6, 12, 7),
        At(isY, h1, l1, h0, l0, 11, 7, 10, 7, 10, 6, 11, 6, 11, 5, 11, 4, 10, 4, 10, 5,
           9, 5, 9, 4, 8, 4, 8, 5, 8, 6, 9, 6, 9, 7, 8, 7)),
      Pick(h2, l2,
        At(isY, h1, l1, h0, l0, 8, 8, 9, 8, 9, 9, 8, 9, 8, 10, 8, 11, 9, 11, 9, 10,
           10, 10, 10, 11, 11, 11, 11, 10, 11, 9, 10, 9, 10, 8, 11, 8),
        At(isY, h1, l1, h0, l0, 12, 8, 12, 9, 13, 9, 13, 8, 14, 8, 15, 8, 15, 9, 14, 9,
           14, 10, 15, 10, 15, 11, 14, 11, 13, 11, 13, 10, 12, 10, 12, 11),
        At(isY, h1, l1, h0, l0, 12, 12, 12, 13, 13, 13, 13, 12, 14, 12, 15, 12, 15, 13, 14, 13,
           14, 14, 15, 14, 15, 15, 14, 15, 13, 15, 13, 14, 12, 14, 12, 15),
        At(isY, h1, l1, h0, l0, 11, 15, 10, 15, 10, 14, 11, 14, 11, 13, 11, 12, 10, 12, 10, 13,
           9, 13, 9, 12, 8, 12, 8, 13, 8, 14, 9, 14, 9, 15, 8, 15)),
      Pick(h2, l2,
        At(isY, h1, l1, h0, l0, 7, 15, 7, 14, 6, 14, 6, 15, 5, 15, 4, 15, 4, 14, 5, 14,
           5, 13, 4, 13, 4, 12, 5, 12, 6, 12, 6, 13, 7, 13, 7, 12),
        At(isY, h1, l1, h0, l0, 7, 11, 6, 11, 6, 10, 7, 10, 7, 9, 7, 8, 6, 8, 6, 9,
           5, 9, 5, 8, 4, 8, 4, 9, 4, 10, 5, 10, 5, 11, 4, 11),
        At(isY, h1, l1, h0, l0, 3, 11, 2, 11, 2, 10, 3, 10, 3, 9, 3, 8, 2, 8, 2, 9,
           1, 9, 1, 8, 0, 8, 0, 9, 0, 10, 1, 10, 1, 11, 0, 11),
        At(isY, h1, l1, h0, l0, 0, 12, 0, 13, 1, 13, 1, 12, 2, 12, 3, 12, 3, 13, 2, 13,
           2, 14, 3, 14, 3, 15, 2, 15, 1, 15, 1, 14, 0, 14, 0, 15)))
  }

  // -------------------------------------------------------------- the first table

  function IntoX(hi: bool, lo: bool, s: int, x: int, y: int): int { Pick(hi, lo, y, x, x + s, 2 * s - 1 - y) }

  function IntoY(hi: bool, lo: bool, s: int, x: int, y: int): int { Pick(hi, lo, x, y + s, y + s, s - 1 - x) }

  /** The points on the way to a cell, from the innermost quarter outwards. */
  predicate Path(h3: bool, l3: bool, h2: bool, l2: bool, h1: bool, l1: bool, h0: bool, l0: bool,
                 x0: int, y0: int, x1: int, y1: int, x2: int, y2: int, x3: int, y3: int) {
    && x0 == IntoX(h0, l0, 1, 0, 0) && y0 == IntoY(h0, l0, 1, 0, 0)
    && x1 == IntoX(h1, l1, 2, x0, y0) && y1 == IntoY(h1, l1, 2, x0, y0)
    && x2 == IntoX(h2, l2, 4, x1, y1) && y2 == IntoY(h2, l2, 4, x1, y1)
    && x3 == IntoX(h3, l3, 8, x2, y2) && y3 == IntoY(h3, l3, 8, x2, y2)
  }

  lemma {:induction false} FirstTableX(h3: bool, l3: bool, h2: bool, l2: bool, h1: bool, l1: bool, h0: bool, l0: bool,
                                       x0: int, y0: int, x1: int, y1: int, x2: int, y2: int, x3: int, y3: int)
    requires Path(h3, l3, h2, l2, h1, l1, h0, l0, x0, y0, x1, y1, x2, y2, x3, y3)
    ensures Table0(false, h3, l3, h2, l2, h1, l1, h0, l0) == x3
  {
  }

  lemma {:induction false} FirstTableY(h3: bool, l3: bool, h2: bool, l2: bool, h1: bool, l1: bool, h0: bool, l0: bool,
                                       x0: int, y0: int, x1: int, y1: int, x2: int, y2: int, x3: int, y3: int)
    requires Path(h3, l3, h2, l2, h1, l1, h0, l0, x0, y0, x1, y1, x2, y2, x3, y3)
    ensures Table0(true, h3, l3, h2, l2, h1, l1, h0, l0) == y3
  {
  }

  function IndexOf(h3: bool, l3: bool, h2: bool, l2: bool, h1: bool, l1: bool, h0: bool, l0: bool): (i: nat)
    ensures i < 256
  {
    64 * Digit(h3, l3) + 16 * Digit(h2, l2) + 4 * Digit(h1, l1) + Digit(h0, l0)
  }

  lemma {:induction false} IntoByBits(hi: bool, lo: bool, s: nat, p: Point)
    ensures Into(Digit(hi, lo), s, p) == Point(IntoX(hi, lo, s, p.x, p.y), IntoY(hi, lo, s, p.x, p.y))
  {
  }

  /** The curve, digit by digit. */
  lemma {:induction false} HilbertByDigits(q3: nat, q2: nat, q1: nat, q0: nat)
    requires q3 < 4 && q2 < 4 && q1 < 4 && q0 < 4
    ensures 64 * q3 + 16 * q2 + 4 * q1 + q0 < Area(4)
    ensures Hilbert(4, 64 * q3 + 16 * q2 + 4 * q1 + q0)
            == Into(q3, 8, Into(q2, 4, Into(q1, 2, Into(q0, 1, Point(0, 0)))))
  {
    hide Hilbert, Into;
    LevelFour();
    LevelZero();
    WithinQuarter(0, q0, q0, 0);
    WithinQuarter(1, 4 * q1 + q0, q1, q0);
    WithinQuarter(2, 16 * q2 + 4 * q1 + q0, q2, 4 * q1 + q0);
    WithinQuarter(3, 64 * q3 + 16 * q2 + 4 * q1 + q0, q3, 16 * q2 + 4 * q1 + q0);
  }

  lemma {:induction false} LevelZero()
    ensures Power(0) == 1 && Area(0) == 1 && Hilbert(0, 0) == Point(0, 0)
  {
  }

  lemma {:induction false} FirstTable(h3: bool, l3: bool, h2: bool, l2: bool, h1: bool, l1: bool, h0: bool, l0: bool)
    ensures IndexOf(h3, l3, h2, l2, h1, l1, h0, l0) < Area(4)
    ensures Hilbert(4, IndexOf(h3, l3, h2, l2, h1, l1, h0, l0))
            == Point(Table0(false, h3, l3, h2, l2, h1, l1, h0, l0), Table0(true, h3, l3, h2, l2, h1, l1, h0, l0))
  {
    hide Table0, Into, IntoX, IntoY, Hilbert;
    HilbertByDigits(Digit(h3, l3), Digit(h2, l2), Digit(h1, l1), Digit(h0, l0));
    IntoByBits(h0, l0, 1, Point(0, 0));
    var p0 := Into(Digit(h0, l0), 1, Point(0, 0));
    IntoByBits(h1, l1, 2, p0);
    var p1 := Into(Digit(h1, l1), 2, p0);
    IntoByBits(h2, l2, 4, p1);
    var p2 := Into(Digit(h2, l2), 4, p1);
    IntoByBits(h3, l3, 8, p2);
    var p3 := Into(Digit(h3, l3), 8, p2);
    FirstTableX(h3, l3, h2, l2, h1, l1, h0, l0, p0.x, p0.y, p1.x, p1.y, p2.x, p2.y, p3.x, p3.y);
    FirstTableY(h3, l3, h2, l2, h1, l1, h0, l0, p0.x, p0.y, p1.x, p1.y, p2.x, p2.y, p3.x, p3.y);
  }

  // -------------------------------------------------------- the other three tables

  lemma {:induction false} SecondTable(h3: bool, l3: bool, h2: bool, l2: bool, h1: bool, l1: bool, h0: bool, l0: bool)
    ensures Table1(false, h3, l3, h2, l2, h1, l1, h0, l0) == 15 - Table0(true, h3, l3, h2, l2, h1, l1, h0, l0)
  {
  }

  lemma {:induction false} SecondTableY(h3: bool, l3: bool, h2: bool, l2: bool, h1: bool, l1: bool, h0: bool, l0: bool)
    ensures Table1(true, h3, l3, h2, l2, h1, l1, h0, l0) == 15 - Table0(false, h3, l3, h2, l2, h1, l1, h0, l0)
  {
  }

  lemma {:induction false} ThirdTable(h3: bool, l3: bool, h2: bool, l2: bool, h1: bool, l1: bool, h0: bool, l0: bool)
    ensures Table2(false, h3, l3, h2, l2, h1, l1, h0, l0) == 15 - Table0(false, h3, l3, h2, l2, h1, l1, h0, l0)
  {
  }

  lemma {:induction false} ThirdTableY(h3: bool, l3: bool, h2: bool, l2: bool, h1: bool, l1: bool, h0: bool, l0: bool)
    ensures Table2(true, h3, l3, h2, l2, h1, l1, h0, l0) == 15 - Table0(true, h3, l3, h2, l2, h1, l1, h0, l0)
  {
  }

  lemma {:induction false} FourthTable(isY: bool, h3: bool, l3: bool, h2: bool, l2: bool, h1: bool, l1: bool, h0: bool,
                                       l0: bool)
    ensures Table3(isY, h3, l3, h2, l2, h1, l1, h0, l0) == Table0(!isY, h3, l3, h2, l2, h1, l1, h0, l0)
  {
  }

  function Table(c: nat, isY: bool, h3: bool, l3: bool, h2: bool, l2: bool, h1: bool, l1: bool, h0: bool,
                 l0: bool): int {
    if c == 0 then Table0(isY, h3, l3, h2, l2, h1, l1, h0, l0)
    else if c == 1 then Table1(isY, h3, l3, h2, l2, h1, l1, h0, l0)
    else if c == 2 then Table2(isY, h3, l3, h2, l2, h1, l1, h0, l0)
    else Table3(isY, h3, l3, h2, l2, h1, l1, h0, l0)
  }

  /** Every entry of the four tables is the point of its curve at its index. */
  lemma {:induction false} TablesListTheCurves(c: nat, h3: bool, l3: bool, h2: bool, l2: bool, h1: bool, l1: bool,
                                               h0: bool, l0: bool)
    requires c < 4
    ensures Point(Table(c, false, h3, l3, h2, l2, h1, l1, h0, l0), Table(c, true, h3, l3, h2, l2, h1, l1, h0, l0))
            == Cell(c, IndexOf(h3, l3, h2, l2, h1, l1, h0, l0))
  {
    hide Table0, Table1, Table2, Table3, Hilbert;
    FirstTable(h3, l3, h2, l2, h1, l1, h0, l0);
    SecondTable(h3, l3, h2, l2, h1, l1, h0, l0);
    SecondTableY(h3, l3, h2, l2, h1, l1, h0, l0);
    ThirdTable(h3, l3, h2, l2, h1, l1, h0, l0);
    ThirdTableY(h3, l3, h2, l2, h1, l1, h0, l0);
    FourthTable(false, h3, l3, h2, l2, h1, l1, h0, l0);
    FourthTable(true, h3, l3, h2, l2, h1, l1, h0, l0);
  }

  lemma {:induction false} DigitBits(q: nat) returns (hi: bool, lo: bool)
    requires q < 4
    ensures Digit(hi, lo) == q
  {
    hi, lo := q >= 2, q == 1 || q == 3;
  }

  lemma {:induction false} SplitDigit(i: nat, unit: nat) returns (q: nat, r: nat)
    requires i < 4 * unit
    ensures q < 4 && r < unit && i == Start(q, unit) + r
  {
    q := QuarterOfIndex(i, unit);
    r := i - Start(q, unit);
  }

  lemma {:induction false} BitsOfIndex(i: nat)
    returns (h3: bool, l3: bool, h2: bool, l2: bool, h1: bool, l1: bool, h0: bool, l0: bool)
    requires i < 256
    ensures IndexOf(h3, l3, h2, l2, h1, l1, h0, l0) == i
  {
    hide Digit;
    var q3, r3 := SplitDigit(i, 64);
    var q2, r2 := SplitDigit(r3, 16);
    var q1, r1 := SplitDigit(r2, 4);
    h3, l3 := DigitBits(q3);
    h2, l2 := DigitBits(q2);
    h1, l1 := DigitBits(q1);
    h0, l0 := DigitBits(r1);
    assert Start(q3, 64) == 64 * q3 && Start(q2, 16) == 16 * q2 && Start(q1, 4) == 4 * q1;
  }

  /** The coordinate list is s_hilbert_curve[c] as it lies in memory. */
  ghost predicate IsTable(coorTbl: seq<int>, c: nat) {
    |coorTbl| == 512 &&
    forall h3: bool, l3: bool, h2: bool, l2: bool, h1: bool, l1: bool, h0: bool, l0: bool ::
      && coorTbl[2 * IndexOf(h3, l3, h2, l2, h1, l1, h0, l0)] == Table(c, false, h3, l3, h2, l2, h1, l1, h0, l0)
      && coorTbl[2 * IndexOf(h3, l3, h2, l2, h1, l1, h0, l0) + 1] == Table(c, true, h3, l3, h2, l2, h1, l1, h0, l0)
  }

  lemma {:induction false} TableEntry(coorTbl: seq<int>, c: nat, i: nat)
    requires c < 4 && i < 256 && IsTable(coorTbl, c)
    ensures coorTbl[2 * i] == Cell(c, i).x && coorTbl[2 * i + 1] == Cell(c, i).y
  {
    hide Table, Cell;
    var h3, l3, h2, l2, h1, l1, h0, l0 := BitsOfIndex(i);
    TablesListTheCurves(c, h3, l3, h2, l2, h1, l1, h0, l0);
  }

  /** s_hilbert_curve[c] as a list of 512 numbers. */
  function CurveTable(c: nat): (t: seq<int>)
    ensures |t| == 512
  {
    seq(512, k requires 0 <= k < 512 => EntryAt(c, k / 2, k % 2 == 1))
  }

  predicate High(q: nat) { q >= 2 }

  predicate Odd(q: nat) { q == 1 || q == 3 }

  /** Entry i, found digit by digit. */
  function EntryAt(c: nat, i: nat, isY: bool): int
    requires i < 256
  {
    var q3 := QuarterOfIndex(i, 64);
    var r3 := i - Start(q3, 64);
    var q2 := QuarterOfIndex(r3, 16);
    var r2 := r3 - Start(q2, 16);
    var q1 := QuarterOfIndex(r2, 4);
    var q0 := r2 - Start(q1, 4);
    Table(c, isY, High(q3), Odd(q3), High(q2), Odd(q2), High(q1), Odd(q1), High(q0), Odd(q0))
  }

  lemma {:induction false} DigitBack(hi: bool, lo: bool)
    ensures High(Digit(hi, lo)) == hi && Odd(Digit(hi, lo)) == lo
    ensures Start(Digit(hi, lo), 64) == 64 * Digit(hi, lo) && Start(Digit(hi, lo), 16) == 16 * Digit(hi, lo)
    ensures Start(Digit(hi, lo), 4) == 4 * Digit(hi, lo)
  {
  }

  lemma {:induction false} EntryAtIndex(c: nat, isY: bool, h3: bool, l3: bool, h2: bool, l2: bool, h1: bool, l1: bool,
                                        h0: bool, l0: bool)
    ensures EntryAt(c, IndexOf(h3, l3, h2, l2, h1, l1, h0, l0), isY) == Table(c, isY, h3, l3, h2, l2, h1, l1, h0, l0)
  {
    hide Table, Digit, QuarterOfIndex, Start, High, Odd;
    var q3, q2, q1, q0 := Digit(h3, l3), Digit(h2, l2), Digit(h1, l1), Digit(h0, l0);
    DigitBack(h3, l3);
    DigitBack(h2, l2);
    DigitBack(h1, l1);
    DigitBack(h0, l0);
    QuarterOfSum(q1, 4, q0);
    QuarterOfSum(q2, 16, Start(q1, 4) + q0);
    QuarterOfSum(q3, 64, Start(q2, 16) + (Start(q1, 4) + q0));
  }

  lemma {:induction false} CurveTableIsTable(c: nat)
    ensures IsTable(CurveTable(c), c)
  {
    hide Table, IndexOf, EntryAt;
    var t := CurveTable(c);
    forall h3: bool, l3: bool, h2: bool, l2: bool, h1: bool, l1: bool, h0: bool, l0: bool
      ensures t[2 * IndexOf(h3, l3, h2, l2, h1, l1, h0, l0)] == Table(c, false, h3, l3, h2, l2, h1, l1, h0, l0)
      ensures t[2 * IndexOf(h3, l3, h2, l2, h1, l1, h0, l0) + 1] == Table(c, true, h3, l3, h2, l2, h1, l1, h0, l0)
    {
      var i := IndexOf(h3, l3, h2, l2, h1, l1, h0, l0);
      EntryAtIndex(c, false, h3, l3, h2, l2, h1, l1, h0, l0);
      EntryAtIndex(c, true, h3, l3, h2, l2, h1, l1, h0, l0);
      assert 2 * i / 2 == i && 2 * i % 2 == 0 && (2 * i + 1) / 2 == i && (2 * i + 1) % 2 == 1;
    }
  }
}
