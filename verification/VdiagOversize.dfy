/** Frames that fill half the buffer before they end, in engmode/vdiag.c. After the read
    that does it eng_diag_parse decodes the accumulator in place. A frame the application
    processor then claims goes on being gathered behind the result, and is decoded again
    after every further unfinished read; what eng_diag is offered in the end may have been
    decoded many times, in part. Any other frame goes to the modem, the decoded part first.
 */
module VdiagOversize {
  import opened Bits
  import opened DiagFraming
  import opened VdiagRouter

  const HALF: nat := CAPACITY / 2

  /** The accumulator after a read that does not finish the frame. */
  function Grown(acc: seq<byte>, chunk: seq<byte>): (r: seq<byte>)
    ensures |r| == |acc| + |chunk|
  {
    if |acc + chunk| >= HALF then Parsed(acc + chunk) else acc + chunk
  }

  /** What the accumulator holds when the last read has finished the frame. */
  function Gathered(acc: seq<byte>, chunks: seq<seq<byte>>): seq<byte>
    requires chunks != []
    decreases |chunks|
  {
    if |chunks| == 1 then acc + chunks[0] else Gathered(Grown(acc, chunks[0]), chunks[1..])
  }

  /** The AP claims the frame each time it is asked. */
  ghost predicate Owned(c: Classifier, acc: seq<byte>, chunks: seq<seq<byte>>)
    decreases |chunks|
  {
    |chunks| > 1 ==>
      && (|acc + chunks[0]| >= HALF ==> c.owns(Parsed(acc + chunks[0])))
      && Owned(c, Grown(acc, chunks[0]), chunks[1..])
  }

  // ------------------------------------------------------------- what is offered

  lemma {:induction false} RouteOwned(c: Classifier, acc: seq<byte>, chunk: seq<byte>, f: seq<byte>)
    requires RawFrame(f) && |f| < CAPACITY && chunk != [] && |acc| + |chunk| <= |f|
    requires chunk == f[|acc|..|acc| + |chunk|]
    requires HALF <= |acc + chunk| < |f| ==> c.owns(Parsed(acc + chunk))
    ensures Route(c, State(false, acc), chunk)
         == if |acc| + |chunk| < |f| then Outcome(State(false, Grown(acc, chunk)), [], [])
            else Outcome(State(false, []), [acc + chunk], if c.handles(Parsed(acc + chunk)) then [] else acc + chunk)
  {
    hide Scan, Parsed;
    ReadIntoFrame(acc, chunk, f);
  }

  /** A frame the AP owns, cut into reads at any places, is offered once, as the reads
      have gathered it; and that is also what the modem gets if eng_diag declines it. */
  lemma {:induction false} OwnedFrameOffered(c: Classifier, acc: seq<byte>, chunks: seq<seq<byte>>, f: seq<byte>)
    requires RawFrame(f) && |f| < CAPACITY
    requires chunks != [] && NonEmptyReads(chunks) && Owned(c, acc, chunks)
    requires |acc| <= |f| && Concat(chunks) == f[|acc|..]
    ensures var g := Gathered(acc, chunks);
            Run(c, State(false, acc), chunks) == Outcome(State(false, []), [g], if c.handles(Parsed(g)) then [] else g)
    decreases |chunks|
  {
    hide Parsed, Route, RawFrame;
    var chunk, more := chunks[0], Concat(chunks[1..]);
    assert chunk + more == f[|acc|..];
    assert chunk == f[|acc|..|acc| + |chunk|];
    var first := Route(c, State(false, acc), chunk);
    if |chunks| == 1 {
      assert more == [];
      RouteOwned(c, acc, chunk, f);
      ThenSilent(State(false, []), first);
      RunNothing(c, first.next);
      assert chunks[1..] == [];
    } else {
      assert chunks[1..][0] != [] && more != [];
      RouteOwned(c, acc, chunk, f);
      var acc' := Grown(acc, chunk);
      assert more == f[|acc'|..];
      OwnedFrameOffered(c, acc', chunks[1..], f);
      ThenSilent(State(false, acc'), Run(c, State(false, acc'), chunks[1..]));
    }
  }

  // ----------------------------------------------------------------- one more pass

  /** Specials move a zero tail forward, and nothing else reaches its first position. */
  lemma {:induction false} PassOverZeros(b: seq<byte>, i: nat, len: nat, t: nat)
    requires len < |b| && (t < len || i > t) && t < |b|
    requires forall k :: t < k < |b| ==> b[k] == 0
    ensures forall k :: t < k < |b| ==> DecodeFrom(b, i, len)[k] == 0
    ensures (exists k :: i <= k < t && Special(b[k])) ==> DecodeFrom(b, i, len)[t] == 0
    ensures (forall k :: i <= k < t ==> !Special(b[k])) && i <= t ==>
              DecodeFrom(b, i, len)[t] == if Special(b[t]) then 32 else b[t]
    decreases len - i
  {
    hide DecodeFrom, Unstuffed;
    DecodeStep(b, i, len);
    if i < len {
      if Special(b[i]) {
        var next := Unstuffed(b, i, len);
        ZerosShift(b, i, len, t);
        DecodeKeepsFront(next, i + 1, len - 1);
        PassOverZeros(next, i + 1, len - 1, if i < t then t - 1 else t);
      } else {
        PassOverZeros(b, i + 1, len, t);
        if i == t {
          DecodeKeepsFront(b, i + 1, len);
        }
      }
    }
  }

  lemma {:induction false} ZerosShift(b: seq<byte>, i: nat, len: nat, t: nat)
    requires i < len < |b| && t < len && Special(b[i]) && i <= t
    requires forall k :: t < k < |b| ==> b[k] == 0
    ensures var next := Unstuffed(b, i, len);
            if i < t then forall k :: t <= k < |b| ==> next[k] == 0
            else next[t] == 32 && forall k :: t < k < |b| ==> next[k] == 0
  {
  }

  /** Up to the first special byte the pass changes nothing. */
  lemma {:induction false} PassKeepsPlain(b: seq<byte>, i: nat, len: nat, m: nat)
    requires len < |b| && m <= |b| && forall k :: i <= k < m ==> !Special(b[k])
    ensures forall k :: 0 <= k < m ==> DecodeFrom(b, i, len)[k] == b[k]
    decreases len - i
  {
    hide DecodeFrom, Unstuffed;
    DecodeStep(b, i, len);
    if i < len {
      if i < m {
        PassKeepsPlain(b, i + 1, len, m);
      } else {
        DecodeStep(b, i, len);
        DecodeKeepsFront(b, i, len);
      }
    }
  }

  // ------------------------------------------------- a byte that never comes back

  /** No special byte from the second position up to, but not including, n. */
  predicate Plain(f: seq<byte>, n: nat)
    requires n <= |f|
  {
    forall k :: 1 <= k < n ==> !Special(f[k])
  }

  /** Nothing special up to t: no pass will ever change byte t again. */
  predicate Frozen(a: seq<byte>, t: nat)
    requires t < |a|
  {
    Plain(a, t + 1)
  }

  /** Byte t is the last of f so far that is not zero, and in the accumulator only zeros
      follow it. */
  predicate AtTheEnd(a: seq<byte>, f: seq<byte>, t: nat)
    requires t < |a| <= |f|
  {
    f[t] != 0 && !Special(a[t]) && forall k :: t < k < |a| ==> a[k] == 0 && f[k] == 0
  }

  ghost predicate LostAt(a: seq<byte>, f: seq<byte>, t: nat)
    requires |a| <= |f|
  {
    1 <= t < |a| && a[t] != f[t] && (Frozen(a, t) || AtTheEnd(a, f, t))
  }

  /** Some byte of the frame is wrong and will stay wrong. */
  ghost predicate Lost(a: seq<byte>, f: seq<byte>)
    requires |a| <= |f|
  {
    exists t :: LostAt(a, f, t)
  }

  /** The last of the first n bytes that is not zero. */
  function LastNonZero(f: seq<byte>, n: nat): (t: nat)
    requires n <= |f| && exists k :: 0 <= k < n && f[k] != 0
    ensures t < n && f[t] != 0 && forall k :: t < k < n ==> f[k] == 0
  {
    if f[n - 1] != 0 then n - 1 else LastNonZero(f, n - 1)
  }

  /** A pass that meets a special byte loses the last byte that is not zero. */
  lemma {:induction false} PassLoses(e: seq<byte>, f: seq<byte>, s: nat, t: nat)
    requires 1 <= s <= t < |e| <= |f| && Special(e[s]) && f[t] != 0
    requires s < t || e[t] == f[t]
    requires forall k :: t < k < |e| ==> e[k] == 0 && f[k] == 0
    ensures LostAt(Parsed(e), f, t)
  {
    hide DecodeFrom;
    var b := e + [0];
    assert Special(b[s]);
    PassOverZeros(b, 1, |e|, t);
    if exists k :: 1 <= k < t && Special(b[k]) {
      assert Parsed(e)[t] == 0;
    } else {
      assert s == t && Parsed(e)[t] == 32;
    }
    assert forall k :: t < k < |e| ==> Parsed(e)[k] == DecodeFrom(b, 1, |e|)[k] == 0;
  }

  lemma {:induction false} FrozenStays(e: seq<byte>, f: seq<byte>, t: nat)
    requires 1 <= t < |e| <= |f| && Frozen(e, t) && e[t] != f[t]
    ensures LostAt(Parsed(e), f, t)
  {
    hide DecodeFrom;
    PassKeepsPlain(e + [0], 1, |e|, t + 1);
    assert forall k :: 1 <= k < t + 1 ==> Parsed(e)[k] == (e + [0])[k] == e[k];
  }

  /** What is lost stays lost when more of the frame is appended and decoded. */
  lemma {:induction false} LostStays(a: seq<byte>, chunk: seq<byte>, f: seq<byte>)
    requires |a| + |chunk| <= |f| && Lost(a, f) && chunk == f[|a|..|a| + |chunk|]
    ensures Lost(Parsed(a + chunk), f)
  {
    hide Parsed;
    var e := a + chunk;
    var t: nat :| LostAt(a, f, t);
    assert forall k :: 0 <= k < |a| ==> e[k] == a[k];
    assert forall k :: |a| <= k < |e| ==> e[k] == f[k];
    if Frozen(e, t) {
      FrozenStays(e, f, t);
    } else {
      var s: nat :| 1 <= s < t + 1 && Special(e[s]);
      assert s < t;
      var u := LastNonZero(f, |e|);
      assert u >= t;
      PassLoses(e, f, s, u);
      assert LostAt(Parsed(e), f, u);
    }
  }

  /** Decoding an intact stretch of the frame either changes nothing or loses a byte. */
  lemma {:induction false} IntactOrLost(f: seq<byte>, n: nat)
    requires n <= |f|
    ensures if Plain(f, n) then Parsed(f[..n]) == f[..n] else Lost(Parsed(f[..n]), f)
  {
    hide DecodeFrom;
    var e := f[..n];
    if Plain(f, n) {
      PassChangesEscapes(e, e + [0], if n == 0 then 0 else 1);
    } else {
      var s: nat :| 1 <= s < n && Special(f[s]);
      assert f[s] != 0;
      var t := LastNonZero(f, n);
      PassLoses(e, f, s, t);
    }
  }

  /** The accumulator holds the frame as far as it goes, unless a special byte was in it
      at a read that left half the buffer filled. */
  ghost predicate Faithful(acc: seq<byte>, f: seq<byte>) {
    && |acc| <= |f|
    && if |acc| < HALF || Plain(f, |acc|) then acc == f[..|acc|] else Lost(acc, f)
  }

  lemma {:induction false} GrownFaithful(acc: seq<byte>, chunk: seq<byte>, f: seq<byte>)
    requires Faithful(acc, f) && |acc| + |chunk| <= |f| && chunk == f[|acc|..|acc| + |chunk|]
    ensures Faithful(Grown(acc, chunk), f)
  {
    hide Parsed, Lost;
    var e := acc + chunk;
    if |e| >= HALF {
      if |acc| < HALF || Plain(f, |acc|) {
        assert e == f[..|e|];
        IntactOrLost(f, |e|);
      } else {
        LostStays(acc, chunk, f);
        assert !Plain(f, |e|);
      }
    } else {
      assert e == f[..|e|];
    }
  }

  lemma {:induction false} GatheredRawIff(acc: seq<byte>, chunks: seq<seq<byte>>, f: seq<byte>)
    requires Faithful(acc, f) && chunks != [] && NonEmptyReads(chunks) && Concat(chunks) == f[|acc|..]
    ensures |chunks[|chunks| - 1]| <= |f|
    ensures var n := |f| - |chunks[|chunks| - 1]|;
            Gathered(acc, chunks) == f <==> n < HALF || Plain(f, n)
    decreases |chunks|
  {
    hide Grown, Plain;
    var chunk, more := chunks[0], Concat(chunks[1..]);
    assert chunk + more == f[|acc|..];
    assert chunk == f[|acc|..|acc| + |chunk|];
    if |chunks| == 1 {
      assert more == [] && |acc| == |f| - |chunk|;
      LastRead(acc, chunk, f);
    } else {
      GrownFaithful(acc, chunk, f);
      assert more == f[|Grown(acc, chunk)|..];
      GatheredRawIff(Grown(acc, chunk), chunks[1..], f);
    }
  }

  lemma {:induction false} LastRead(acc: seq<byte>, chunk: seq<byte>, f: seq<byte>)
    requires Faithful(acc, f) && |acc| + |chunk| == |f| && chunk == f[|acc|..]
    ensures acc + chunk == f <==> |acc| < HALF || Plain(f, |acc|)
  {
    if |acc| < HALF || Plain(f, |acc|) {
      assert acc == f[..|acc|];
    } else {
      var t: nat :| LostAt(acc, f, t);
      assert (acc + chunk)[t] != f[t];
    }
  }

  /** A frame the AP owns, of any size the accumulator holds and cut into reads anywhere:
      eng_diag is offered its raw bytes, and the modem gets them when eng_diag declines,
      if and only if less than half the buffer was filled before the last read or
      nothing was stuffed in what was. No number of decodings undoes the damage. */
  lemma {:induction false} OwnedIntactIff(c: Classifier, chunks: seq<seq<byte>>, f: seq<byte>)
    requires RawFrame(f) && |f| < CAPACITY && Reads(chunks, f) && Owned(c, [], chunks)
    ensures chunks != [] && |chunks[|chunks| - 1]| <= |f|
    ensures var n := |f| - |chunks[|chunks| - 1]|;
            Run(c, State(false, []), chunks).offered == [f] <==> n < HALF || Plain(f, n)
  {
    hide Run, Owned, Gathered, Parsed;
    assert chunks != [];
    assert f[0..] == f;
    OwnedFrameOffered(c, [], chunks, f);
    GatheredRawIff([], chunks, f);
    var g := Gathered([], chunks);
    assert [g] == [f] <==> g == f;
  }

  // --------------------------------------------------------- frames left to the modem

  /** How much of a frame has arrived at the first unfinished read that finds half the
      buffer filled; 0 if the frame is finished before. */
  function Crossing(n: nat, chunks: seq<seq<byte>>): nat
    decreases |chunks|
  {
    if |chunks| <= 1 then 0
    else if n + |chunks[0]| >= HALF then n + |chunks[0]|
    else Crossing(n + |chunks[0]|, chunks[1..])
  }

  lemma {:induction false} ReadUnfinished(acc: seq<byte>, chunk: seq<byte>, f: seq<byte>)
    requires RawFrame(f) && chunk != [] && |acc| + |chunk| < |f| && |acc| + |chunk| <= CAPACITY
    requires chunk == f[|acc|..|acc| + |chunk|]
    ensures Scan(acc, chunk) == Scanned(acc + chunk, false)
  {
    assert forall k :: 0 <= k < |chunk| ==> chunk[k] == f[|acc| + k];
    if acc == [] {
      ScanMiddle([FLAG], chunk[1..]);
      assert [FLAG] + chunk[1..] == chunk == acc + chunk;
    } else {
      ScanMiddle(acc, chunk);
    }
  }

  lemma {:induction false} ReadsNotEmpty(chunks: seq<seq<byte>>)
    requires NonEmptyReads(chunks)
    ensures Concat(chunks) == [] ==> chunks == []
  {
  }

  /** Once a frame goes to the modem, its reads are passed on up to its closing flag. */
  lemma {:induction false} PassedOn(c: Classifier, chunks: seq<seq<byte>>, f: seq<byte>, n: nat)
    requires RawFrame(f) && 1 <= n < |f| && NonEmptyReads(chunks) && Concat(chunks) == f[n..]
    ensures Run(c, State(true, []), chunks) == Outcome(State(false, []), [], f[n..])
    decreases |chunks|
  {
    hide Scan, Parsed;
    assert chunks != [];
    var chunk, more := chunks[0], Concat(chunks[1..]);
    var m := n + |chunk|;
    assert chunk + more == f[n..] && chunk == f[n..m];
    assert chunk[|chunk| - 1] == f[m - 1];
    var first := Route(c, State(true, []), chunk);
    if more == [] {
      ReadsNotEmpty(chunks[1..]);
      RunNothing(c, first.next);
      assert m == |f|;
    } else {
      assert more == f[m..];
      PassedOn(c, chunks[1..], f, m);
      assert f[n..m] + f[m..] == f[n..];
    }
  }

  lemma {:induction false} RouteUnclaimed(c: Classifier, acc: seq<byte>, chunk: seq<byte>, f: seq<byte>)
    requires RawFrame(f) && chunk != [] && |acc| + |chunk| < |f| && |acc| + |chunk| <= CAPACITY
    requires chunk == f[|acc|..|acc| + |chunk|]
    requires |acc + chunk| >= HALF ==> !c.owns(Parsed(acc + chunk))
    ensures Route(c, State(false, acc), chunk)
         == if |acc + chunk| >= HALF then Outcome(State(true, []), [], Parsed(acc + chunk))
            else Outcome(State(false, acc + chunk), [], [])
  {
    hide Scan, Parsed;
    ReadUnfinished(acc, chunk, f);
  }

  /** A frame the AP does not claim when half the buffer is filled: the modem gets that much
      of it decoded, and the rest as it is. */
  lemma {:induction false} UnclaimedForwarded(c: Classifier, acc: seq<byte>, chunks: seq<seq<byte>>, f: seq<byte>)
    requires RawFrame(f) && NonEmptyReads(chunks) && |acc| < |f| && acc == f[..|acc|] && Concat(chunks) == f[|acc|..]
    requires |acc| < HALF && 0 < Crossing(|acc|, chunks) <= |f|
    requires Crossing(|acc|, chunks) <= CAPACITY && !c.owns(Parsed(f[..Crossing(|acc|, chunks)]))
    ensures var n := Crossing(|acc|, chunks);
            Run(c, State(false, acc), chunks) == Outcome(State(false, []), [], Parsed(f[..n]) + f[n..])
    decreases |chunks|
  {
    hide Parsed, Route, RawFrame;
    var n := Crossing(|acc|, chunks);
    var chunk, more := chunks[0], Concat(chunks[1..]);
    var grown := acc + chunk;
    assert chunk + more == f[|acc|..] && chunk == f[|acc|..|grown|];
    assert more == f[|grown|..] && grown == f[..|grown|];
    ReadsNotEmpty(chunks[1..]);
    CrossingGrows(|grown|, chunks[1..]);
    RouteUnclaimed(c, acc, chunk, f);
    if |grown| >= HALF {
      PassedOn(c, chunks[1..], f, n);
    } else {
      UnclaimedForwarded(c, grown, chunks[1..], f);
      ThenSilent(State(false, grown), Run(c, State(false, grown), chunks[1..]));
    }
  }

  lemma {:induction false} CrossingBound(n: nat, chunks: seq<seq<byte>>)
    requires n < HALF && forall k :: 0 <= k < |chunks| ==> |chunks[k]| <= HALF
    ensures Crossing(n, chunks) < CAPACITY && Crossing(n, chunks) <= n + |Concat(chunks)|
    decreases |chunks|
  {
    if |chunks| > 1 && n + |chunks[0]| < HALF {
      CrossingBound(n + |chunks[0]|, chunks[1..]);
    }
  }

  lemma {:induction false} CrossingGrows(n: nat, chunks: seq<seq<byte>>)
    ensures Crossing(n, chunks) > 0 ==> Crossing(n, chunks) >= n
    decreases |chunks|
  {
    if |chunks| > 1 {
      CrossingGrows(n + |chunks[0]|, chunks[1..]);
    }
  }

  /** For every cut of such a frame into reads, of the size the thread asks for, the modem
      gets its raw bytes if and only if nothing was stuffed in the part that first reached
      half the buffer. */
  lemma {:induction false} UnclaimedIntactIff(c: Classifier, chunks: seq<seq<byte>>, f: seq<byte>)
    requires RawFrame(f) && Reads(chunks, f) && forall k :: 0 <= k < |chunks| ==> |chunks[k]| <= HALF
    requires Crossing(0, chunks) > 0
    ensures Crossing(0, chunks) <= |f|
    ensures !c.owns(Parsed(f[..Crossing(0, chunks)])) ==>
              && Run(c, State(false, []), chunks).next == State(false, [])
              && Run(c, State(false, []), chunks).offered == []
              && (Run(c, State(false, []), chunks).modem == f <==> Plain(f, Crossing(0, chunks)))
  {
    hide Run, Parsed, NoInnerFlag, Plain, Crossing;
    var n := Crossing(0, chunks);
    CrossingBound(0, chunks);
    assert f[0..] == f && f[..0] == [];
    if !c.owns(Parsed(f[..n])) {
      UnclaimedForwarded(c, [], chunks, f);
      IntactOrLost(f, n);
      assert f[..n] + f[n..] == f;
      if !Plain(f, n) {
        LostDiffers(Parsed(f[..n]), f, n);
      }
    }
  }

  lemma {:induction false} LostDiffers(a: seq<byte>, f: seq<byte>, n: nat)
    requires n == |a| <= |f| && Lost(a, f)
    ensures a + f[n..] != f
  {
    var t: nat :| LostAt(a, f, t);
    assert (a + f[n..])[t] == a[t];
  }
}
