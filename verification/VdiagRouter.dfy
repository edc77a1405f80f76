/** The reader thread of engmode/vdiag.c: a frame accumulator fed with reads of
    any length, and the switch that sends a frame to the application processor,
    to the modem, or to both.

    eng_diag is a classifier here: it decodes the frame in place and answers
    whether the modem should still see it.
 */
module VdiagRouter {
  import opened Bits
  import opened DiagFraming

  const CAPACITY: nat := 16384

  /** eng_diag returned 1; eng_diag_parse returned something else than CMD_COMMON. */
  datatype Classifier = Classifier(handles: seq<byte> -> bool, owns: seq<byte> -> bool)

  // ------------------------------------------------------------- the accumulator

  datatype Scanned = Scanned(ext: seq<byte>, found: bool)

  /** get_user_diag_buf: the bytes kept after a read, and whether a frame is complete. */
  function Scan(ext: seq<byte>, chunk: seq<byte>): (r: Scanned)
    ensures |ext| <= |r.ext| <= |ext| + |chunk|
    ensures |ext| <= CAPACITY ==> |r.ext| <= CAPACITY
    decreases |chunk|
  {
    if chunk == [] then Scanned(ext, false)
    else if chunk[0] == FLAG && ext == [] then Scan([FLAG], chunk[1..])
    else if 0 < |ext| < CAPACITY then
      if chunk[0] == FLAG then Scanned(ext + [FLAG], true) else Scan(ext + [chunk[0]], chunk[1..])
    else Scan(ext, chunk[1..])
  }

  /** A frame whose closing flag has not arrived: nothing yet, or an opening flag
      and no other. */
  predicate Pending(ext: seq<byte>) {
    ext == [] || (ext[0] == FLAG && forall k :: 0 < k < |ext| ==> ext[k] != FLAG)
  }

  predicate NoInnerFlag(f: seq<byte>) {
    forall k :: 0 < k < |f| - 1 ==> f[k] != FLAG
  }

  predicate RawFrame(f: seq<byte>) {
    |f| >= 2 && f[0] == FLAG && f[|f| - 1] == FLAG && NoInnerFlag(f)
  }

  predicate NonEmptyReads(chunks: seq<seq<byte>>) {
    forall k :: 0 <= k < |chunks| ==> chunks[k] != []
  }

  lemma {:induction false} ScanMiddle(ext: seq<byte>, chunk: seq<byte>)
    requires ext != [] && |ext| + |chunk| <= CAPACITY && FLAG !in chunk
    ensures Scan(ext, chunk) == Scanned(ext + chunk, false)
    decreases |chunk|
  {
    if chunk == [] {
      assert ext + chunk == ext;
    } else {
      ScanMiddle(ext + [chunk[0]], chunk[1..]);
      assert ext + chunk == ext + [chunk[0]] + chunk[1..];
    }
  }

  lemma {:induction false} ScanEnd(ext: seq<byte>, chunk: seq<byte>, rest: seq<byte>)
    requires ext != [] && |ext| + |chunk| < CAPACITY && FLAG !in chunk
    ensures Scan(ext, chunk + [FLAG] + rest) == Scanned(ext + chunk + [FLAG], true)
    decreases |chunk|
  {
    var all := chunk + [FLAG] + rest;
    if chunk == [] {
      assert all[0] == FLAG && ext + chunk == ext;
    } else {
      assert all[0] == chunk[0] && all[1..] == chunk[1..] + [FLAG] + rest;
      ScanEnd(ext + [chunk[0]], chunk[1..], rest);
      assert ext + chunk == ext + [chunk[0]] + chunk[1..];
    }
  }

  lemma {:induction false} ScanNoise(chunk: seq<byte>)
    requires FLAG !in chunk
    ensures Scan([], chunk) == Scanned([], false)
  {
    if chunk != [] {
      ScanNoise(chunk[1..]);
    }
  }

  lemma {:induction false} FirstFlag(s: seq<byte>) returns (p: nat)
    requires FLAG in s
    ensures p < |s| && s[p] == FLAG && FLAG !in s[..p]
  {
    p := 0;
    while s[p] != FLAG
      invariant p < |s| && FLAG !in s[..p] && FLAG in s[p..]
      decreases |s| - p
    {
      p := p + 1;
    }
  }

  /** When one read puts every byte somewhere, given what was pending before it:
      it is all kept, or it holds no flag at all and goes to the modem untouched.
      Exactly then it starts with the frame, does not run past its end and fits. */
  lemma {:induction false} LosslessRead(ext: seq<byte>, chunk: seq<byte>)
    requires Pending(ext) && |ext| <= CAPACITY
    ensures var full := ext + chunk;
            (Scan(ext, chunk).ext == full || (ext == [] && Scan(ext, chunk).ext == []))
            <==> FLAG !in full || (full[0] == FLAG && NoInnerFlag(full) && |full| <= CAPACITY)
  {
    var full := ext + chunk;
    if ext != [] {
      hide Scan;
      assert full[0] == FLAG;
      LosslessOpen(ext, chunk);
    } else {
      assert full == chunk;
      if FLAG !in chunk {
        ScanNoise(chunk);
      } else if chunk[0] == FLAG {
        LosslessOpen([FLAG], chunk[1..]);
        assert [FLAG] + chunk[1..] == chunk;
      } else {
        hide Scan;
        ScanDropsNoise(chunk);
      }
    }
  }

  lemma {:induction false} LosslessOpen(ext: seq<byte>, chunk: seq<byte>)
    requires ext != [] && Pending(ext) && |ext| <= CAPACITY
    ensures Scan(ext, chunk).ext == ext + chunk <==> NoInnerFlag(ext + chunk) && |ext + chunk| <= CAPACITY
  {
    hide Scan;
    var full := ext + chunk;
    if |full| <= CAPACITY {
      if FLAG !in chunk {
        ScanMiddle(ext, chunk);
      } else {
        var p := FirstFlag(chunk);
        LosslessFound(ext, chunk, p);
      }
    }
  }

  lemma {:induction false} LosslessFound(ext: seq<byte>, chunk: seq<byte>, p: nat)
    requires ext != [] && Pending(ext) && |ext| + |chunk| <= CAPACITY
    requires p < |chunk| && chunk[p] == FLAG && FLAG !in chunk[..p]
    ensures Scan(ext, chunk).ext == ext + chunk <==> NoInnerFlag(ext + chunk)
  {
    hide Scan;
    var full, rest := ext + chunk, chunk[p + 1..];
    assert chunk == chunk[..p] + [FLAG] + rest;
    ScanEnd(ext, chunk[..p], rest);
    assert full[|ext| + p] == FLAG;
    if rest == [] {
      assert forall k :: |ext| <= k < |full| - 1 ==> full[k] == chunk[..p][k - |ext|];
      assert ext + chunk[..p] + [FLAG] == full;
    } else {
      assert |ext + chunk[..p] + [FLAG]| < |full|;
    }
  }

  lemma {:induction false} ScanDropsNoise(chunk: seq<byte>)
    requires FLAG in chunk && chunk[0] != FLAG
    ensures Scan([], chunk).ext != chunk && Scan([], chunk).ext != []
  {
    var p := FirstFlag(chunk);
    SkipNoise(chunk, p);
  }

  lemma {:induction false} SkipNoise(chunk: seq<byte>, p: nat)
    requires p < |chunk| && chunk[p] == FLAG && FLAG !in chunk[..p]
    ensures Scan([], chunk) == Scan([FLAG], chunk[p + 1..])
    decreases p
  {
    if p > 0 {
      SkipNoise(chunk[1..], p - 1);
      assert chunk[1..][p..] == chunk[p + 1..];
    }
  }

  // ------------------------------------------------------------------ the switch

  /** g_diag_status: frames are being accumulated for the AP, or passed to the CP. */
  datatype State = State(toCp: bool, ext: seq<byte>)

  datatype Outcome = Outcome(next: State, offered: seq<seq<byte>>, modem: seq<byte>)

  /** What decoding in place leaves of an accumulated buffer: everything after the
      opening flag is decoded, and the byte past the end is the zero of a cleared
      buffer. */
  function Parsed(ext: seq<byte>): (r: seq<byte>)
    ensures |r| == |ext|
  {
    DecodeFrom(ext + [0], 1, |ext|)[..|ext|]
  }

  /** One turn of the loop in eng_vdiag_wthread on a successful, non-empty read. */
  function Route(c: Classifier, s: State, chunk: seq<byte>): Outcome
    requires chunk != []
  {
    if s.toCp then
      Outcome(s.(toCp := chunk[|chunk| - 1] != FLAG), [], chunk)
    else
      var r := Scan(s.ext, chunk);
      if r.found then
        Outcome(State(false, []), [r.ext], if c.handles(Parsed(r.ext)) then [] else r.ext)
      else if r.ext == [] then
        Outcome(State(false, []), [], chunk)
      else if CAPACITY / 2 <= |r.ext| then
        if c.owns(Parsed(r.ext)) then Outcome(State(false, Parsed(r.ext)), [], [])
        else Outcome(State(true, []), [], Parsed(r.ext))
      else
        Outcome(State(false, r.ext), [], [])
  }

  function Then(a: Outcome, b: Outcome): Outcome {
    Outcome(b.next, a.offered + b.offered, a.modem + b.modem)
  }

  lemma {:induction false} ThenAssociates(a: Outcome, b: Outcome, c: Outcome)
    ensures Then(Then(a, b), c) == Then(a, Then(b, c))
  {
    assert a.offered + b.offered + c.offered == a.offered + (b.offered + c.offered);
    assert a.modem + b.modem + c.modem == a.modem + (b.modem + c.modem);
  }

  lemma {:induction false} ThenSilent(s: State, a: Outcome)
    ensures Then(Outcome(s, [], []), a) == a && Then(a, Outcome(a.next, [], [])) == a
  {
    assert [] + a.offered == a.offered == a.offered + [];
    assert [] + a.modem == a.modem == a.modem + [];
  }

  function Run(c: Classifier, s: State, chunks: seq<seq<byte>>): Outcome
    requires NonEmptyReads(chunks)
    decreases |chunks|
  {
    if chunks == [] then Outcome(s, [], [])
    else
      var first := Route(c, s, chunks[0]);
      Then(first, Run(c, first.next, chunks[1..]))
  }

  function Concat(chunks: seq<seq<byte>>): seq<byte> {
    if chunks == [] then [] else chunks[0] + Concat(chunks[1..])
  }

  /** The bytes of f cut into non-empty reads, at any places. */
  predicate Reads(chunks: seq<seq<byte>>, f: seq<byte>) {
    && NonEmptyReads(chunks)
    && Concat(chunks) == f
  }

  lemma {:induction false} RunAppend(c: Classifier, s: State, a: seq<seq<byte>>, b: seq<seq<byte>>)
    requires NonEmptyReads(a) && NonEmptyReads(b)
    ensures NonEmptyReads(a + b)
    ensures Run(c, s, a + b) == Then(Run(c, s, a), Run(c, Run(c, s, a).next, b))
    decreases |a|
  {
    if a == [] {
      assert a + b == b;
      ThenSilent(s, Run(c, s, b));
    } else {
      var first := Route(c, s, a[0]);
      var rest := Run(c, first.next, a[1..]);
      assert (a + b)[0] == a[0] && (a + b)[1..] == a[1..] + b;
      RunAppend(c, first.next, a[1..], b);
      ThenAssociates(first, rest, Run(c, rest.next, b));
    }
  }

  lemma {:induction false} RouteWithinFrame(c: Classifier, ext: seq<byte>, chunk: seq<byte>, f: seq<byte>)
    requires RawFrame(f) && |f| < CAPACITY / 2 && |ext| + |chunk| <= |f| && chunk != []
    requires ext == f[..|ext|] && chunk == f[|ext|..|ext| + |chunk|]
    ensures Route(c, State(false, ext), chunk)
         == if |ext| + |chunk| < |f| then Outcome(State(false, ext + chunk), [], [])
            else Outcome(State(false, []), [f], if c.handles(Parsed(f)) then [] else f)
  {
    ReadIntoFrame(ext, chunk, f);
    assert |ext| + |chunk| == |f| ==> ext + chunk == f;
  }

  /** The rest of a frame, from any point reached between two reads. */
  lemma {:induction false} FinishFrame(c: Classifier, ext: seq<byte>, chunks: seq<seq<byte>>, f: seq<byte>)
    requires RawFrame(f) && |f| < CAPACITY / 2
    requires chunks != [] && NonEmptyReads(chunks) && ext + Concat(chunks) == f
    ensures Run(c, State(false, ext), chunks)
         == Outcome(State(false, []), [f], if c.handles(Parsed(f)) then [] else f)
    decreases |chunks|
  {
    var chunk := chunks[0];
    var more := Concat(chunks[1..]);
    var ext' := ext + chunk;
    assert ext' + more == f && chunk == f[|ext|..|ext'|];
    RouteWithinFrame(c, ext, chunk, f);
    if chunks[1..] == [] {
      assert ext' == f;
      ThenSilent(State(false, []), Route(c, State(false, ext), chunk));
    } else {
      assert chunks[1..][0] != [] && more != [];
      FinishFrame(c, ext', chunks[1..], f);
      ThenSilent(State(false, ext'), Run(c, State(false, ext'), chunks[1..]));
    }
  }

  /** A read that stays within a frame is appended whole, whatever the accumulator has
      become. */
  lemma {:induction false} ReadIntoFrame(ext: seq<byte>, chunk: seq<byte>, f: seq<byte>)
    requires RawFrame(f) && |f| < CAPACITY && |ext| + |chunk| <= |f| && chunk != []
    requires chunk == f[|ext|..|ext| + |chunk|]
    ensures Scan(ext, chunk) == Scanned(ext + chunk, |ext| + |chunk| == |f|)
  {
    if ext == [] {
      assert chunk[0] == FLAG;
      var rest := chunk[1..];
      if rest != [] {
        ReadIntoOpenFrame([FLAG], rest, f);
      }
      assert [FLAG] + rest == chunk && ext + chunk == chunk;
    } else {
      ReadIntoOpenFrame(ext, chunk, f);
    }
  }

  lemma {:induction false} ReadIntoOpenFrame(ext: seq<byte>, chunk: seq<byte>, f: seq<byte>)
    requires RawFrame(f) && |f| < CAPACITY && |ext| + |chunk| <= |f| && ext != [] && chunk != []
    requires chunk == f[|ext|..|ext| + |chunk|]
    ensures Scan(ext, chunk) == Scanned(ext + chunk, |ext| + |chunk| == |f|)
  {
    var n := |ext| + |chunk|;
    assert forall k :: 0 <= k < |chunk| ==> chunk[k] == f[|ext| + k];
    if n < |f| {
      ScanMiddle(ext, chunk);
    } else {
      var body := chunk[..|chunk| - 1];
      assert chunk == body + [FLAG] + [];
      ScanEnd(ext, body, []);
      assert ext + body + [FLAG] == ext + chunk;
    }
  }

  function ConcatAll(parts: seq<seq<seq<byte>>>): seq<seq<byte>> {
    if parts == [] then [] else parts[0] + ConcatAll(parts[1..])
  }

  /** The raw bytes of the frames eng_diag left to the modem. */
  function Declined(c: Classifier, frames: seq<seq<byte>>): seq<byte> {
    if frames == [] then []
    else (if c.handles(Parsed(frames[0])) then [] else frames[0]) + Declined(c, frames[1..])
  }

  lemma {:induction false} RunNothing(c: Classifier, s: State)
    ensures Run(c, s, []) == Outcome(s, [], [])
  {
  }

  /** Any number of frames under half the buffer, each cut into reads at any
      places but never across a frame end: eng_diag is offered every frame once,
      whole and in order, and the modem gets exactly the raw bytes of those it
      declined, although each was decoded in place before being forwarded. */
  lemma {:induction false} FramesRoutedExactly(c: Classifier, frames: seq<seq<byte>>, parts: seq<seq<seq<byte>>>)
    requires |frames| == |parts|
    requires forall k :: 0 <= k < |frames| ==> RawFrame(frames[k]) && |frames[k]| < CAPACITY / 2
    requires forall k :: 0 <= k < |parts| ==> Reads(parts[k], frames[k])
    ensures NonEmptyReads(ConcatAll(parts))
    ensures Run(c, State(false, []), ConcatAll(parts)) == Outcome(State(false, []), frames, Declined(c, frames))
  {
    hide Run, NoInnerFlag, Parsed;
    RunNothing(c, State(false, []));
    if frames != [] {
      var f, cuts := frames[0], parts[0];
      assert Reads(parts[0], frames[0]);
      assert cuts != [];
      assert [] + Concat(cuts) == f;
      FinishFrame(c, [], cuts, f);
      FramesRoutedExactly(c, frames[1..], parts[1..]);
      RunAppend(c, State(false, []), cuts, ConcatAll(parts[1..]));
      assert [f] + frames[1..] == frames;
    }
  }

  // --------------------------------------------------------- the oversize branch

  lemma {:induction false} DecodeKeepsFront(buf: seq<byte>, i: nat, len: nat)
    requires len < |buf|
    ensures forall k :: 0 <= k < i && k < |buf| ==> DecodeFrom(buf, i, len)[k] == buf[k]
    decreases len - i
  {
    if i < len {
      if Special(buf[i]) {
        DecodeKeepsFront(Unstuffed(buf, i, len), i + 1, len - 1);
      } else {
        DecodeKeepsFront(buf, i + 1, len);
      }
    }
  }

  /** r, and zeros for ever after it. */
  function Padded(r: seq<byte>, k: nat): byte {
    if k < |r| then r[k] else 0
  }

  /** Once d escapes are gone, the pass writes d positions behind where it reads.
      It can then only reproduce what it overwrites if that is all zeros. */
  lemma {:induction false} LaggingPassNeedsZeros(r: seq<byte>, b: seq<byte>, i: nat, d: nat)
    requires 1 <= d <= |r| && |b| == |r| + 1
    requires forall k :: i <= k <= |r| ==> b[k] == Padded(r, k + d)
    requires forall k :: i <= k < |r| ==> DecodeFrom(b, i, |r| - d)[k] == r[k]
    ensures forall k :: i <= k < |r| ==> r[k] == 0
    decreases |r| - i
  {
    var len := |r| - d;
    if i < len {
      if Special(b[i]) {
        LaggingPassNeedsZeros(r, Unstuffed(b, i, len), i + 1, d + 1);
      } else {
        LaggingPassNeedsZeros(r, b, i + 1, d);
        DecodeKeepsFront(b, i + 1, len);
        assert DecodeFrom(b, i, len)[i] == b[i];
      }
    }
  }

  lemma {:induction false} PassChangesEscapes(r: seq<byte>, b: seq<byte>, i: nat)
    requires i <= |r| && b == r + [0]
    ensures (forall k :: i <= k < |r| ==> !Special(r[k])) ==> DecodeFrom(b, i, |r|) == b
    ensures (forall k :: i <= k < |r| ==> DecodeFrom(b, i, |r|)[k] == r[k]) ==>
              forall k :: i <= k < |r| ==> !Special(r[k])
    decreases |r| - i
  {
    if i < |r| {
      if Special(b[i]) {
        var next := Unstuffed(b, i, |r|);
        DecodeKeepsFront(next, i + 1, |r| - 1);
        assert DecodeFrom(b, i, |r|)[i] == Flip(b[i + 1]);
        if forall k :: i <= k < |r| ==> DecodeFrom(b, i, |r|)[k] == r[k] {
          LaggingPassNeedsZeros(r, next, i + 1, 1);
        }
      } else {
        PassChangesEscapes(r, b, i + 1);
        DecodeKeepsFront(b, i + 1, |r|);
      }
    }
  }

  /** Why frames must stay under half the buffer: once that much of an unfinished
      frame has arrived, it is decoded before it is copied for the modem. The
      modem gets the raw bytes if and only if nothing in them was stuffed. */
  lemma {:induction false} OversizeIntactIffUnstuffed(c: Classifier, ext: seq<byte>, chunk: seq<byte>, r: seq<byte>)
    requires chunk != [] && Scan(ext, chunk) == Scanned(r, false) && |r| >= CAPACITY / 2
    requires !c.owns(Parsed(r))
    ensures Route(c, State(false, ext), chunk).next == State(true, [])
    ensures Route(c, State(false, ext), chunk).modem == r <==> forall k :: 1 <= k < |r| ==> !Special(r[k])
  {
    var b := r + [0];
    PassChangesEscapes(r, b, 1);
    DecodeKeepsFront(b, 1, |r|);
    if Parsed(r) == r {
      assert forall k :: 1 <= k < |r| ==> DecodeFrom(b, 1, |r|)[k] == Parsed(r)[k];
    }
  }

  // ------------------------------------------------------------------- the thread

  /** The pass depends on nothing past position `len` and changes nothing from there on. */
  lemma {:induction false} DecodeLocal(b: seq<byte>, c: seq<byte>, i: nat, len: nat)
    requires len < |b| && len < |c| && forall k :: 0 <= k <= len ==> b[k] == c[k]
    ensures forall k :: 0 <= k <= len ==> DecodeFrom(b, i, len)[k] == DecodeFrom(c, i, len)[k]
    ensures forall k :: len <= k < |b| ==> DecodeFrom(b, i, len)[k] == b[k]
    ensures forall k :: len <= k < |c| ==> DecodeFrom(c, i, len)[k] == c[k]
    decreases len - i
  {
    if i < len {
      if Special(b[i]) {
        DecodeLocal(Unstuffed(b, i, len), Unstuffed(c, i, len), i + 1, len - 1);
      } else {
        DecodeLocal(b, c, i + 1, len);
      }
    }
  }

  class Reader {
    const classifier: Classifier
    const extDataBuf: array<byte>
    const backupDataBuf: array<byte>
    var extBufLen: nat
    var backupDataLen: nat
    var toCp: bool

    ghost predicate Valid()
      reads this, extDataBuf
    {
      && extDataBuf.Length == CAPACITY == backupDataBuf.Length && extDataBuf != backupDataBuf
      && extBufLen <= CAPACITY
      && forall k :: extBufLen <= k < CAPACITY ==> extDataBuf[k] == 0
    }

    ghost function Abstract(): State
      requires Valid()
      reads this, extDataBuf
    {
      State(toCp, extDataBuf[..extBufLen])
    }

    constructor (c: Classifier)
      ensures Valid() && fresh(extDataBuf) && fresh(backupDataBuf) && classifier == c
      ensures Abstract() == State(false, [])
    {
      classifier := c;
      extDataBuf := new byte[CAPACITY](_ => 0);
      backupDataBuf := new byte[CAPACITY](_ => 0);
      extBufLen, backupDataLen, toCp := 0, 0, false;
    }

    /** init_user_diag_buf. */
    method InitUserDiagBuf()
      requires Valid()
      modifies this`extBufLen, extDataBuf
      ensures Valid() && extBufLen == 0
    {
      for k := 0 to CAPACITY
        invariant forall j :: 0 <= j < k ==> extDataBuf[j] == 0
      {
        extDataBuf[k] := 0;
      }
      extBufLen := 0;
    }

    /** get_user_diag_buf. */
    method GetUserDiagBuf(buf: array<byte>, len: nat) returns (isFind: bool)
      requires Valid() && len <= buf.Length && buf != extDataBuf
      modifies this`extBufLen, extDataBuf
      ensures Valid()
      ensures Scan(old(extDataBuf[..extBufLen]), buf[..len]) == Scanned(extDataBuf[..extBufLen], isFind)
    {
      isFind := false;
      var i := 0;
      ghost var start := extDataBuf[..extBufLen];
      assert buf[0..len] == buf[..len];
      while i < len
        invariant 0 <= i <= len && Valid() && !isFind
        invariant Scan(start, buf[..len]) == Scan(extDataBuf[..extBufLen], buf[i..len])
      {
        ghost var ext := extDataBuf[..extBufLen];
        assert buf[i..len][0] == buf[i] && buf[i..len][1..] == buf[i + 1..len];
        if buf[i] == FLAG && extBufLen == 0 {
          extDataBuf[extBufLen] := buf[i];
          extBufLen := extBufLen + 1;
          assert extDataBuf[..extBufLen] == [FLAG];
        } else if extBufLen > 0 && extBufLen < CAPACITY {
          extDataBuf[extBufLen] := buf[i];
          extBufLen := extBufLen + 1;
          assert extDataBuf[..extBufLen] == ext + [buf[i]];
          if buf[i] == FLAG {
            isFind := true;
            break;
          }
        }
        i := i + 1;
      }
    }

    /** eng_diag_parse and eng_diag as far as the buffer is concerned. */
    method DecodeExt()
      requires Valid() && extBufLen < CAPACITY
      modifies extDataBuf
      ensures Valid()
      ensures extDataBuf[..extBufLen] == Parsed(old(extDataBuf[..extBufLen]))
    {
      ghost var b := extDataBuf[..];
      ghost var n := extBufLen;
      ghost var ext := b[..n];
      Decode7d7e(extDataBuf, 1, extBufLen);
      DecodeLocal(b, ext + [0], 1, n);
      assert forall k :: 0 <= k < CAPACITY ==> extDataBuf[k] == DecodeFrom(b, 1, n)[k];
    }

    method Backup(from: array<byte>, len: nat)
      requires len <= from.Length && len <= backupDataBuf.Length && from != backupDataBuf
      modifies this`backupDataLen, backupDataBuf
      ensures backupDataLen == len && backupDataBuf[..len] == from[..len]
    {
      for k := 0 to len
        invariant backupDataBuf[..k] == from[..k]
      {
        backupDataBuf[k] := from[k];
      }
      backupDataLen := len;
    }

    /** One turn of the loop in eng_vdiag_wthread: the r_cnt bytes of a read are in
        `logData`. Returns the frames handed to eng_diag and the bytes written to
        the modem. */
    method OnRead(logData: array<byte>, rCnt: nat) returns (offered: seq<seq<byte>>, modem: seq<byte>)
      requires Valid() && 0 < rCnt <= logData.Length && logData != extDataBuf && logData != backupDataBuf
      requires rCnt <= CAPACITY && (toCp || |Scan(Abstract().ext, logData[..rCnt]).ext| < CAPACITY)
      modifies this`extBufLen, this`backupDataLen, this`toCp, extDataBuf, backupDataBuf
      ensures Valid()
      ensures Route(classifier, old(Abstract()), logData[..rCnt]) == Outcome(Abstract(), offered, modem)
    {
      ghost var ext := extDataBuf[..extBufLen];
      ghost var chunk := logData[..rCnt];
      offered, modem := [], [];
      var hasProcessed := false;
      if toCp {
        Backup(logData, rCnt);
        toCp := logData[rCnt - 1] != FLAG;
      } else {
        var found := GetUserDiagBuf(logData, rCnt);
        ghost var r := extDataBuf[..extBufLen];
        assert extBufLen == |r| && |r| <= |ext| + |chunk|;
        if found {
          offered := [extDataBuf[..extBufLen]];
          Backup(extDataBuf, extBufLen);
          DecodeExt();
          hasProcessed := classifier.handles(extDataBuf[..extBufLen]);
          InitUserDiagBuf();
        } else if extBufLen == 0 {
          Backup(logData, rCnt);
        } else if CAPACITY / 2 <= extBufLen {
          DecodeExt();
          if classifier.owns(extDataBuf[..extBufLen]) {
            hasProcessed := true;
          } else {
            Backup(extDataBuf, extBufLen);
            InitUserDiagBuf();
            toCp := true;
          }
        } else {
          hasProcessed := true;
        }
      }
      if hasProcessed {
        backupDataLen := 0;
      } else {
        modem := backupDataBuf[..backupDataLen];
      }
    }
  }
}
