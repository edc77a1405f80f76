/** Everything that arrives on the DIAG port of engmode/vdiag.c: frames, other bytes between
    them, and what is left of a frame that goes to the modem. Nothing that is not a frame for
    the application processor may get lost or change its place.
 */
module VdiagTraffic {
  import opened Bits
  import opened DiagFraming
  import opened VdiagRouter

  // --------------------------------------------------------------------- one read

  /** A read is kept whole, handed over whole as a frame, or forwarded whole. */
  predicate AllAccountedFor(c: Classifier, full: seq<byte>, o: Outcome) {
    || (o.next == State(false, full) && o.offered == [] && o.modem == [])
    || (o.next == State(false, []) && o.offered == [] && o.modem == full)
    || (o.next == State(false, []) && o.offered == [full] && o.modem == if c.handles(Parsed(full)) then [] else full)
  }

  lemma {:induction false} ForwardNoise(c: Classifier, chunk: seq<byte>)
    requires chunk != [] && FLAG !in chunk
    ensures Route(c, State(false, []), chunk) == Outcome(State(false, []), [], chunk)
  {
    hide Scan, Parsed;
    ScanNoise(chunk);
  }

  lemma {:induction false} FoundSomething(ext: seq<byte>, chunk: seq<byte>)
    ensures Scan(ext, chunk).found ==> Scan(ext, chunk).ext != []
    decreases |chunk|
  {
    if chunk != [] {
      FoundSomething(ext, chunk[1..]);
      FoundSomething([FLAG], chunk[1..]);
      FoundSomething(ext + [chunk[0]], chunk[1..]);
    }
  }

  /** Under half the buffer, one read puts every byte somewhere if and only if there is no
      flag at all, or it starts with its frame and does not run past the frame's end. */
  lemma {:induction false} ReadAccountedIff(c: Classifier, ext: seq<byte>, chunk: seq<byte>)
    requires chunk != [] && Pending(ext) && |ext| + |chunk| < CAPACITY / 2
    ensures AllAccountedFor(c, ext + chunk, Route(c, State(false, ext), chunk))
            <==> FLAG !in ext + chunk || ((ext + chunk)[0] == FLAG && NoInnerFlag(ext + chunk))
  {
    hide Scan, Parsed, NoInnerFlag, Pending;
    LosslessRead(ext, chunk);
    FoundSomething(ext, chunk);
    var full, r := ext + chunk, Scan(ext, chunk);
    assert |full| > 0;
    if ext == [] && r.ext == [] {
      assert full == chunk;
    }
  }

  // ----------------------------------------------------------------------- traffic

  /** What arrives one after the other, each in reads of its own: bytes that are no frame,
      or the frame of a payload. */
  datatype Item = Noise(parts: seq<seq<byte>>) | Packet(payload: seq<byte>, parts: seq<seq<byte>>)

  predicate Arrives(i: Item) {
    match i
    case Noise(parts) => NonEmptyReads(parts) && FLAG !in Concat(parts)
    case Packet(payload, parts) => Reads(parts, Frame(payload)) && |Frame(payload)| < CAPACITY / 2
  }

  function ReadsOf(items: seq<Item>): seq<seq<byte>> {
    if items == [] then [] else items[0].parts + ReadsOf(items[1..])
  }

  function FramesOf(items: seq<Item>): seq<seq<byte>> {
    if items == [] then []
    else (if items[0].Packet? then [Frame(items[0].payload)] else []) + FramesOf(items[1..])
  }

  /** The accumulator as eng_diag sees it: the payload between the opening flag and what
      the closing one turns into, and a zero for every escape that is gone. */
  function Unpacked(payload: seq<byte>): seq<byte> { [FLAG] + payload + [0x20] + seq(Specials(payload), _ => 0) }

  /** What the modem should get: everything but the frames the AP handles. */
  function ForModem(c: Classifier, items: seq<Item>): seq<byte> {
    if items == [] then []
    else
      (match items[0]
       case Noise(parts) => Concat(parts)
       case Packet(payload, _) => if c.handles(Unpacked(payload)) then [] else Frame(payload))
      + ForModem(c, items[1..])
  }

  /** Behind a frame, the pass over it leaves zeros. */
  lemma {:induction false} ZerosBehind(buf: seq<byte>, i: nat, len: nat, y: seq<byte>)
    requires i <= len < |buf| && buf[i..len] == Stuff(y) + [FLAG] && forall k :: len <= k < |buf| ==> buf[k] == 0
    ensures forall k :: i + |y| < k < |buf| ==> DecodeFrom(buf, i, len)[k] == 0
    decreases |y|
  {
    hide DecodeFrom, Unstuffed, Flip, Stuff, StuffByte;
    StuffStep(y);
    if y == [] {
      assert buf[i] == buf[i..len][0] == FLAG && len == i + 1;
      DecodeStep(buf, i, len);
      UnstuffedAt(buf, i, len);
      DecodeStep(Unstuffed(buf, i, len), i + 1, len - 1);
    } else {
      var b, rest := y[0], Stuff(y[1..]) + [FLAG];
      assert buf[i..len] == StuffByte(b) + rest;
      if Special(b) {
        var next := Unstuffed(buf, i, len);
        UnstuffStep(buf, i, len, b, rest, next);
        UnstuffedAt(buf, i, len);
        ZerosBehind(next, i + 1, len - 1, y[1..]);
      } else {
        PlainByte(b);
        PlainStep(buf, i, len, b, rest);
        ZerosBehind(buf, i + 1, len, y[1..]);
      }
    }
  }

  /** eng_diag is asked about the payload. */
  lemma {:induction false} ParsedFrame(x: seq<byte>)
    ensures Parsed(Frame(x)) == Unpacked(x)
  {
    hide DecodeFrom, Stuff;
    var f := Frame(x);
    var buf := f + [0];
    var n := |f|;
    assert buf[1..n] == Stuff(x) + [FLAG] && buf[..1] == [FLAG];
    DecodeStuffed(buf, 1, n, x, [FLAG], 0);
    ZerosBehind(buf, 1, n, x);
    var d := DecodeFrom(buf, 1, n);
    assert d[..1 + |x| + 1] == [FLAG] + x + [0x20];
    assert forall k :: 0 <= k < |x| + 2 ==> d[k] == d[..1 + |x| + 1][k];
    assert d[..n] == Unpacked(x);
  }

  lemma {:induction false} FrameIsRaw(x: seq<byte>)
    ensures RawFrame(Frame(x))
  {
    hide Stuff;
    StuffedInterior(x);
  }

  lemma {:induction false} NoiseForwarded(c: Classifier, parts: seq<seq<byte>>)
    requires NonEmptyReads(parts) && FLAG !in Concat(parts)
    ensures Run(c, State(false, []), parts) == Outcome(State(false, []), [], Concat(parts))
    decreases |parts|
  {
    hide Route;
    if parts != [] {
      assert forall k :: 0 <= k < |parts[0]| ==> parts[0][k] == Concat(parts)[k];
      assert Concat(parts)[|parts[0]|..] == Concat(parts[1..]);
      ForwardNoise(c, parts[0]);
      NoiseForwarded(c, parts[1..]);
    }
  }

  lemma {:induction false} ItemRouted(c: Classifier, i: Item)
    requires Arrives(i)
    ensures NonEmptyReads(i.parts)
    ensures Run(c, State(false, []), i.parts)
         == Outcome(State(false, []), FramesOf([i]), ForModem(c, [i]))
  {
    hide Run, Parsed, Frame, Unpacked, RawFrame;
    assert [i][1..] == [] && FramesOf([]) == [] && ForModem(c, []) == [];
    match i
    case Noise(parts) =>
      NoiseForwarded(c, parts);
    case Packet(payload, parts) =>
      var f := Frame(payload);
      FrameIsRaw(payload);
      ParsedFrame(payload);
      FrameNotEmpty(payload);
      assert [] + Concat(parts) == f;
      FinishFrame(c, [], parts, f);
  }

  lemma {:induction false} FrameNotEmpty(x: seq<byte>)
    ensures |Frame(x)| >= 2
  {
    hide Stuff;
  }

  lemma {:induction false} TrafficSplit(c: Classifier, i: Item, rest: seq<Item>)
    ensures FramesOf([i] + rest) == FramesOf([i]) + FramesOf(rest)
    ensures ForModem(c, [i] + rest) == ForModem(c, [i]) + ForModem(c, rest)
    ensures ReadsOf([i] + rest) == i.parts + ReadsOf(rest)
  {
    hide Frame, Unpacked;
    assert ([i] + rest)[1..] == rest && [i][1..] == [];
  }

  /** Frames under half the buffer with any other bytes between them, each in reads of its
      own cut anywhere: eng_diag is offered every frame once, whole and in order, and asked
      about its payload; the modem gets all other bytes and the frames eng_diag declined,
      in full and in the order they came. */
  lemma {:induction false} TrafficRouted(c: Classifier, items: seq<Item>)
    requires forall k :: 0 <= k < |items| ==> Arrives(items[k])
    ensures NonEmptyReads(ReadsOf(items))
    ensures Run(c, State(false, []), ReadsOf(items)) == Outcome(State(false, []), FramesOf(items), ForModem(c, items))
    decreases |items|
  {
    hide Run, ForModem, FramesOf;
    if items == [] {
      NothingRouted(c);
    } else {
      var i, rest := items[0], items[1..];
      assert items == [i] + rest;
      TrafficSplit(c, i, rest);
      ItemRouted(c, i);
      TrafficRouted(c, rest);
      RunAppend(c, State(false, []), i.parts, ReadsOf(rest));
    }
  }

  lemma {:induction false} NothingRouted(c: Classifier)
    ensures Run(c, State(false, []), []) == Outcome(State(false, []), FramesOf([]), ForModem(c, []))
  {
  }

  // ------------------------------------------------------------------ while it passes

  /** While a frame goes to the modem every read is passed on, whatever it holds, and the
      thread listens for frames again exactly after a read that ends in a flag. */
  lemma {:induction false} PassesUntilFlagEndsARead(c: Classifier, parts: seq<seq<byte>>)
    requires NonEmptyReads(parts) && parts != []
    requires forall k :: 0 <= k < |parts| - 1 ==> parts[k][|parts[k]| - 1] != FLAG
    ensures Run(c, State(true, []), parts)
         == Outcome(State(parts[|parts| - 1][|parts[|parts| - 1]| - 1] != FLAG, []), [], Concat(parts))
    decreases |parts|
  {
    hide Scan, Parsed;
    var first := Route(c, State(true, []), parts[0]);
    if |parts| == 1 {
      assert parts[1..] == [] && Concat(parts[1..]) == [];
      RunNothing(c, first.next);
      ThenSilent(first.next, first);
    } else {
      PassesUntilFlagEndsARead(c, parts[1..]);
    }
  }
}
