/** The capture buffer provider of audio/sc8830/audio_hw.c: whole periods are read
    from the device into one buffer and handed out in pieces of any size.

    A frame is a number here, all its channels together. The device is a stream of
    frames, of which every successful read delivers the next period.
 */
module CaptureProvider {

  const ENODEV: int := 19

  /** `n` frames of the device stream from position `from` on. */
  function Frames(stream: nat -> int, from: nat, n: nat): (s: seq<int>)
    ensures |s| == n
  {
    seq(n, i requires 0 <= i => stream(from + i))
  }

  lemma {:induction false} FramesSplit(stream: nat -> int, from: nat, a: nat, b: nat)
    ensures Frames(stream, from, a + b) == Frames(stream, from, a) + Frames(stream, from + a, b)
  {
  }

  // ------------------------------------------------------------------ the provider

  /** The period buffer, how many frames at its end are still unread, and how far
      the device stream has been read. */
  datatype Provider = Provider(buffer: seq<int>, framesIn: nat, pos: nat)

  ghost predicate WellFormed(p: Provider, stream: nat -> int) {
    && p.framesIn <= |p.buffer| && p.framesIn <= p.pos && |p.buffer| > 0
    && forall k :: |p.buffer| - p.framesIn <= k < |p.buffer| ==> p.buffer[k] == stream(p.pos - |p.buffer| + k)
  }

  /** Frames handed out and released so far. */
  function Consumed(p: Provider): nat
    requires p.framesIn <= p.pos
  {
    p.pos - p.framesIn
  }

  /** get_next_buffer when the read, if one is due, succeeds. */
  ghost function Fetched(p: Provider, stream: nat -> int): (q: Provider)
    requires WellFormed(p, stream)
    ensures WellFormed(q, stream) && q.framesIn > 0 && Consumed(q) == Consumed(p) && |q.buffer| == |p.buffer|
  {
    if p.framesIn == 0 then Provider(Frames(stream, p.pos, |p.buffer|), |p.buffer|, p.pos + |p.buffer|) else p
  }

  /** frame_count as get_next_buffer leaves it. */
  function Granted(q: Provider, want: nat): nat { if want > q.framesIn then q.framesIn else want }

  /** The frames the returned pointer points at. */
  function GrantedFrames(q: Provider, n: nat): seq<int>
    requires n <= q.framesIn <= |q.buffer|
  {
    q.buffer[|q.buffer| - q.framesIn..|q.buffer| - q.framesIn + n]
  }

  /** A request for `want` frames, of which `used` are then released; a request whose
      read fails, leaving anything in the buffer; a request while no device is open. */
  datatype Event =
    | Grant(want: nat, used: nat)
    | FailedRead(junk: seq<int>)
    | NoDevice

  /** No more is released than was granted, and only an empty buffer is refilled. */
  ghost predicate Possible(p: Provider, stream: nat -> int, e: Event)
    requires WellFormed(p, stream)
  {
    match e
    case Grant(want, used) => used <= Granted(Fetched(p, stream), want)
    case FailedRead(junk) => p.framesIn == 0 && |junk| == |p.buffer|
    case NoDevice => true
  }

  /** The provider after an event, and the frames that were used. */
  ghost function Next(p: Provider, stream: nat -> int, e: Event): (r: (Provider, seq<int>))
    requires WellFormed(p, stream) && Possible(p, stream, e)
    ensures WellFormed(r.0, stream)
  {
    match e
    case Grant(want, used) =>
      var f := Fetched(p, stream);
      (f.(framesIn := f.framesIn - used), GrantedFrames(f, used))
    case FailedRead(junk) => (p.(buffer := junk), [])
    case NoDevice => (p, [])
  }

  lemma {:induction false} GrantIs(q: Provider, stream: nat -> int, n: nat)
    requires WellFormed(q, stream) && n <= q.framesIn
    ensures GrantedFrames(q, n) == Frames(stream, Consumed(q), n)
  {
    var got := GrantedFrames(q, n);
    assert forall i :: 0 <= i < n ==> got[i] == q.buffer[|q.buffer| - q.framesIn + i];
  }

  lemma {:induction false} ServeOne(p: Provider, stream: nat -> int, e: Event)
    requires WellFormed(p, stream) && Possible(p, stream, e)
    ensures var (q, got) := Next(p, stream, e);
            Consumed(q) == Consumed(p) + |got| && got == Frames(stream, Consumed(p), |got|)
  {
    var (q, got) := Next(p, stream, e);
    if e.Grant? {
      var f := Fetched(p, stream);
      assert forall i :: 0 <= i < e.used ==> got[i] == f.buffer[|f.buffer| - f.framesIn + i];
    }
  }

  /** The events take the provider from p to q, handing out `got` event by event. */
  ghost predicate Run(p: Provider, stream: nat -> int, events: seq<Event>, got: seq<seq<int>>, q: Provider)
    requires WellFormed(p, stream)
    decreases |events|
  {
    if events == [] then got == [] && q == p
    else
      && got != [] && Possible(p, stream, events[0])
      && got[0] == Next(p, stream, events[0]).1
      && Run(Next(p, stream, events[0]).0, stream, events[1..], got[1..], q)
  }

  function Concat(parts: seq<seq<int>>): seq<int> {
    if parts == [] then [] else parts[0] + Concat(parts[1..])
  }

  /** Whatever sizes are requested, however little of a grant is used, and wherever reads
      fail or the device is gone: what was handed out is a stretch of the device stream
      with no loss, repeat or reorder, starting where the provider stood. */
  lemma {:induction false} Lossless(p: Provider, stream: nat -> int, events: seq<Event>, got: seq<seq<int>>,
                                    q: Provider)
    requires WellFormed(p, stream) && Run(p, stream, events, got, q)
    ensures WellFormed(q, stream) && Consumed(p) <= Consumed(q)
    ensures Concat(got) == Frames(stream, Consumed(p), Consumed(q) - Consumed(p))
    decreases |events|
  {
    hide Next, Possible, Frames;
    if events == [] {
      assert |Frames(stream, Consumed(p), 0)| == 0;
    } else {
      var mid := Next(p, stream, events[0]).0;
      ServeOne(p, stream, events[0]);
      Lossless(mid, stream, events[1..], got[1..], q);
      FramesSplit(stream, Consumed(p), |got[0]|, Consumed(q) - Consumed(mid));
    }
  }

  // --------------------------------------------------------------------- the code

  /** Reads the device must serve before `frames` frames have been handed out. */
  function ReadsNeeded(frames: nat, framesIn: nat, period: nat): nat
    requires period > 0
    decreases frames, if framesIn == 0 then 1 else 0
  {
    if frames == 0 then 0
    else if framesIn == 0 then 1 + ReadsNeeded(frames, period, period)
    else if frames <= framesIn then 0
    else ReadsNeeded(frames - framesIn, 0, period)
  }

  lemma {:induction false} ReadsStep(frames: nat, framesIn: nat, period: nat, now: nat, n: nat)
    requires period > 0 && frames > 0 && now == (if framesIn == 0 then period else framesIn)
    requires n == if frames > now then now else frames
    ensures ReadsNeeded(frames, framesIn, period)
            == (if framesIn == 0 then 1 else 0) + ReadsNeeded(frames - n, now - n, period)
  {
    assert ReadsNeeded(frames, framesIn, period) == (if framesIn == 0 then 1 else 0) + ReadsNeeded(frames, now, period);
  }

  /** What a call of read_frames finds. */
  datatype Call = Call(framesIn: nat, readStatus: int, readCount: nat)

  lemma {:induction false} PeriodsNone(period: nat)
    ensures Periods(period, 0) == 0
  {
  }

  /** The frames in n periods. */
  function Periods(period: nat, n: int): int { period * n }

  lemma {:induction false} PeriodsStep(period: nat, n: nat)
    ensures Periods(period, n + 1) == Periods(period, n) + period && Periods(period, n) >= 0
    ensures period > 0 && n > 0 ==> Periods(period, n) > 0
  {
    assert period * (n + 1) == period * n + period;
  }

  function Least(a: nat, b: nat): nat { if a < b then a else b }

  class InputStream {
    const stream: nat -> int       // the frames of the device
    const statusOf: nat -> int     // what the k-th read returns: 0, or a negative error
    const junk: (nat, nat) -> int  // what a failed read leaves in the buffer
    const buffer: array<int>       // in->buffer, one period
    var framesIn: nat
    var readStatus: int
    var present: bool              // in->pcm or in->mux_pcm is open
    var pos: nat
    var readCount: nat

    ghost function Value(): Provider
      reads this, buffer
    {
      Provider(buffer[..], framesIn, pos)
    }

    /** The next n reads, from the k-th on, succeed. */
    ghost predicate AllSucceed(k: nat, n: nat) { forall i :: k <= i < k + n ==> statusOf(i) == 0 }

    ghost predicate Valid()
      reads this, buffer
    {
      WellFormed(Value(), stream) && readStatus <= 0 && forall k :: statusOf(k) <= 0
    }

    constructor (stream: nat -> int, statusOf: nat -> int, junk: (nat, nat) -> int, periodSize: nat)
      requires periodSize > 0 && forall k :: statusOf(k) <= 0
      ensures Valid() && fresh(buffer) && framesIn == 0 && pos == 0 && present && readStatus == 0
              && buffer.Length == periodSize
    {
      this.stream := stream;
      this.statusOf := statusOf;
      this.junk := junk;
      buffer := new int[periodSize](_ => 0);
      framesIn, readStatus, present, pos, readCount := 0, 0, true, 0, 0;
    }

    /** pcm_read of a whole period. */
    method ReadPeriod()
      requires Valid() && framesIn == 0
      modifies this`readStatus, this`pos, this`readCount, buffer
      ensures Valid() && readCount == old(readCount) + 1 && readStatus == statusOf(old(readCount))
      ensures readStatus != 0 ==> pos == old(pos)
      ensures readStatus == 0 ==>
                pos == old(pos) + buffer.Length && buffer[..] == Frames(stream, old(pos), buffer.Length)
    {
      readStatus := statusOf(readCount);
      for k := 0 to buffer.Length
        modifies buffer
        invariant readStatus == 0 ==> forall j :: 0 <= j < k ==> buffer[j] == stream(pos + j)
      {
        buffer[k] := if readStatus == 0 then stream(pos + k) else junk(readCount, k);
      }
      readCount := readCount + 1;
      if readStatus == 0 {
        pos := pos + buffer.Length;
      }
    }

    /** get_next_buffer: `raw` is the offset of the grant in the buffer, -1 for NULL. */
    method GetNextBuffer(want: nat) returns (status: int, raw: int, count: nat)
      requires Valid()
      modifies this`framesIn, this`readStatus, this`pos, this`readCount, buffer
      ensures Valid() && status == readStatus && framesIn <= buffer.Length
      ensures !present ==>
                raw == -1 && count == 0 && status == -ENODEV && Value() == old(Value()) && readCount == old(readCount)
      ensures present ==> readCount == old(readCount) + (if old(framesIn) == 0 then 1 else 0)
      ensures present ==> readStatus == if old(framesIn) == 0 then statusOf(old(readCount)) else old(readStatus)
      ensures present && old(framesIn) == 0 && readStatus != 0 ==>
                raw == -1 && count == 0 && framesIn == 0 && pos == old(pos)
      ensures present && (old(framesIn) > 0 || readStatus == 0) ==>
                && Value() == Fetched(old(Value()), stream)
                && count == Granted(Value(), want)
                && raw == buffer.Length - framesIn
    {
      if !present {
        raw, count, readStatus := -1, 0, -ENODEV;
        return readStatus, raw, count;
      }
      if framesIn == 0 {
        ReadPeriod();
        if readStatus != 0 {
          return readStatus, -1, 0;
        }
        framesIn := buffer.Length;
      }
      count := if want > framesIn then framesIn else want;
      raw := buffer.Length - framesIn;
      status := readStatus;
    }

    /** release_buffer. */
    method ReleaseBuffer(count: nat)
      requires Valid() && count <= framesIn
      modifies this`framesIn
      ensures Valid() && framesIn == old(framesIn) - count
    {
      framesIn := framesIn - count;
    }

    /** One turn of the loop in read_frames. */
    method Deliver(dest: array<int>, at: nat, want: nat) returns (n: nat)
      requires Valid() && want > 0 && at + want <= dest.Length && dest != buffer
      modifies this`framesIn, this`readStatus, this`pos, this`readCount, buffer, dest
      ensures Valid() && framesIn <= buffer.Length
      ensures readStatus == if !present then -ENODEV
                            else if old(framesIn) == 0 then statusOf(old(readCount)) else old(readStatus)
      ensures readCount == old(readCount) + (if present && old(framesIn) == 0 then 1 else 0)
      ensures readStatus == 0 ==>
                var now := if old(framesIn) == 0 then buffer.Length else old(framesIn);
                && n == (if want > now then now else want) && framesIn == now - n
                && Consumed(Value()) == old(Consumed(Value())) + n
      ensures readStatus != 0 ==>
                Consumed(Value()) == old(Consumed(Value()) + if present then Least(want, framesIn) else 0)
      ensures readStatus == 0 ==> dest[..at] == old(dest[..at])
      ensures readStatus == 0 ==> dest[at..at + n] == Frames(stream, old(Consumed(Value())), n)
      ensures readStatus == 0 ==> dest[at + n..] == old(dest[at + n..])
    {
      hide Frames;
      n := want;
      var status, raw, count := GetNextBuffer(want);
      if raw != -1 {
        GrantIs(Value(), stream, count);
        assert buffer[raw..raw + count] == GrantedFrames(Value(), count);
        CopyOut(dest, at, raw, count);
        n := count;
      }
      ReleaseBuffer(count);
    }

    /** What read_frames is in the middle of: it has been asked for `frames` and has
        copied framesWr, every read so far having succeeded. */
    ghost predicate Copying(e: Call, frames: nat, framesWr: nat)
      requires buffer.Length > 0
      reads this
    {
      && framesWr <= frames && e.readCount <= readCount && AllSucceed(e.readCount, readCount - e.readCount)
      && (framesWr > 0 ==> readStatus == 0 && present && (e.framesIn == 0 || e.readStatus == 0))
      && (framesWr == 0 ==> framesIn == e.framesIn && readStatus == e.readStatus && readCount == e.readCount)
      && readCount + ReadsNeeded(frames - framesWr, framesIn, buffer.Length)
         == e.readCount + ReadsNeeded(frames, e.framesIn, buffer.Length)
      && framesWr + framesIn == e.framesIn + Periods(buffer.Length, readCount - e.readCount)
    }

    /** read_frames can return all that it was asked for. */
    ghost predicate Granting(e: Call, frames: nat)
      requires buffer.Length > 0
      reads this
    {
      frames == 0 || (present && (e.framesIn == 0 || e.readStatus == 0)
                      && AllSucceed(e.readCount, ReadsNeeded(frames, e.framesIn, buffer.Length)))
    }

    /** How a call that fails ends: why, and how many frames it has taken from the caller. */
    ghost predicate FailedAfter(e: Call, frames: nat, taken: int)
      requires buffer.Length > 0
      reads this
    {
      && !Granting(e, frames) && readStatus < 0
      && if !present then taken == 0
         else if e.framesIn > 0 && e.readStatus != 0 then taken == Least(frames, e.framesIn)
         else
           && readCount > e.readCount && statusOf(readCount - 1) == readStatus
           && AllSucceed(e.readCount, readCount - e.readCount - 1)
           && taken == e.framesIn + Periods(buffer.Length, readCount - e.readCount - 1)
    }

    /** One turn of the loop, with what it means for the whole call. */
    method Round(dest: array<int>, frames: nat, framesWr: nat, ghost e: Call) returns (n: nat)
      requires Valid() && framesWr < frames <= dest.Length && dest != buffer
      requires Copying(e, frames, framesWr)
      modifies this`framesIn, this`readStatus, this`pos, this`readCount, buffer, dest
      ensures Valid()
      ensures readStatus == 0 ==> 0 < n <= frames - framesWr && Copying(e, frames, framesWr + n)
      ensures readStatus == 0 ==> Consumed(Value()) == old(Consumed(Value())) + n
      ensures readStatus == 0 ==>
                dest[..framesWr + n] == old(dest[..framesWr]) + Frames(stream, old(Consumed(Value())), n)
      ensures readStatus != 0 ==> FailedAfter(e, frames, framesWr + Consumed(Value()) - old(Consumed(Value())))
    {
      hide ReadsNeeded, Frames, Periods;
      ghost var period, inBuffer, want, nextRead := buffer.Length, framesIn, frames - framesWr, readCount;
      ghost var now := if inBuffer == 0 then period else inBuffer;
      ReadsStep(want, inBuffer, period, now, if want > now then now else want);
      PeriodsStep(period, nextRead - e.readCount);
      n := Deliver(dest, framesWr, frames - framesWr);
      assert present && inBuffer == 0 ==> nextRead < e.readCount + ReadsNeeded(frames, e.framesIn, period);
      if readStatus == 0 {
        assert dest[..framesWr + n] == dest[..framesWr] + dest[framesWr..framesWr + n];
      }
    }

    /** read_frames without a resampler. It delivers the next `frames` frames of the
        device stream, exactly if the device is there, every read needed succeeds and
        no error is left over from before beside unread frames. When it fails, frames it
        has taken are lost to the caller: the unread ones and those of every read before
        the one that failed, or, beside a left-over error, those it would have returned. It
        loses none exactly if there is no device or the first thing it does is a read that
        fails. */
    method ReadFrames(dest: array<int>, frames: nat) returns (r: int)
      requires Valid() && frames <= dest.Length && dest != buffer
      modifies this`framesIn, this`readStatus, this`pos, this`readCount, buffer, dest
      ensures Valid() && framesIn <= buffer.Length
      ensures r == frames <==> Granting(old(Entered()), frames)
      ensures r == frames ==>
                (dest[..frames] == Frames(stream, old(Consumed(Value())), frames)
                 && Consumed(Value()) == old(Consumed(Value())) + frames)
      ensures r != frames ==>
                r < 0 && r == readStatus
                && FailedAfter(old(Entered()), frames, Consumed(Value()) - old(Consumed(Value())))
      ensures r != frames ==>
                (Consumed(Value()) == old(Consumed(Value()))
                 <==> !present || (old(framesIn) == 0 && statusOf(old(readCount)) != 0))
    {
      hide Frames;
      ghost var e, start := Entered(), Consumed(Value());
      var framesWr := 0;
      CopyingStarts(e, frames);
      assert dest[..0] == Frames(stream, start, 0);
      while framesWr < frames
        modifies this`framesIn, this`readStatus, this`pos, this`readCount, buffer, dest
        invariant Valid() && Copying(e, frames, framesWr) && e == old(Entered())
        invariant Consumed(Value()) == start + framesWr
        invariant dest[..framesWr] == Frames(stream, start, framesWr)
      {
        hide Copying, FailedAfter, WellFormed, Granting;
        var framesRd := Round(dest, frames, framesWr, e);
        if readStatus != 0 {
          FailureTakes(e, frames, Consumed(Value()) - start);
          return readStatus;
        }
        FramesSplit(stream, start, framesWr, framesRd);
        framesWr := framesWr + framesRd;
      }
      CopyingEnds(e, frames);
      r := framesWr;
    }

    ghost function Entered(): Call
      reads this
    {
      Call(framesIn, readStatus, readCount)
    }

    lemma {:induction false} CopyingStarts(e: Call, frames: nat)
      requires buffer.Length > 0 && e == Entered()
      ensures Copying(e, frames, 0)
    {
    }

    lemma {:induction false} CopyingEnds(e: Call, frames: nat)
      requires buffer.Length > 0 && Copying(e, frames, frames)
      ensures Granting(e, frames)
    {
    }

    /** A failing call has taken nothing only if its first step was the failing read. */
    lemma {:induction false} FailureTakes(e: Call, frames: nat, taken: int)
      requires buffer.Length > 0 && frames > 0 && FailedAfter(e, frames, taken)
      ensures readStatus < 0 && !Granting(e, frames)
      ensures taken == 0 <==> !present || (e.framesIn == 0 && statusOf(e.readCount) != 0)
    {
      hide ReadsNeeded, Periods;
      if present && !(e.framesIn > 0 && e.readStatus != 0) {
        PeriodsStep(buffer.Length, readCount - e.readCount - 1);
        PeriodsNone(buffer.Length);
      }
    }

    method CopyOut(dest: array<int>, at: nat, raw: nat, count: nat)
      requires dest != buffer && at + count <= dest.Length && raw + count <= buffer.Length
      modifies dest
      ensures dest[..at] == old(dest[..at]) && dest[at + count..] == old(dest[at + count..])
      ensures dest[at..at + count] == buffer[raw..raw + count]
    {
      for k := 0 to count
        invariant dest[..at] == old(dest[..at]) && dest[at + k..] == old(dest[at + k..])
        invariant dest[at..at + k] == buffer[raw..raw + k]
      {
        dest[at + k] := buffer[raw + k];
      }
    }
  }
}
