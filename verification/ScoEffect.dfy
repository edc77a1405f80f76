/** What the stream operations of the Bluetooth SCO handshake in audio/sc8830/audio_hw.c
    achieve: each one runs to its end, and at its end the streams are as it was asked to
    make them.
 */
module ScoEffect {
  import opened ScoHandshake

  /** A run from s in which no further operation begins. */
  ghost predicate Segment(s: State, actions: seq<Action>, t: State)
    decreases |actions|
  {
    if actions == [] then t == s
    else
      var n := |actions| - 1;
      exists m :: Segment(s, actions[..n], m) && Enabled(false, m, actions[n]) && !actions[n].Begin?
          && t == Next(false, m, actions[n])
  }

  /** What an operation is for. Starting or stopping playback also ends a capture that is
      running; reading from it again starts it anew. */
  predicate Effect(op: Operation, before: State, after: State) {
    match op
    case StartPlayback => after.playing && !after.capturing
    case StopPlayback => !after.playing && !after.capturing
    case StartCapture => after.capturing && after.playing == before.playing
    case StopCapture => !after.capturing && after.playing == before.playing
  }

  // ------------------------------------------------------------------- the effect

  /** Every place of the stream code belongs to certain operations. */
  predicate OnTheWay(op: Operation, before: State, s: State) {
    match s.caller
    case Idle => Effect(op, before, s)
    case CheckCapture(o) => o == op && (op == StartPlayback || op == StopPlayback) && s.playing == before.playing
    case ClearUplinkRead(o) => o == op && op != StartCapture && s.playing == before.playing
    case ClearUplinkWrite(o, _) => o == op && op != StartCapture && s.playing == before.playing
    case Duplicate(enable, o, _) => o == op && (enable <==> op == StartCapture) && s.playing == before.playing
    case SetDownlinkRead => op == StartPlayback
    case SetDownlinkWrite(_) => op == StartPlayback
    case OpenCard => op == StartPlayback
    case CloseCard => op == StopPlayback
    case ClearDownlinkRead => op == StopPlayback && !s.playing
    case ClearDownlinkWrite(_) => op == StopPlayback && !s.playing
    case SetUplinkRead => op == StartCapture && s.playing == before.playing
    case SetUplinkWrite(_) => op == StartCapture && s.playing == before.playing
    case CheckDownlink => op == StartCapture && s.playing == before.playing
  }

  lemma {:induction false} BeginsOnTheWay(s: State, op: Operation)
    requires Inv(s) && MayBegin(s, op)
    ensures OnTheWay(op, s, BeginNext(s, op)) && BeginNext(s, op).caller != Idle
  {
  }

  lemma {:induction false} DuplicateStaysOnTheWay(op: Operation, before: State, s: State)
    requires CallerOk(s) && CallerEnabled(s) && s.caller.Duplicate? && OnTheWay(op, before, s)
    ensures OnTheWay(op, before, CallerNext(s))
  {
    hide Between;
  }

  lemma {:induction false} StreamStaysOnTheWay(op: Operation, before: State, s: State)
    requires CallerOk(s) && CallerEnabled(s) && !s.caller.Duplicate? && OnTheWay(op, before, s)
    ensures OnTheWay(op, before, CallerNext(s))
  {
  }

  lemma {:induction false} StepStaysOnTheWay(op: Operation, before: State, s: State, a: Action)
    requires Inv(s) && OnTheWay(op, before, s) && Enabled(false, s, a) && !a.Begin?
    ensures Inv(Next(false, s, a)) && OnTheWay(op, before, Next(false, s, a))
  {
    hide MutexOk, HelperOk, HandshakeOk, CountOk, CallerOk, CallerNext, CallerEnabled, HelperEnabled;
    match a
    case CallerStep =>
      CallerKeeps(s);
      if s.caller.Duplicate? {
        DuplicateStaysOnTheWay(op, before, s);
      } else {
        StreamStaysOnTheWay(op, before, s);
      }
    case HelperStep(_) =>
      HelperKeeps(s);
      HelperLeavesStreams(s);
      SameWay(op, before, s, HelperNext(s, false));
    case SpuriousWakeup =>
      WakeupKeeps(s);
  }

  lemma {:induction false} HelperLeavesStreams(s: State)
    requires HelperEnabled(s)
    ensures var t := HelperNext(s, false);
            t.caller == s.caller && t.playing == s.playing && t.capturing == s.capturing && t.active == s.active
  {
    match s.helper
    case Lock =>
    case Test =>
    case MaybeOpen =>
    case ReadBits(_) =>
    case WriteBits(_, _) =>
    case PostOpened =>
    case WriteZero =>
    case MaybeClose =>
    case PostClosed =>
    case CondWait =>
    case Reacquire =>
    case Unlock =>
  }

  lemma {:induction false} SameWay(op: Operation, before: State, s: State, t: State)
    requires OnTheWay(op, before, s)
    requires t.caller == s.caller && t.playing == s.playing && t.capturing == s.capturing
    ensures OnTheWay(op, before, t)
  {
  }

  lemma {:induction false} SegmentStaysOnTheWay(op: Operation, before: State, s: State, actions: seq<Action>, t: State)
    requires Inv(s) && OnTheWay(op, before, s) && Segment(s, actions, t)
    ensures Inv(t) && OnTheWay(op, before, t)
    decreases |actions|
  {
    hide Inv, OnTheWay, Next, Enabled;
    if actions != [] {
      var n := |actions| - 1;
      var m :| Segment(s, actions[..n], m) && Enabled(false, m, actions[n]) && !actions[n].Begin?
               && t == Next(false, m, actions[n]);
      SegmentStaysOnTheWay(op, before, s, actions[..n], m);
      StepStaysOnTheWay(op, before, m, actions[n]);
    }
  }

  lemma {:induction false} ReachableInv(s: State)
    requires Reachable(false, s)
    ensures Inv(s)
  {
    hide RunsTo, Inv;
    var actions :| RunsTo(false, actions, s);
    ReachableHolds(actions, s);
  }

  /** Every operation, begun in any reachable state and interleaved with the helper in any
      way, has its effect by the time the stream code is idle again. */
  lemma {:induction false} OperationTakesEffect(s: State, op: Operation, actions: seq<Action>, t: State)
    requires Reachable(false, s) && MayBegin(s, op)
    requires Segment(BeginNext(s, op), actions, t) && t.caller == Idle
    ensures Effect(op, s, t)
  {
    hide Inv, RunsTo, Segment, BeginNext;
    ReachableInv(s);
    BeginsOnTheWay(s, op);
    BeginKeeps(s, op);
    SegmentStaysOnTheWay(op, s, BeginNext(s, op), actions, t);
  }

  // ------------------------------------------------------------------- the progress

  function StageRank(stage: Stage): nat {
    match stage
    case Compare => 13
    case LockMutex => 12
    case SetNeed => 11
    case Signal => 10
    case UnlockMutex => 9
    case WaitSem => 8
    case Returning => 7
    case UndoNeed => 6
  }

  /** Steps the stream code still has to take, at most. */
  function CallerRank(c: CallerPc): nat {
    match c
    case Idle => 0
    case CheckCapture(_) => 16
    case ClearUplinkRead(_) => 15
    case ClearUplinkWrite(_, _) => 14
    case Duplicate(_, _, stage) => StageRank(stage)
    case SetDownlinkRead => 3
    case SetDownlinkWrite(_) => 2
    case OpenCard => 1
    case CloseCard => 3
    case ClearDownlinkRead => 2
    case ClearDownlinkWrite(_) => 1
    case SetUplinkRead => 16
    case SetUplinkWrite(_) => 15
    case CheckDownlink => 14
  }

  /** Steps the helper is away from letting a blocked caller go on. */
  function HelperRank(s: State): (n: nat)
    ensures n > 0
  {
    if s.caller.Duplicate? && s.caller.stage == LockMutex then
      match s.helper
      case Test => if s.needStart then 1 else 4
      case MaybeClose => 3
      case PostClosed => 2
      case _ => 1
    else Distance(s) + 1
  }

  lemma {:induction false} DuplicateAdvances(s: State, enable: bool, op: Operation, stage: Stage)
    requires stage == WaitSem ==> s.sem > 0
    ensures CallerRank(DuplicateNext(s, enable, op, stage).caller) < CallerRank(Duplicate(enable, op, stage))
  {
    match stage
    case Compare =>
    case LockMutex =>
    case SetNeed =>
    case Signal =>
    case UnlockMutex =>
    case WaitSem =>
    case Returning => StandbyRank(op);
    case UndoNeed =>
  }

  lemma {:induction false} StandbyRank(op: Operation)
    ensures CallerRank(AfterStandby(op)) <= 3
  {
  }

  lemma {:induction false} StartAdvances(s: State)
    requires s.caller.SetDownlinkRead? || s.caller.SetDownlinkWrite? || s.caller.OpenCard?
    ensures CallerRank(CallerNext(s).caller) < CallerRank(s.caller)
  {
    hide DuplicateNext;
  }

  lemma {:induction false} StopAdvances(s: State)
    requires s.caller.CloseCard? || s.caller.ClearDownlinkRead? || s.caller.ClearDownlinkWrite?
    ensures CallerRank(CallerNext(s).caller) < CallerRank(s.caller)
  {
    hide DuplicateNext;
  }

  lemma {:induction false} CaptureAdvances(s: State)
    requires CallerEnabled(s) && !s.caller.Duplicate? && !Playback(s.caller)
    ensures CallerRank(CallerNext(s).caller) < CallerRank(s.caller)
  {
    hide DuplicateNext;
    if s.caller.CheckCapture? {
      StandbyRank(s.caller.op);
    }
  }

  lemma {:induction false} DuplicateMoves(s: State)
    requires CallerEnabled(s) && s.caller.Duplicate?
    ensures CallerRank(CallerNext(s).caller) < CallerRank(s.caller)
  {
    hide DuplicateNext, CallerRank;
    DuplicateAdvances(s, s.caller.enable, s.caller.op, s.caller.stage);
  }

  lemma {:induction false} CallerAdvances(s: State)
    requires CallerEnabled(s)
    ensures CallerRank(CallerNext(s).caller) < CallerRank(s.caller)
  {
    hide CallerNext, CallerRank, CallerEnabled;
    if s.caller.Duplicate? {
      DuplicateMoves(s);
    } else if s.caller.SetDownlinkRead? || s.caller.SetDownlinkWrite? || s.caller.OpenCard? {
      StartAdvances(s);
    } else if Playback(s.caller) {
      StopAdvances(s);
    } else {
      CaptureAdvances(s);
    }
  }

  /** A caller that cannot move waits for the helper, which can, and which lets it go on
      or comes nearer to it. */
  lemma {:induction false} BlockedCallerIsLetIn(s: State)
    requires Inv(s) && s.caller != Idle && !CallerEnabled(s)
    ensures HelperEnabled(s) && s.helper != Asleep
    ensures var t := HelperNext(s, false);
            t.caller == s.caller && (CallerEnabled(t) || HelperRank(t) < HelperRank(s))
  {
    assert s.caller.Duplicate? && (s.caller.stage == LockMutex || s.caller.stage == WaitSem);
    if s.caller.stage == LockMutex {
      LockIsReleased(s);
    } else {
      hide CallerOk, CountOk;
      AnswerNearer(s);
      HelperLeavesStreams(s);
      hide HelperNext, Distance, MutexOk, HelperOk, HandshakeOk, HelperEnabled;
    }
  }

  lemma {:induction false} LockHolder(s: State)
    requires MutexOk(s) && s.caller.Duplicate? && s.caller.stage == LockMutex && s.owner != Nobody
    ensures s.owner == Helper && HelperHolds(s.helper)
  {
  }

  lemma {:induction false} LockIsReleased(s: State)
    requires MutexOk(s) && s.caller.Duplicate? && s.caller.stage == LockMutex && s.owner != Nobody
    ensures HelperEnabled(s) && s.helper != Asleep
    ensures var t := HelperNext(s, false);
            t.caller == s.caller && (CallerEnabled(t) || HelperRank(t) < HelperRank(s))
  {
    hide Distance, MutexOk;
    LockHolder(s);
    assert HelperHolds(s.helper);
    match s.helper
    case Test =>
    case MaybeClose =>
    case PostClosed =>
    case CondWait =>
    case Unlock =>
  }

  /** Who moves if the stream code goes on whenever it can. */
  function Turn(s: State): Action { if CallerEnabled(s) then CallerStep else HelperStep(false) }

  /** Every operation ends: until the stream code is idle somebody can move, its own moves
      bring it nearer to the end, nobody else's take it away from there, and when it is
      blocked the helper's let it go on. */
  lemma {:induction false} OperationEnds(s: State) returns (actions: seq<Action>, t: State)
    requires Inv(s)
    ensures Segment(s, actions, t) && t.caller == Idle
    decreases CallerRank(s.caller), if CallerEnabled(s) then 0 else HelperRank(s)
  {
    hide Inv, CallerNext, HelperNext, HelperRank, CallerRank, CallerEnabled, HelperEnabled;
    if s.caller == Idle {
      return [], s;
    }
    var a := Turn(s);
    if CallerEnabled(s) {
      CallerAdvances(s);
      CallerKeeps(s);
    } else {
      BlockedCallerIsLetIn(s);
      HelperKeeps(s);
    }
    var rest;
    rest, t := OperationEnds(Next(false, s, a));
    actions := [a] + rest;
    SegmentCons(s, a, rest, t);
  }

  lemma {:induction false} SegmentCons(s: State, a: Action, rest: seq<Action>, t: State)
    requires Enabled(false, s, a) && !a.Begin? && Segment(Next(false, s, a), rest, t)
    ensures Segment(s, [a] + rest, t)
    decreases |rest|
  {
    hide Enabled, Next;
    var all := [a] + rest;
    var n := |rest|;
    if rest == [] {
      assert all[..0] == [] && Segment(s, all[..0], s);
    } else {
      var m :| Segment(Next(false, s, a), rest[..n - 1], m) && Enabled(false, m, rest[n - 1]) && !rest[n - 1].Begin?
               && t == Next(false, m, rest[n - 1]);
      SegmentCons(s, a, rest[..n - 1], m);
      assert all[..n] == [a] + rest[..n - 1];
    }
  }
}
