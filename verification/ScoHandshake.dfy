/** The Bluetooth SCO handshake of audio/sc8830/audio_hw.c: a helper thread keeps
    the SCO card busy with zeros while there is capture and no playback, and the
    stream code starts and stops it around the real playback stream.

    Two actors share bt_sco_state, dup_need_start, a mutex with its condition
    variable and a semaphore. The stream code runs under adev->lock, so it is one
    actor that performs one operation at a time. Every step reads or writes shared
    state once; bt_sco_state, which both change without a common lock, is read and
    written back in two steps.
 */
module ScoHandshake {

  /** bt_sco_state: UPLINK_IS_STARTED, DOWNLINK_IS_EXIST, DOWNLINK_OPEN_FAIL. */
  datatype Bits = Bits(uplink: bool, downlink: bool, openFail: bool)

  /** Who holds cond_mutex. */
  datatype Owner = Nobody | Helper | Caller

  /** Where audio_bt_sco_dup_thread_func is. */
  datatype HelperPc =
    | Lock | Test | MaybeOpen
    | ReadBits(failed: bool) | WriteBits(failed: bool, local: Bits) | PostOpened | WriteZero
    | MaybeClose | PostClosed | CondWait | Asleep | Reacquire | Unlock

  datatype Operation = StartPlayback | StopPlayback | StartCapture | StopCapture

  /** Where audio_bt_sco_duplicate_start is. */
  datatype Stage = Compare | LockMutex | SetNeed | Signal | UnlockMutex | WaitSem | Returning | UndoNeed

  /** Where the stream code is. */
  datatype CallerPc =
    | Idle
    | CheckCapture(op: Operation)
    | ClearUplinkRead(op: Operation) | ClearUplinkWrite(op: Operation, local: Bits)
    | Duplicate(enable: bool, op: Operation, stage: Stage)
    | SetDownlinkRead | SetDownlinkWrite(local: Bits) | OpenCard
    | CloseCard | ClearDownlinkRead | ClearDownlinkWrite(local: Bits)
    | SetUplinkRead | SetUplinkWrite(local: Bits) | CheckDownlink

  datatype State = State(bits: Bits, dupCount: bool, needStart: bool, sem: nat, owner: Owner,
                         helper: HelperPc, helperOpen: bool,
                         caller: CallerPc, playing: bool, capturing: bool, active: bool)

  datatype Action =
    | HelperStep(openFails: bool)
    | SpuriousWakeup
    | Begin(op: Operation)
    | CallerStep

  function Initial(): State {
    State(Bits(false, false, false), false, false, 0, Nobody, Lock, false, Idle, false, false, false)
  }

  // ------------------------------------------------------------------- the helper

  predicate HelperEnabled(s: State) {
    match s.helper
    case Lock => s.owner == Nobody
    case Reacquire => s.owner == Nobody
    case Asleep => false
    case _ => true
  }

  /** `openFails` matters only where the card is opened. */
  function HelperNext(s: State, openFails: bool): State
    requires HelperEnabled(s)
  {
    match s.helper
    case Lock => s.(helper := Test, owner := Helper)
    case Test => if s.needStart then s.(helper := MaybeOpen, owner := Nobody) else s.(helper := MaybeClose)
    case MaybeOpen =>
      if s.helperOpen then s.(helper := WriteZero)
      else s.(helper := ReadBits(openFails), helperOpen := !openFails)
    case ReadBits(failed) => s.(helper := WriteBits(failed, s.bits))
    case WriteBits(failed, local) => s.(helper := PostOpened, bits := local.(openFail := failed))
    case PostOpened => s.(helper := WriteZero, sem := s.sem + 1)
    case WriteZero => s.(helper := Lock)
    case MaybeClose => if s.helperOpen then s.(helper := PostClosed, helperOpen := false) else s.(helper := CondWait)
    case PostClosed => s.(helper := CondWait, sem := s.sem + 1)
    case CondWait => s.(helper := Asleep, owner := Nobody)
    case Reacquire => s.(helper := Unlock, owner := Helper)
    case Unlock => s.(helper := Lock, owner := Nobody)
  }

  // --------------------------------------------------------------- the stream code

  predicate MayBegin(s: State, op: Operation) {
    s.caller == Idle &&
    match op
    case StartPlayback => !s.playing
    case StopPlayback => s.playing
    case StartCapture => !s.capturing
    case StopCapture => s.capturing
  }

  function BeginNext(s: State, op: Operation): State
    requires MayBegin(s, op)
  {
    match op
    case StartPlayback => s.(caller := CheckCapture(op))
    case StopPlayback => s.(caller := CheckCapture(op))
    case StartCapture => s.(caller := SetUplinkRead)
    case StopCapture => s.(caller := ClearUplinkRead(op))
  }

  predicate CallerEnabled(s: State) {
    match s.caller
    case Idle => false
    case Duplicate(_, _, LockMutex) => s.owner == Nobody
    case Duplicate(_, _, WaitSem) => s.sem > 0
    case _ => true
  }

  /** What follows once do_input_standby has come back, or was not needed. */
  function AfterStandby(op: Operation): CallerPc {
    match op
    case StartPlayback => SetDownlinkRead
    case StopPlayback => CloseCard
    case _ => Idle
  }

  /** One step of audio_bt_sco_duplicate_start(enable) on behalf of `op`. */
  function DuplicateNext(s: State, enable: bool, op: Operation, stage: Stage): State
    requires stage == WaitSem ==> s.sem > 0
  {
    match stage
    case Compare =>
      if enable != s.dupCount then s.(dupCount := enable, caller := Duplicate(enable, op, LockMutex))
      else s.(caller := Duplicate(enable, op, Returning))
    case LockMutex => s.(owner := Caller, caller := Duplicate(enable, op, SetNeed))
    case SetNeed => s.(needStart := enable, caller := Duplicate(enable, op, Signal))
    case Signal =>
      s.(helper := if s.helper == Asleep then Reacquire else s.helper, caller := Duplicate(enable, op, UnlockMutex))
    case UnlockMutex => s.(owner := Nobody, caller := Duplicate(enable, op, WaitSem))
    case WaitSem => s.(sem := s.sem - 1, caller := Duplicate(enable, op, Returning))
    case Returning =>
      if enable && s.bits.openFail then s.(dupCount := false, caller := Duplicate(enable, op, UndoNeed))
      else if enable then s.(capturing := true, active := true, caller := Idle)
      else s.(capturing := false, active := false, caller := AfterStandby(op))
    case UndoNeed => s.(needStart := false, capturing := true, active := false, caller := Idle)
  }

  function CallerNext(s: State): State
    requires CallerEnabled(s)
  {
    match s.caller
    case CheckCapture(op) =>
      s.(caller := if s.bits.uplink && s.active then ClearUplinkRead(op) else AfterStandby(op))
    case ClearUplinkRead(op) => s.(caller := ClearUplinkWrite(op, s.bits))
    case ClearUplinkWrite(op, local) =>
      s.(bits := local.(uplink := false), caller := Duplicate(false, op, Compare))
    case Duplicate(enable, op, stage) => DuplicateNext(s, enable, op, stage)
    case SetDownlinkRead => s.(caller := SetDownlinkWrite(s.bits))
    case SetDownlinkWrite(local) => s.(bits := local.(downlink := true), caller := OpenCard)
    case OpenCard => s.(playing := true, caller := Idle)
    case CloseCard => s.(playing := false, caller := ClearDownlinkRead)
    case ClearDownlinkRead => s.(caller := ClearDownlinkWrite(s.bits))
    case ClearDownlinkWrite(local) => s.(bits := local.(downlink := false), caller := Idle)
    case SetUplinkRead => s.(caller := SetUplinkWrite(s.bits))
    case SetUplinkWrite(local) => s.(bits := local.(uplink := true), caller := CheckDownlink)
    case CheckDownlink =>
      if s.bits.downlink then s.(capturing := true, active := true, caller := Idle)
      else s.(caller := Duplicate(true, StartCapture, Compare))
  }

  // -------------------------------------------------------------------------- runs

  /** mayFail: the helper's pcm_open may fail. */
  predicate Enabled(mayFail: bool, s: State, a: Action) {
    match a
    case HelperStep(openFails) => HelperEnabled(s) && (openFails ==> mayFail)
    case SpuriousWakeup => s.helper == Asleep
    case Begin(op) => MayBegin(s, op)
    case CallerStep => CallerEnabled(s)
  }

  function Next(mayFail: bool, s: State, a: Action): State
    requires Enabled(mayFail, s, a)
  {
    match a
    case HelperStep(openFails) => HelperNext(s, openFails)
    case SpuriousWakeup => s.(helper := Reacquire)
    case Begin(op) => BeginNext(s, op)
    case CallerStep => CallerNext(s)
  }

  ghost predicate RunsTo(mayFail: bool, actions: seq<Action>, t: State)
    decreases |actions|
  {
    if actions == [] then t == Initial()
    else
      var n := |actions| - 1;
      exists m :: RunsTo(mayFail, actions[..n], m) && Enabled(mayFail, m, actions[n])
          && t == Next(mayFail, m, actions[n])
  }

  ghost predicate Reachable(mayFail: bool, s: State) {
    exists actions :: RunsTo(mayFail, actions, s)
  }

  /** What the code is there to ensure. The card has one writer; the semaphore never
      holds more than one post; duplicate_start comes back only when the helper is in
      the state asked for; and between operations bt_sco_state says which streams
      run, no update of it having been lost, with the helper writing exactly while
      there is capture and no playback. */
  predicate Safe(s: State) {
    && !(s.helperOpen && s.playing)
    && s.sem <= 1
    && (s.caller.Duplicate? && s.caller.stage == Returning ==> s.helperOpen == s.caller.enable)
    && (s.caller == Idle ==>
         s.bits == Bits(s.capturing, s.playing, false) && s.helperOpen == (s.capturing && !s.playing))
  }

  // --------------------------------------------------------------- the invariant

  predicate Posting(h: HelperPc) { h.ReadBits? || h.WriteBits? || h.PostOpened? || h.PostClosed? }

  predicate HelperHolds(h: HelperPc) { h.Test? || h.MaybeClose? || h.PostClosed? || h.CondWait? || h.Unlock? }

  predicate CallerHolds(c: CallerPc) {
    c.Duplicate? && (c.stage == SetNeed || c.stage == Signal || c.stage == UnlockMutex)
  }

  predicate MutexOk(s: State) {
    && (s.owner == Helper <==> HelperHolds(s.helper))
    && (s.owner == Caller <==> CallerHolds(s.caller))
  }

  /** What each place in the helper's loop implies. */
  predicate HelperOk(s: State) {
    match s.helper
    case MaybeOpen => s.helperOpen || s.needStart
    case ReadBits(failed) => s.helperOpen && s.needStart && !failed
    case WriteBits(failed, local) => s.helperOpen && s.needStart && !failed && local == s.bits
    case PostOpened => s.helperOpen && s.needStart
    case WriteZero => s.helperOpen
    case MaybeClose => !s.needStart
    case PostClosed => !s.needStart && !s.helperOpen
    case CondWait => !s.needStart && !s.helperOpen
    case Asleep => !s.helperOpen && (s.needStart ==> s.caller.Duplicate? && s.caller.enable && s.caller.stage == Signal)
    case Reacquire => !s.helperOpen
    case Unlock => !s.helperOpen
    case _ => true
  }

  /** Between setting dup_need_start and taking the post. */
  predicate Changing(c: CallerPc) {
    c.Duplicate? && (c.stage == Signal || c.stage == UnlockMutex || c.stage == WaitSem)
  }

  /** One request, at most one answer. */
  predicate HandshakeOk(s: State) {
    if Changing(s.caller) then
      && s.needStart == s.caller.enable
      && (if s.helperOpen != s.caller.enable then s.sem == 0 && !Posting(s.helper)
          else if Posting(s.helper) then s.sem == 0 else s.sem == 1)
    else
      s.helperOpen == s.needStart && s.sem == 0 && !Posting(s.helper)
  }

  /** dup_count is ahead of dup_need_start only on the way to setting it. */
  predicate CountOk(s: State) {
    if s.caller.Duplicate? && (s.caller.stage == LockMutex || s.caller.stage == SetNeed) then
      s.dupCount == s.caller.enable && s.needStart != s.dupCount
    else s.dupCount == s.needStart
  }

  predicate Between(s: State) {
    && s.bits == Bits(s.capturing, s.playing, false)
    && s.dupCount == (s.capturing && !s.playing) && s.active == s.capturing
  }

  predicate OpOk(s: State, op: Operation) {
    s.capturing && (op == StartPlayback ==> !s.playing) && (op == StopPlayback ==> s.playing) && op != StartCapture
  }

  /** What each place in the stream code implies for the streams and their bits. */
  predicate CallerOk(s: State) {
    match s.caller
    case Idle => Between(s)
    case CheckCapture(op) => Between(s) && ((op == StartPlayback && !s.playing) || (op == StopPlayback && s.playing))
    case ClearUplinkRead(op) => Between(s) && OpOk(s, op)
    case ClearUplinkWrite(op, local) => Between(s) && OpOk(s, op) && local == s.bits
    case Duplicate(enable, op, stage) =>
      if enable then
        && op == StartCapture && !s.capturing && !s.playing && s.bits == Bits(true, false, false) && stage != UndoNeed
        && s.dupCount == (stage != Compare)
      else
        && OpOk(s, op) && s.active && s.bits == Bits(false, s.playing, false) && stage != UndoNeed
        && s.dupCount == (stage == Compare && !s.playing) && (s.playing ==> stage == Compare || stage == Returning)
    case SetDownlinkRead => Between(s) && !s.capturing && !s.playing
    case SetDownlinkWrite(local) => Between(s) && !s.capturing && !s.playing && local == s.bits
    case OpenCard => !s.capturing && !s.playing && !s.dupCount && !s.active && s.bits == Bits(false, true, false)
    case CloseCard => Between(s) && !s.capturing && s.playing
    case ClearDownlinkRead => !s.capturing && !s.playing && !s.dupCount && !s.active
        && s.bits == Bits(false, true, false)
    case ClearDownlinkWrite(local) =>
      !s.capturing && !s.playing && !s.dupCount && !s.active && s.bits == Bits(false, true, false) && local == s.bits
    case SetUplinkRead => Between(s) && !s.capturing
    case SetUplinkWrite(local) => Between(s) && !s.capturing && local == s.bits
    case CheckDownlink => !s.capturing && !s.active && !s.dupCount && s.bits == Bits(true, s.playing, false)
  }

  predicate Inv(s: State) {
    MutexOk(s) && HelperOk(s) && HandshakeOk(s) && CountOk(s) && CallerOk(s)
  }

  /** The stream code's facts do not depend on the helper's fields, and no open has failed. */
  lemma {:induction false} CallerFrame(s: State, t: State)
    requires CallerOk(s)
    requires t.bits == s.bits && t.dupCount == s.dupCount && t.caller == s.caller
    requires t.playing == s.playing && t.capturing == s.capturing && t.active == s.active
    ensures CallerOk(t) && !s.bits.openFail
  {
  }

  lemma {:induction false} LookKeeps(s: State)
    requires Inv(s) && HelperEnabled(s) && (s.helper.Lock? || s.helper.Test?)
    ensures Inv(HelperNext(s, false))
  {
    hide CallerOk;
    CallerFrame(s, s);
    CallerFrame(s, HelperNext(s, false));
  }

  lemma {:induction false} OpenKeeps(s: State)
    requires Inv(s) && HelperEnabled(s) && (s.helper.MaybeOpen? || s.helper.WriteZero?)
    ensures Inv(HelperNext(s, false))
  {
    hide CallerOk;
    CallerFrame(s, s);
    CallerFrame(s, HelperNext(s, false));
  }

  lemma {:induction false} ReportKeeps(s: State)
    requires Inv(s) && HelperEnabled(s) && (s.helper.ReadBits? || s.helper.WriteBits? || s.helper.PostOpened?)
    ensures Inv(HelperNext(s, false))
  {
    hide CallerOk;
    CallerFrame(s, s);
    CallerFrame(s, HelperNext(s, false));
  }

  lemma {:induction false} CloseKeeps(s: State)
    requires Inv(s) && HelperEnabled(s) && (s.helper.MaybeClose? || s.helper.PostClosed?)
    ensures Inv(HelperNext(s, false))
  {
    hide CallerOk;
    CallerFrame(s, s);
    CallerFrame(s, HelperNext(s, false));
  }

  lemma {:induction false} SleepKeeps(s: State)
    requires Inv(s) && HelperEnabled(s) && (s.helper.CondWait? || s.helper.Reacquire? || s.helper.Unlock?)
    ensures Inv(HelperNext(s, false))
  {
    hide CallerOk;
    CallerFrame(s, s);
    CallerFrame(s, HelperNext(s, false));
  }

  lemma {:induction false} HelperKeeps(s: State)
    requires Inv(s) && HelperEnabled(s)
    ensures Inv(HelperNext(s, false))
  {
    assert s.helper != Asleep;
    hide Inv, HelperNext;
    if s.helper.Lock? || s.helper.Test? {
      LookKeeps(s);
    } else if s.helper.MaybeOpen? || s.helper.WriteZero? {
      OpenKeeps(s);
    } else if s.helper.ReadBits? || s.helper.WriteBits? || s.helper.PostOpened? {
      ReportKeeps(s);
    } else if s.helper.MaybeClose? || s.helper.PostClosed? {
      CloseKeeps(s);
    } else {
      SleepKeeps(s);
    }
  }

  lemma {:induction false} WakeupKeeps(s: State)
    requires Inv(s) && s.helper == Asleep
    ensures Inv(s.(helper := Reacquire))
  {
    hide CallerOk;
    CallerFrame(s, s.(helper := Reacquire));
  }

  lemma {:induction false} BeginKeeps(s: State, op: Operation)
    requires Inv(s) && MayBegin(s, op)
    ensures Inv(BeginNext(s, op))
  {
    hide MutexOk, HelperOk, HandshakeOk, CountOk;
    HandshakeFrame(s, BeginNext(s, op));
  }

  /** Outside duplicate_start the handshake is at rest and the caller only moves on. */
  lemma {:induction false} HandshakeFrame(s: State, t: State)
    requires MutexOk(s) && HelperOk(s) && HandshakeOk(s) && CountOk(s)
    requires HelperUntouched(s, t) && AtRest(s.caller) && AtRest(t.caller)
    ensures MutexOk(t) && HelperOk(t) && HandshakeOk(t) && CountOk(t)
  {
  }

  lemma {:induction false} RequestKeeps(s: State)
    requires Inv(s) && s.caller.Duplicate? && CallerEnabled(s)
    requires s.caller.stage == Compare || s.caller.stage == LockMutex || s.caller.stage == SetNeed
    ensures Inv(CallerNext(s))
  {
  }

  lemma {:induction false} AnswerKeeps(s: State)
    requires Inv(s) && s.caller.Duplicate? && CallerEnabled(s)
    requires s.caller.stage == Signal || s.caller.stage == UnlockMutex || s.caller.stage == WaitSem
    ensures Inv(CallerNext(s))
  {
  }

  lemma {:induction false} ReturnKeeps(s: State)
    requires Inv(s) && s.caller.Duplicate? && CallerEnabled(s)
    requires s.caller.stage == Returning || s.caller.stage == UndoNeed
    ensures Inv(CallerNext(s))
  {
  }

  predicate Playback(c: CallerPc) {
    || c.SetDownlinkRead? || c.SetDownlinkWrite? || c.OpenCard?
    || c.CloseCard? || c.ClearDownlinkRead? || c.ClearDownlinkWrite?
  }

  predicate HelperUntouched(s: State, t: State) {
    && t.dupCount == s.dupCount && t.needStart == s.needStart && t.sem == s.sem && t.owner == s.owner
    && t.helper == s.helper && t.helperOpen == s.helperOpen
  }

  predicate AtRest(c: CallerPc) { !c.Duplicate? || c.stage == Compare || c.stage == Returning }

  lemma {:induction false} PlaybackKeeps(s: State)
    requires CallerOk(s) && Playback(s.caller)
    ensures CallerOk(CallerNext(s)) && HelperUntouched(s, CallerNext(s)) && AtRest(CallerNext(s).caller)
  {
  }

  lemma {:induction false} CaptureKeeps(s: State)
    requires CallerOk(s) && CallerEnabled(s) && !s.caller.Duplicate? && !Playback(s.caller)
    ensures CallerOk(CallerNext(s)) && HelperUntouched(s, CallerNext(s)) && AtRest(CallerNext(s).caller)
  {
  }

  lemma {:induction false} StreamKeeps(s: State)
    requires Inv(s) && CallerEnabled(s) && !s.caller.Duplicate?
    ensures Inv(CallerNext(s))
  {
    hide MutexOk, HelperOk, HandshakeOk, CountOk, CallerOk, CallerNext, HelperUntouched;
    if Playback(s.caller) {
      PlaybackKeeps(s);
    } else {
      CaptureKeeps(s);
    }
    HandshakeFrame(s, CallerNext(s));
  }

  lemma {:induction false} CallerKeeps(s: State)
    requires Inv(s) && CallerEnabled(s)
    ensures Inv(CallerNext(s))
  {
    hide Inv, CallerNext, CallerEnabled;
    if !s.caller.Duplicate? {
      StreamKeeps(s);
    } else if s.caller.stage == Compare || s.caller.stage == LockMutex || s.caller.stage == SetNeed {
      RequestKeeps(s);
    } else if s.caller.stage == Returning || s.caller.stage == UndoNeed {
      ReturnKeeps(s);
    } else {
      AnswerKeeps(s);
    }
  }

  lemma {:induction false} ReachableHolds(actions: seq<Action>, s: State)
    requires RunsTo(false, actions, s)
    ensures Inv(s)
    decreases |actions|
  {
    hide Inv, HelperNext, CallerNext, BeginNext, HelperEnabled, CallerEnabled;
    if actions == [] {
      InitialHolds();
    } else {
      var n := |actions| - 1;
      var m :| RunsTo(false, actions[..n], m) && Enabled(false, m, actions[n]) && s == Next(false, m, actions[n]);
      ReachableHolds(actions[..n], m);
      match actions[n]
      case HelperStep(_) => HelperKeeps(m);
      case SpuriousWakeup => WakeupKeeps(m);
      case Begin(op) => BeginKeeps(m, op);
      case CallerStep => CallerKeeps(m);
    }
  }

  lemma {:induction false} InitialHolds()
    ensures Inv(Initial())
  {
  }

  lemma {:induction false} InvIsSafe(s: State)
    requires Inv(s)
    ensures Safe(s)
  {
  }

  // --------------------------------------------------------------- nobody is stuck

  /** Steps the helper is away from posting what the waiting caller asked for. */
  function Distance(s: State): nat {
    match s.helper
    case Asleep => 0
    case CondWait => 0
    case PostOpened => 1
    case PostClosed => 1
    case WriteBits(_, _) => 2
    case ReadBits(_) => 3
    case MaybeClose => if s.helperOpen then 2 else 1
    case MaybeOpen => if s.helperOpen then 6 else 4
    case Test => if s.needStart then 5 else 3
    case Lock => if s.needStart then 6 else 4
    case WriteZero => if s.needStart then 7 else 5
    case Unlock => 7
    case Reacquire => 8
  }

  lemma {:induction false} AnswerNearer(s: State)
    requires MutexOk(s) && HelperOk(s) && HandshakeOk(s) && s.caller.Duplicate? && s.caller.stage == WaitSem
             && s.sem == 0
    ensures HelperEnabled(s)
    ensures var t := HelperNext(s, false); t.sem == 1 || (t.sem == 0 && Distance(t) < Distance(s))
  {
  }

  /** While the caller waits for the semaphore the helper can move, it alone, and
      every move posts or brings the post nearer: duplicate_start always comes back. */
  lemma {:induction false} WaitingCallerIsAnswered(s: State, enable: bool, op: Operation)
    requires Reachable(false, s) && s.caller == Duplicate(enable, op, WaitSem)
    ensures s.sem == 0 ==> !CallerEnabled(s) && s.helper != Asleep && HelperEnabled(s)
    ensures s.sem == 0 ==> var t := HelperNext(s, false);
                           t.caller == s.caller && (t.sem == 1 || (t.sem == 0 && Distance(t) < Distance(s)))
    ensures s.sem > 0 ==> CallerEnabled(s) && s.helperOpen == enable
  {
    var actions :| RunsTo(false, actions, s);
    ReachableHolds(actions, s);
    hide RunsTo, MutexOk, HelperOk, CallerOk, CountOk, Distance;
    if s.sem == 0 {
      AnswerNearer(s);
    }
  }

  // ------------------------------------------------------------ when the open fails

  lemma {:induction false} ReachStep(mayFail: bool, s: State, a: Action) returns (t: State)
    requires Reachable(mayFail, s) && Enabled(mayFail, s, a)
    ensures Reachable(mayFail, t) && t == Next(mayFail, s, a)
  {
    t := Next(mayFail, s, a);
    var actions :| RunsTo(mayFail, actions, s);
    var more := actions + [a];
    assert more[..|actions|] == actions && more[|actions|] == a;
    assert RunsTo(mayFail, more, t);
  }

  lemma {:induction false} AnnounceCapture() returns (s: State)
    ensures Reachable(true, s)
    ensures s == State(Bits(true, false, false), false, false, 0, Nobody, Lock, false,
                       Duplicate(true, StartCapture, Compare), false, false, false)
  {
    assert RunsTo(true, [], Initial());
    s := ReachStep(true, Initial(), Begin(StartCapture));
    s := ReachStep(true, s, CallerStep);
    s := ReachStep(true, s, CallerStep);
    s := ReachStep(true, s, CallerStep);
  }

  /** Capture asks for the helper and waits. */
  lemma {:induction false} AskForHelper() returns (s: State)
    ensures Reachable(true, s)
    ensures s == State(Bits(true, false, false), true, true, 0, Nobody, Lock, false,
                       Duplicate(true, StartCapture, WaitSem), false, false, false)
  {
    hide RunsTo;
    s := AnnounceCapture();
    s := ReachStep(true, s, CallerStep);
    s := ReachStep(true, s, CallerStep);
    s := ReachStep(true, s, CallerStep);
    s := ReachStep(true, s, CallerStep);
    s := ReachStep(true, s, CallerStep);
  }

  /** The helper fails to open, posts, and comes round again before it is told to stop. */
  lemma {:induction false} FailAndComeRound() returns (s: State)
    ensures Reachable(true, s)
    ensures s == State(Bits(true, false, true), true, true, 1, Nobody, MaybeOpen, false,
                       Duplicate(true, StartCapture, WaitSem), false, false, false)
  {
    hide RunsTo;
    s := AskForHelper();
    s := ReachStep(true, s, HelperStep(false));
    s := ReachStep(true, s, HelperStep(false));
    s := ReachStep(true, s, HelperStep(true));
    s := ReachStep(true, s, HelperStep(false));
    s := ReachStep(true, s, HelperStep(false));
    s := ReachStep(true, s, HelperStep(false));
    s := ReachStep(true, s, HelperStep(false));
    s := ReachStep(true, s, HelperStep(false));
    s := ReachStep(true, s, HelperStep(false));
  }

  /** Capture gives up; the helper, not looking, opens the card after all; playback
      starts. Two writers hold the card. */
  lemma {:induction false} TwoWriters() returns (s: State)
    ensures Reachable(true, s) && s.helperOpen && s.playing
  {
    hide RunsTo;
    s := FailAndComeRound();
    s := ReachStep(true, s, CallerStep);
    s := ReachStep(true, s, CallerStep);
    s := ReachStep(true, s, CallerStep);
    s := ReachStep(true, s, HelperStep(false));
    assert s == State(Bits(true, false, true), false, false, 0, Nobody, ReadBits(false), true,
                      Idle, false, true, false);
    s := ReachStep(true, s, Begin(StartPlayback));
    s := ReachStep(true, s, CallerStep);
    s := ReachStep(true, s, CallerStep);
    s := ReachStep(true, s, CallerStep);
    assert s == State(Bits(true, true, true), false, false, 0, Nobody, ReadBits(false), true,
                      OpenCard, false, true, false);
    s := ReachStep(true, s, CallerStep);
  }

  /** In every interleaving every reachable state is safe, if and only if the helper's
      open cannot fail. */
  lemma {:induction false} SafeIffOpenCannotFail(mayFail: bool)
    ensures (forall s :: Reachable(mayFail, s) ==> Safe(s)) <==> !mayFail
  {
    if mayFail {
      var s := TwoWriters();
      assert Reachable(mayFail, s) && !Safe(s);
    } else {
      forall s | Reachable(mayFail, s)
        ensures Safe(s)
      {
        var actions :| RunsTo(mayFail, actions, s);
        ReachableHolds(actions, s);
        InvIsSafe(s);
      }
    }
  }
}
