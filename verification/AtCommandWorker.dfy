/** The threads around the AT-command queue: pushers that store a command under
    ATlock and post a semaphore afterwards, and the worker of
    voice_command_thread_entry that waits, drains and sends.

    Each step is what happens between two points where another thread can get in;
    a step system interleaves them in every order.
 */
module AtCommandWorker {
  import opened AtCommandQueue
  import opened AtCommandMemory

  /** In sem_wait; between sem_wait and the snapshot; sending what it took. */
  datatype Worker = Waiting | Woken | Sending(queue: seq<string>)

  /** `posting` counts the pushers between unlock and sem_post. The last three fields
      record the run: pushes since the last drain, the drains, the commands sent. */
  datatype State = State(mem: Memory, sem: nat, posting: nat, worker: Worker,
                           pending: seq<Push>, drained: seq<seq<Push>>, sent: seq<string>)

  datatype Step = PushCommand(p: Push) | Post | Wake | Snapshot | SendNext | Finish

  ghost function Start(): State { State(Empty(), 0, 0, Waiting, [], [], []) }

  ghost predicate Enabled(s: State, step: Step) {
    match step
    case PushCommand(p) => Proper(p)
    case Post => s.posting > 0
    case Wake => s.worker == Waiting && s.sem > 0
    case Snapshot => s.worker == Woken
    case SendNext => s.worker.Sending? && s.worker.queue != []
    case Finish => s.worker == Sending([])
  }

  ghost function Next(s: State, step: Step): State
    requires Enabled(s, step)
  {
    match step
    case PushCommand(p) => s.(mem := PushTo(s.mem, p), posting := s.posting + 1, pending := s.pending + [p])
    case Post => s.(posting := s.posting - 1, sem := s.sem + 1)
    case Wake => s.(sem := s.sem - 1, worker := Woken)
    case Snapshot =>
      if Dirty(s.mem) == {} then s.(worker := Sending([]))
      else s.(mem := Empty(), worker := Sending(Drained(s.mem)), pending := [], drained := s.drained + [s.pending])
    case SendNext => s.(worker := Sending(s.worker.queue[1..]), sent := s.sent + [s.worker.queue[0]])
    case Finish => s.(worker := Waiting)
  }

  /** `steps` is a run from s to t. */
  ghost predicate RunsTo(s: State, steps: seq<Step>, t: State)
    decreases |steps|
  {
    if steps == [] then s == t
    else
      var n := |steps| - 1;
      exists m :: RunsTo(s, steps[..n], m) && Enabled(m, steps[n]) && t == Next(m, steps[n])
  }

  function Pushes(steps: seq<Step>): seq<Push> {
    if steps == [] then []
    else
      var n := |steps| - 1;
      Pushes(steps[..n]) + if steps[n].PushCommand? then [steps[n].p] else []
  }

  function Flatten(logs: seq<seq<Push>>): seq<Push> {
    if logs == [] then [] else Flatten(logs[..|logs| - 1]) + logs[|logs| - 1]
  }

  /** What a sequence of drains sends from the memory the pushes have left. */
  ghost function Actual(logs: seq<seq<Push>>): seq<string>
    requires forall k :: 0 <= k < |logs| ==> AllProper(logs[k])
  {
    if logs == [] then []
    else
      var n := |logs| - 1;
      StoredBytes(logs[n]);
      Actual(logs[..n]) + Drained(Stored(logs[n]))
  }

  /** What a sequence of drains should send. */
  ghost function Expected(logs: seq<seq<Push>>): seq<string> {
    if logs == [] then [] else Expected(logs[..|logs| - 1]) + Commands(Survivors(logs[|logs| - 1]))
  }

  /** Within the limits of RightForAllLogsIff. */
  predicate InLimits(logs: seq<seq<Push>>) { forall k :: 0 <= k < |logs| ==> |logs[k]| <= 255 && AllShort(logs[k]) }

  function InHand(w: Worker): seq<string> { if w.Sending? then w.queue else [] }

  /** A non-empty dirty mask has somebody on the way to it. */
  ghost predicate NotStranded(s: State) {
    Dirty(s.mem) != {} ==> s.sem > 0 || s.posting > 0 || s.worker == Woken
  }

  ghost predicate Invariant(s: State, pushed: seq<Push>) {
    && AllProper(s.pending) && AllKnown(s.pending) && s.mem == Stored(s.pending)
    && (Dirty(s.mem) == {} <==> s.pending == [])
    && NotStranded(s)
    && Flatten(s.drained) + s.pending == pushed
    && (forall k :: 0 <= k < |s.drained| ==> AllProper(s.drained[k]))
    && s.sent + InHand(s.worker) == Actual(s.drained)
  }

  lemma {:induction false} PushKeeps(s: State, p: Push, pushed: seq<Push>)
    requires Invariant(s, pushed) && Proper(p)
    ensures Invariant(Next(s, PushCommand(p)), pushed + [p])
  {
    hide PushTo, Dirty, Actual, Flatten, IsText;
    var log := s.pending + [p];
    assert log[..|log| - 1] == s.pending;
    StoredBytes(s.pending);
    PushMarks(s.mem, p);
    assert Flatten(s.drained) + log == Flatten(s.drained) + s.pending + [p];
  }

  lemma {:induction false} DirtyBound(m: Memory)
    ensures |Dirty(m)| <= 32
  {
    SubsetOfRange(Dirty(m), 32);
  }

  lemma {:induction false} SubsetOfRange(a: set<nat>, n: nat)
    requires forall x :: x in a ==> x < n
    ensures |a| <= n
  {
    if n == 0 {
      assert a == {};
    } else {
      SubsetOfRange(a - {n - 1}, n - 1);
      assert n - 1 in a ==> |a| == |a - {n - 1}| + 1;
      assert n - 1 !in a ==> a - {n - 1} == a;
    }
  }

  lemma {:induction false} SnapshotKeeps(s: State, pushed: seq<Push>)
    requires Enabled(s, Snapshot) && Invariant(s, pushed)
    ensures Invariant(Next(s, Snapshot), pushed)
  {
    hide Stored, Drained, Dirty, IsText, Actual, Flatten, Empty;
    if Dirty(s.mem) != {} {
      EmptyIs();
      NothingStored();
      Append(s.drained, s.pending);
      assert Flatten(s.drained) + s.pending + [] == Flatten(s.drained) + s.pending;
      assert s.sent + [] == s.sent;
    }
  }

  lemma {:induction false} NothingStored()
    ensures Stored([]) == Empty()
  {
  }

  lemma {:induction false} Append(logs: seq<seq<Push>>, log: seq<Push>)
    requires AllProper(log) && AllKnown(log) && forall k :: 0 <= k < |logs| ==> AllProper(logs[k])
    ensures Flatten(logs + [log]) == Flatten(logs) + log
    ensures Actual(logs + [log]) == Actual(logs) + Drained(Stored(log))
  {
    hide Stored, Drained, IsText;
    assert (logs + [log])[..|logs|] == logs;
  }

  lemma {:induction false} OtherKeeps(s: State, step: Step, pushed: seq<Push>)
    requires Invariant(s, pushed) && Enabled(s, step) && !step.PushCommand? && !step.Snapshot?
    ensures Invariant(Next(s, step), pushed)
  {
    hide Stored, Dirty, Actual, Flatten, IsText;
    if step.SendNext? {
      var q := s.worker.queue;
      assert s.sent + q == s.sent + [q[0]] + q[1..];
    }
  }

  lemma {:induction false} StepKeeps(s: State, step: Step, pushed: seq<Push>)
    requires Invariant(s, pushed) && Enabled(s, step)
    ensures Invariant(Next(s, step), pushed + if step.PushCommand? then [step.p] else [])
  {
    hide Invariant, Next;
    if step.PushCommand? {
      PushKeeps(s, step.p, pushed);
    } else {
      assert pushed + [] == pushed;
      if step.Snapshot? {
        SnapshotKeeps(s, pushed);
      } else {
        OtherKeeps(s, step, pushed);
      }
    }
  }

  lemma {:induction false} StartHolds()
    ensures Invariant(Start(), [])
  {
    EmptyIs();
  }

  lemma {:induction false} RunKeeps(steps: seq<Step>, t: State)
    requires RunsTo(Start(), steps, t)
    ensures Invariant(t, Pushes(steps))
    decreases |steps|
  {
    hide Invariant, Next, Enabled;
    if steps == [] {
      StartHolds();
    } else {
      var n := |steps| - 1;
      var m :| RunsTo(Start(), steps[..n], m) && Enabled(m, steps[n]) && t == Next(m, steps[n]);
      RunKeeps(steps[..n], m);
      StepKeeps(m, steps[n], Pushes(steps[..n]));
    }
  }

  /** Nothing left to happen but new pushes. */
  ghost predicate Quiet(s: State) { s.sem == 0 && s.posting == 0 && s.worker == Waiting }

  /** Drains within the limits send what they should. */
  lemma {:induction false} ActualIsExpected(logs: seq<seq<Push>>)
    requires InLimits(logs) && forall k :: 0 <= k < |logs| ==> AllProper(logs[k])
    ensures Actual(logs) == Expected(logs)
  {
    hide Stored, Drained, Survivors, AllShort, AllProper, AllKnown;
    if logs != [] {
      var n := |logs| - 1;
      ActualIsExpected(logs[..n]);
      ShortLogRight(logs[n]);
    }
  }

  /** Every run, every interleaving, every text: no command is stranded, the drains cut up
      the pushes in order, and what was sent or is in the worker's hands is what the
      memory held, drain by drain. As long as the drains have stayed within the limits that
      is the push log without the superseded entries. Once the threads are quiet,
      everything pushed has been drained and sent. */
  lemma {:induction false} EveryRun(steps: seq<Step>, t: State)
    requires RunsTo(Start(), steps, t)
    ensures NotStranded(t)
    ensures Flatten(t.drained) + t.pending == Pushes(steps)
    ensures forall k :: 0 <= k < |t.drained| ==> AllProper(t.drained[k])
    ensures t.sent + InHand(t.worker) == Actual(t.drained)
    ensures InLimits(t.drained) ==> t.sent + InHand(t.worker) == Expected(t.drained)
    ensures Quiet(t) ==> Flatten(t.drained) == Pushes(steps) && t.sent == Actual(t.drained)
    ensures Quiet(t) && InLimits(t.drained) ==> t.sent == Expected(t.drained)
  {
    hide Actual, Expected, Flatten, Stored, Pushes, InLimits, RunsTo;
    RunKeeps(steps, t);
    if InLimits(t.drained) {
      ActualIsExpected(t.drained);
    }
    if Quiet(t) {
      assert t.pending == [] && Flatten(t.drained) + [] == Flatten(t.drained);
      assert t.sent + [] == t.sent;
    }
  }

  /** Weighs the work outstanding. */
  function Rank(s: State): nat {
    40 * s.posting + 38 * s.sem
      + match s.worker
        case Waiting => 0
        case Woken => 36
        case Sending(q) => 1 + |q|
  }

  ghost function Pick(s: State): Step {
    if s.posting > 0 then Post
    else match s.worker
      case Waiting => Wake
      case Woken => Snapshot
      case Sending(q) => if q == [] then Finish else SendNext
  }

  /** Without new pushes the system comes to rest, from whatever state: unless it is quiet
      some thread can move, and every such move makes the rank smaller. */
  lemma {:induction false} ComesToRest(s: State, step: Step)
    ensures !Quiet(s) ==> Enabled(s, Pick(s)) && !Pick(s).PushCommand?
    ensures Enabled(s, step) && !step.PushCommand? ==> Rank(Next(s, step)) < Rank(s)
  {
    hide Drained, Dirty, PushTo;
    DirtyBound(s.mem);
  }
}
