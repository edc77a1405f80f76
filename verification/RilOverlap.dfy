/** The token pool of libsecril-client/secril-client.cpp between two threads. A caller sends
    requests, the reader thread handles responses, and nothing locks the pool: setting or
    clearing a bit reads the word and writes it back, and the other thread can get in
    between.
 */
module RilOverlap {
  import opened RilClient

  /** Where a thread is. AddTo and TakeFrom hold the word as it was read. */
  datatype Place =
    | Idle
    | AddTo(b: nat, id: nat, seen: Word)
    | Record(b: nat, id: nat)
    | Transmit(b: nat)
    | Freeing(b: nat)
    | TakeFrom(b: nat, seen: Word)
    | Clearing(b: nat)

  datatype State = State(pool: Word, history: seq<Entry>, caller: Place, reader: Place)

  /** A send begins, a response arrives, or a thread takes its next step; `written` says
      whether a step that writes to the socket succeeds. */
  datatype Action = BeginSend(id: nat) | BeginAnswer(b: nat) | CallerStep(written: bool) | ReaderStep

  ghost function Initial(): State { State({}, Fresh().history, Idle, Idle) }

  /** A step of SendOemRequestHookRaw, or of processSolicited from FreeToken on. */
  function Step(pool: Word, history: seq<Entry>, at: Place, written: bool): (Word, seq<Entry>, Place) {
    match at
    case Idle => (pool, history, Idle)
    case AddTo(b, id, seen) => (seen + {b}, history, Record(b, id))
    case Record(b, id) =>
      var k := Find(history, {}, 0);
      if k < |history| then (pool, history[k := Entry({b}, id)], Transmit(b)) else (pool, history, Freeing(b))
    case Transmit(b) => (pool, history, if written then Idle else Freeing(b))
    case Freeing(b) => (pool, history, TakeFrom(b, pool))
    case TakeFrom(b, seen) => (seen - {b}, history, Clearing(b))
    case Clearing(b) => (pool, Cleared(history, {b}), Idle)
  }

  /** Without `overlap` a thread begins only when the other is idle. */
  predicate Enabled(overlap: bool, s: State, a: Action) {
    match a
    case BeginSend(_) => s.caller == Idle && (overlap || s.reader == Idle)
    case BeginAnswer(_) => s.reader == Idle && (overlap || s.caller == Idle)
    case CallerStep(_) => s.caller != Idle
    case ReaderStep => s.reader != Idle
  }

  function Next(s: State, a: Action): State {
    match a
    case BeginSend(id) => if s.pool == All(BITS) then s else s.(caller := AddTo(ClearBit(s.pool, 0), id, s.pool))
    case BeginAnswer(b) => if IsValidToken(s.pool, {b}) then s.(reader := Freeing(b)) else s
    case CallerStep(written) =>
      var r := Step(s.pool, s.history, s.caller, written);
      State(r.0, r.1, r.2, s.reader)
    case ReaderStep =>
      var r := Step(s.pool, s.history, s.reader, true);
      State(r.0, r.1, s.caller, r.2)
  }

  ghost predicate RunsTo(overlap: bool, actions: seq<Action>, t: State)
    decreases |actions|
  {
    if actions == [] then t == Initial()
    else
      var n := |actions| - 1;
      exists m :: RunsTo(overlap, actions[..n], m) && Enabled(overlap, m, actions[n]) && t == Next(m, actions[n])
  }

  ghost predicate Reachable(overlap: bool, s: State) { exists actions :: RunsTo(overlap, actions, s) }

  // ------------------------------------------------------------ one thread at a time

  /** What a thread's place says about pool and history while the other is idle. */
  ghost predicate PlaceOk(pool: Word, history: seq<Entry>, at: Place) {
    match at
    case Idle => Matched(pool, history)
    case AddTo(b, _, seen) => Matched(pool, history) && seen == pool && b < BITS && b !in pool
    case Record(b, _) => Matched(pool - {b}, history) && b in pool && b < BITS
    case Transmit(b) => Matched(pool, history) && b in pool
    case Freeing(b) => Matched(pool, history) && b in pool
    case TakeFrom(b, seen) => Matched(pool, history) && b in pool && seen == pool
    case Clearing(b) => Matched(pool + {b}, history) && b !in pool
  }

  ghost predicate Alone(s: State) {
    || (s.reader == Idle && PlaceOk(s.pool, s.history, s.caller))
    || (s.caller == Idle && PlaceOk(s.pool, s.history, s.reader))
  }

  lemma {:induction false} StepKeeps(pool: Word, history: seq<Entry>, at: Place, written: bool)
    requires PlaceOk(pool, history, at)
    ensures var r := Step(pool, history, at, written); PlaceOk(r.0, r.1, r.2)
  {
    hide Matched, Find, Cleared;
    match at
    case Record(b, id) => RecordKeeps(pool, history, b, id);
    case AddTo(b, id, seen) => assert seen + {b} - {b} == seen;
    case TakeFrom(b, seen) => assert seen - {b} + {b} == seen;
    case Clearing(b) =>
      Erased(pool + {b}, history, b);
      assert pool + {b} - {b} == pool;
    case _ =>
  }

  lemma {:induction false} RecordKeeps(pool: Word, history: seq<Entry>, b: nat, id: nat)
    requires Matched(pool - {b}, history) && b in pool && b < BITS
    ensures var k := Find(history, {}, 0); k < |history| && Matched(pool, history[k := Entry({b}, id)])
  {
    var before := pool - {b};
    var k := Find(history, {}, 0);
    assert before + {b} == pool;
    MatchedBits(before, history);
    PoolBound(before);
    assert b in All(BITS);
    RoomToRecord(before, history);
    HistorySize(before, history);
    hide Matched, Find;
    RilClient.Recorded(before, history, b, k, id);
  }

  lemma {:induction false} MatchedBits(pool: Word, history: seq<Entry>)
    requires Matched(pool, history)
    ensures forall b :: b in pool ==> b < BITS
  {
  }

  lemma {:induction false} NextKeeps(s: State, a: Action)
    requires Alone(s) && Enabled(false, s, a)
    ensures Alone(Next(s, a))
  {
    hide Matched, Step, ClearBit;
    match a
    case BeginSend(id) =>
      MatchedBits(s.pool, s.history);
      NotAllSet(s.pool);
    case BeginAnswer(b) =>
    case CallerStep(written) => StepKeeps(s.pool, s.history, s.caller, written);
    case ReaderStep => StepKeeps(s.pool, s.history, s.reader, true);
  }

  lemma {:induction false} InitialAlone()
    ensures Alone(Initial())
  {
    FreshHolds();
  }

  lemma {:induction false} RunAlone(actions: seq<Action>, t: State)
    requires RunsTo(false, actions, t)
    ensures Alone(t)
    decreases |actions|
  {
    hide Alone, Next, Enabled, Initial;
    if actions == [] {
      InitialAlone();
    } else {
      var n := |actions| - 1;
      var m :| RunsTo(false, actions[..n], m) && Enabled(false, m, actions[n]) && t == Next(m, actions[n]);
      RunAlone(actions[..n], m);
      NextKeeps(m, actions[n]);
    }
  }

  // ------------------------------------------------------------- two threads at once

  lemma {:induction false} ReachStep(s: State, a: Action) returns (t: State)
    requires Reachable(true, s) && Enabled(true, s, a)
    ensures t == Next(s, a) && Reachable(true, t)
  {
    hide Next, Enabled;
    t := Next(s, a);
    var actions :| RunsTo(true, actions, s);
    var longer := actions + [a];
    assert longer[..|longer| - 1] == actions;
    assert RunsTo(true, longer, t);
  }

  lemma {:induction false} ReachStart()
    ensures Reachable(true, Initial())
  {
    assert RunsTo(true, [], Initial());
  }

  /** A whole send, while the reader is anywhere. */
  lemma {:induction false} SendThrough(s: State, b: nat, k: nat, id: nat) returns (t: State)
    requires Reachable(true, s) && s.caller == Idle && s.pool != All(BITS)
    requires b == ClearBit(s.pool, 0) && k == Find(s.history, {}, 0) < |s.history|
    ensures Reachable(true, t)
    ensures t == State(s.pool + {b}, s.history[k := Entry({b}, id)], Idle, s.reader)
  {
    hide Reachable, ClearBit, Find, All, Cleared;
    t := ReachStep(s, BeginSend(id));
    t := ReachStep(t, CallerStep(true));
    t := ReachStep(t, CallerStep(true));
    t := ReachStep(t, CallerStep(true));
  }

  lemma {:induction false} LowBits()
    ensures ClearBit({}, 0) == 0 && ClearBit({0}, 0) == 1 && {} != All(BITS) && {0} != All(BITS)
  {
    assert ClearBit({0}, 1) == 1;
    assert 1 in All(BITS);
  }

  const FIRST := Entry({0}, 1)
  const SECOND := Entry({1}, 2)

  lemma {:induction false} FirstSlots(h: seq<Entry>)
    requires h == Fresh().history
    ensures |h| == BITS && Find(h, {}, 0) == 0 && Find(h[0 := FIRST], {}, 0) == 1
    ensures Find(h[0 := FIRST], {0}, 0) == 0 && Find(h[0 := FIRST][1 := SECOND], {0}, 0) == 0
  {
    var one := h[0 := FIRST];
    assert one[0].token == {0} != {} && one[1].token == {};
    assert Find(one, {}, 1) == 1;
  }

  /** One request is out, and its response is being handled up to the point where the
      reader has read the pool. */
  lemma {:induction false} HalfWay() returns (s: State)
    ensures Reachable(true, s)
    ensures s == State({0}, Fresh().history[0 := FIRST], Idle, TakeFrom(0, {0}))
  {
    hide Reachable, Fresh, Find, ClearBit, All;
    ReachStart();
    LowBits();
    FirstSlots(Fresh().history);
    s := SendThrough(Initial(), 0, 0, 1);
    assert {} + {0} == {0};
    s := ReachStep(s, BeginAnswer(0));
    s := ReachStep(s, ReaderStep);
  }

  /** A request is sent between the reader's read and write: the write takes the new token
      out of the pool again. Its entry stays, and its response will be refused. */
  lemma {:induction false} TokenLost() returns (s: State)
    ensures Reachable(true, s) && s.caller == Idle == s.reader
    ensures s.pool == {} && |s.history| == BITS && s.history[1] == SECOND && Next(s, BeginAnswer(1)) == s
  {
    hide Reachable, Fresh, Find, ClearBit, All;
    s := HalfWay();
    LowBits();
    FirstSlots(Fresh().history);
    s := SendThrough(s, 1, 1, 2);
    s := ReachStep(s, ReaderStep);
    assert s.pool == {};
    s := ReachStep(s, ReaderStep);
    assert 1 in {1};
  }

  /** The caller has read the pool when the response is handled: its write brings the freed
      token back, with no entry, and nothing will ever free it. */
  lemma {:induction false} TokenLeaked() returns (s: State)
    ensures Reachable(true, s) && s.caller == Idle == s.reader
    ensures s.pool == {0, 1} && forall i :: 0 <= i < |s.history| ==> 0 !in s.history[i].token
  {
    hide Reachable, Fresh, Find, ClearBit, All;
    ghost var fresh0 := Fresh().history;
    s := HalfWay();
    LowBits();
    FirstSlots(fresh0);
    FreshEntries();
    s := ReachStep(s, BeginSend(2));
    s := ReachStep(s, ReaderStep);
    s := ReachStep(s, ReaderStep);
    assert s.history == fresh0[0 := FIRST][0 := NO_ENTRY] == fresh0;
    s := ReachStep(s, CallerStep(true));
    s := ReachStep(s, CallerStep(true));
    s := ReachStep(s, CallerStep(true));
    assert s.pool == {0} + {1} && s.history == fresh0[0 := SECOND];
  }

  lemma {:induction false} FreshEntries()
    ensures |Fresh().history| == BITS && forall i :: 0 <= i < BITS ==> Fresh().history[i] == NO_ENTRY
  {
  }

  /** Pool and history agree whenever both threads are idle, in every run, if and only if
      sends and responses do not overlap. */
  lemma {:induction false} MatchedIffNoOverlap(overlap: bool)
    ensures (forall s :: Reachable(overlap, s) && s.caller == Idle == s.reader ==> Matched(s.pool, s.history))
            <==> !overlap
  {
    hide Matched;
    if overlap {
      var s := TokenLost();
      NotMatched(s.pool, s.history, 1);
    } else {
      forall s | Reachable(overlap, s) && s.caller == Idle == s.reader
        ensures Matched(s.pool, s.history)
      {
        var actions :| RunsTo(overlap, actions, s);
        RunAlone(actions, s);
      }
    }
  }

  lemma {:induction false} NotMatched(pool: Word, history: seq<Entry>, k: nat)
    requires |history| == BITS && k < BITS && history[k] == SECOND && pool == {}
    ensures !Matched(pool, history)
  {
    assert 1 in history[k].token;
  }
}
