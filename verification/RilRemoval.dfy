/** Whose handler b_del_handler removes. GetMute in libsecril-client/secril-client.cpp
    sets that one flag so that its own handler goes away after it has run once; but the
    flag says nothing about whose handler is meant, and a failed GetMute leaves it set.
 */
module RilRemoval {
  import opened RilClient

  predicate AllProper(ops: seq<Op>) { forall i :: 0 <= i < |ops| ==> Proper(ops[i]) }

  ghost predicate Good(c: Client) { Inv(c) && NonZeroIds(c) }

  /** The client after some operations. */
  ghost function After(c: Client, ops: seq<Op>): (d: Client)
    requires Good(c) && AllProper(ops)
    ensures Good(d)
  {
    if ops == [] then c
    else
      var n := |ops| - 1;
      var m := After(c, ops[..n]);
      StepRefines(m, ops[n]);
      Step(m, ops[n]).0
  }

  ghost function ViewAfter(v: View, ops: seq<Op>): View {
    if ops == [] then v else ViewStep(ViewAfter(v, ops[..|ops| - 1]), ops[|ops| - 1]).0
  }

  lemma {:induction false} SeenAfter(c: Client, ops: seq<Op>)
    requires Good(c) && AllProper(ops)
    ensures Seen(After(c, ops)) == ViewAfter(Seen(c), ops)
    decreases |ops|
  {
    hide Step, ViewStep, Seen, Good;
    if ops != [] {
      var n := |ops| - 1;
      SeenAfter(c, ops[..n]);
      GoodParts(After(c, ops[..n]));
      StepRefines(After(c, ops[..n]), ops[n]);
    }
  }

  lemma {:induction false} GoodParts(c: Client)
    requires Good(c)
    ensures Inv(c) && NonZeroIds(c) && |c.handlers| == BITS
  {
  }

  // ---------------------------------------------------------- what the flag removes

  /** A response with data that finds a handler to run. */
  ghost predicate Hits(v: View, op: Op) {
    op.ResponseOp? && op.reply == Data && op.b in v.outstanding && Lookup(v.registered, v.outstanding[op.b]) != 0
  }

  /** A response takes the handler of id away. */
  ghost predicate Removes(v: View, op: Op, id: nat) {
    op.ResponseOp? && id in v.registered && id !in ViewStep(v, op).0.registered
  }

  /** Operation i is the first that runs a handler. */
  ghost predicate FirstHit(v: View, ops: seq<Op>, i: int) {
    && 0 <= i < |ops| && Hits(ViewAfter(v, ops[..i]), ops[i])
    && forall j :: 0 <= j < i ==> !Hits(ViewAfter(v, ops[..j]), ops[j])
  }

  lemma {:induction false} RemovesIff(v: View, op: Op, id: nat)
    ensures Removes(v, op, id) <==> v.delHandler && Hits(v, op) && v.outstanding[op.b] == id
  {
  }

  lemma {:induction false} FlagStep(v: View, op: Op)
    requires !op.AskRemoval?
    ensures ViewStep(v, op).0.delHandler == (v.delHandler && !Hits(v, op))
  {
  }

  predicate NoneAsked(ops: seq<Op>) { forall i :: 0 <= i < |ops| ==> !ops[i].AskRemoval? }

  lemma {:induction false} ViewAfterNext(v: View, ops: seq<Op>, i: nat)
    requires i < |ops|
    ensures ViewAfter(v, ops[..i + 1]) == ViewStep(ViewAfter(v, ops[..i]), ops[i]).0
  {
    hide ViewStep;
    assert ops[..i + 1][..i] == ops[..i];
  }

  lemma {:induction false} ViewAfterNone(v: View, ops: seq<Op>)
    requires ops == []
    ensures ViewAfter(v, ops) == v
  {
  }

  /** The flag stays set exactly as long as no handler has run. */
  lemma {:induction false} FlagUntilHit(v: View, ops: seq<Op>, i: nat)
    requires v.delHandler && NoneAsked(ops) && i <= |ops|
    ensures ViewAfter(v, ops[..i]).delHandler <==> forall j :: 0 <= j < i ==> !Hits(ViewAfter(v, ops[..j]), ops[j])
  {
    hide ViewStep, Hits, ViewAfter;
    if i == 0 {
      ViewAfterNone(v, ops[..0]);
    } else {
      FlagUntilHit(v, ops, i - 1);
      ViewAfterNext(v, ops, i - 1);
      FlagStep(ViewAfter(v, ops[..i - 1]), ops[i - 1]);
    }
  }

  /** A response to a request with that id. */
  ghost predicate Answers(v: View, op: Op, id: nat) {
    op.ResponseOp? && op.b in v.outstanding && v.outstanding[op.b] == id
  }

  /** Operation i is the first that runs a handler, and it answers a request with that id. */
  ghost predicate FirstAnswered(v: View, ops: seq<Op>, i: int, id: nat) {
    FirstHit(v, ops, i) && Answers(ViewAfter(v, ops[..i]), ops[i], id)
  }

  /** Operation i is a response that takes the handler of id out of the table. */
  ghost predicate RemovedAt(c: Client, ops: seq<Op>, i: int, id: nat)
    requires Good(c) && AllProper(ops)
  {
    && 0 <= i < |ops| && ops[i].ResponseOp?
    && id in Registered(After(c, ops[..i]).handlers) && id !in Registered(After(c, ops[..i + 1]).handlers)
  }

  lemma {:induction false} RemovedAtSeen(c: Client, ops: seq<Op>, i: nat, id: nat)
    requires Good(c) && AllProper(ops) && i < |ops|
    ensures RemovedAt(c, ops, i, id) <==> Removes(ViewAfter(Seen(c), ops[..i]), ops[i], id)
  {
    hide ViewStep, Good, After, ViewAfter, Registered, Outstanding;
    SeenAfter(c, ops[..i]);
    SeenAfter(c, ops[..i + 1]);
    ViewAfterNext(Seen(c), ops, i);
  }

  lemma {:induction false} RemovesOnce(v: View, ops: seq<Op>, i: nat, id: nat)
    requires v.delHandler && NoneAsked(ops) && i < |ops|
    ensures Removes(ViewAfter(v, ops[..i]), ops[i], id) <==> FirstAnswered(v, ops, i, id)
  {
    FlagUntilHit(v, ops, i);
    RemovesIff(ViewAfter(v, ops[..i]), ops[i], id);
    hide ViewStep, ViewAfter, Removes;
  }

  /** From a state with the flag set, whatever comes until it is asked for again: the
      handler of id is removed by a response, if and only if the first response that runs
      a handler answers a request with that id. */
  lemma {:induction false} RemovedIffFirstAnswered(c: Client, ops: seq<Op>, id: nat)
    requires Good(c) && c.delHandler && AllProper(ops) && NoneAsked(ops)
    ensures (exists i :: RemovedAt(c, ops, i, id)) <==> (exists i :: FirstAnswered(Seen(c), ops, i, id))
  {
    hide ViewStep, Good, After, ViewAfter, Answers, Hits, Removes, Registered, Outstanding;
    forall i | 0 <= i < |ops|
      ensures RemovedAt(c, ops, i, id) <==> FirstAnswered(Seen(c), ops, i, id)
    {
      RemovedAtSeen(c, ops, i, id);
      RemovesOnce(Seen(c), ops, i, id);
    }
  }

  // ----------------------------------------------------------------------- GetMute

  /** GetMute as steps of the client: ask, register, send, and a failed send registers NULL. */
  lemma {:induction false} MuteIsSteps(c: Client, handler: nat, written: bool)
    requires |c.handlers| == BITS
    ensures var asked := Step(c, AskRemoval).0;
            var armed := Step(asked, RegisterOp(GET_CALL_MUTE, handler)).0;
            && |asked.handlers| == |armed.handlers| == |Step(armed, SendOp(GET_CALL_MUTE, written)).0.handlers| == BITS
            && var (sent, out) := Step(armed, SendOp(GET_CALL_MUTE, written));
               GetMute(c, handler, written)
               == (if out.code == Success then sent else Step(sent, RegisterOp(GET_CALL_MUTE, 0)).0, out.code)
  {
    hide Send, Register;
    var armed := Step(Step(c, AskRemoval).0, RegisterOp(GET_CALL_MUTE, handler)).0;
    SendKeepsTable(armed, GET_CALL_MUTE, written);
  }

  /** After GetMute the flag is set, whatever happened; a failed one has taken back its
      handler, and only that. */
  lemma {:induction false} MuteLeaves(c: Client, handler: nat, written: bool)
    requires Good(c)
    ensures Good(GetMute(c, handler, written).0) && GetMute(c, handler, written).0.delHandler
    ensures GetMute(c, handler, written).1 == Success <==> |Outstanding(c)| < BITS && written
    ensures GetMute(c, handler, written).1 != Success ==>
              Seen(GetMute(c, handler, written).0)
              == View(Outstanding(c), Registered(c.handlers) - {GET_CALL_MUTE}, true)
  {
    hide Step, GetMute, Outstanding, Registered, Inv, NonZeroIds;
    GoodParts(c);
    MuteIsSteps(c, handler, written);
    var asked := Step(c, AskRemoval).0;
    StepRefines(c, AskRemoval);
    var armed := Step(asked, RegisterOp(GET_CALL_MUTE, handler)).0;
    StepRefines(asked, RegisterOp(GET_CALL_MUTE, handler));
    var (sent, out) := Step(armed, SendOp(GET_CALL_MUTE, written));
    StepRefines(armed, SendOp(GET_CALL_MUTE, written));
    AtMostBits(armed);
    if out.code != Success {
      StepRefines(sent, RegisterOp(GET_CALL_MUTE, 0));
      Dropped(Registered(c.handlers), GET_CALL_MUTE, handler);
    }
  }

  lemma {:induction false} AtMostBits(c: Client)
    requires Inv(c)
    ensures |Outstanding(c)| <= BITS
  {
    OutstandingKeys(c);
    PoolBound(c.pool);
  }

  lemma {:induction false} Dropped(m: map<nat, nat>, id: nat, handler: nat)
    requires id != 0
    ensures RegisterMap(RegisterMap(m, id, handler).0, id, 0).0 == m - {id}
  {
    MapExt(m[id := handler] - {id}, m - {id});
    MapExt(m - {id} - {id}, m - {id});
  }

  /** No handler is registered for that id. */
  predicate NotRegistered(op: Op, id: nat) { op.RegisterOp? && op.id == id ==> op.handler == 0 }

  lemma {:induction false} StaysAbsent(v: View, ops: seq<Op>, id: nat)
    requires id !in v.registered && forall i :: 0 <= i < |ops| ==> NotRegistered(ops[i], id)
    ensures id !in ViewAfter(v, ops).registered
    decreases |ops|
  {
    if ops != [] {
      var n := |ops| - 1;
      StaysAbsent(v, ops[..n], id);
      AbsentStep(ViewAfter(v, ops[..n]), ops[n], id);
    }
  }

  lemma {:induction false} AbsentStep(v: View, op: Op, id: nat)
    requires id !in v.registered && NotRegistered(op, id)
    ensures id !in ViewStep(v, op).0.registered
  {
  }

  /** A hit while the flag is set and id has no handler removes that of another id. */
  lemma {:induction false} FirstHitRemovesAnother(d: Client, ops: seq<Op>, i: nat, id: nat) returns (other: nat)
    requires Good(d) && d.delHandler && id !in Registered(d.handlers)
    requires AllProper(ops) && NoneAsked(ops) && forall k :: 0 <= k < |ops| ==> NotRegistered(ops[k], id)
    requires FirstHit(Seen(d), ops, i)
    ensures other != id && RemovedAt(d, ops, i, other)
  {
    var v := ViewAfter(Seen(d), ops[..i]);
    StaysAbsent(Seen(d), ops[..i], id);
    other := v.outstanding[ops[i].b];
    assert Answers(v, ops[i], other) && other in v.registered;
    hide After, ViewAfter, ViewStep, Good, Registered, Outstanding, RemovedAt, Hits, Removes;
    RemovesOnce(Seen(d), ops, i, other);
    RemovedAtSeen(d, ops, i, other);
  }

  /** A GetMute that failed: until its id is registered or removal asked for again, the
      next response that runs a handler takes away the handler of some other request. */
  lemma {:induction false} FailedMuteHitsAnother(c: Client, handler: nat, written: bool, ops: seq<Op>, i: nat)
    returns (other: nat)
    requires Good(c) && GetMute(c, handler, written).1 != Success
    requires AllProper(ops) && NoneAsked(ops) && forall k :: 0 <= k < |ops| ==> NotRegistered(ops[k], GET_CALL_MUTE)
    requires FirstHit(Seen(GetMute(c, handler, written).0), ops, i)
    ensures Good(GetMute(c, handler, written).0)
    ensures other != GET_CALL_MUTE && RemovedAt(GetMute(c, handler, written).0, ops, i, other)
  {
    hide After, ViewAfter, ViewStep, Good, Registered, Outstanding, GetMute, RemovedAt, FirstHit;
    GoodParts(c);
    MuteLeaves(c, handler, written);
    other := FirstHitRemovesAnother(GetMute(c, handler, written).0, ops, i, GET_CALL_MUTE);
  }

  // -------------------------------------------------------------------- bad runs

  /** Request 101 is under way when GetMute asks for its own removal; 101's answer comes
      first, so 101 loses its handler and GetMute keeps the one it wanted removed. */
  const OVERTAKEN: seq<Op> :=
    [RegisterOp(101, 1), SendOp(101, true), AskRemoval, RegisterOp(GET_CALL_MUTE, 2), SendOp(GET_CALL_MUTE, true),
     ResponseOp(0, Data), ResponseOp(1, Data)]

  lemma {:induction false} WrongHandlerRemoved()
    ensures Good(Fresh()) && Seen(After(Fresh(), OVERTAKEN)) == View(map[], map[GET_CALL_MUTE := 2], false)
  {
    hide After, Seen, Inv, NonZeroIds, ViewAfter, Fresh;
    FreshHolds();
    SeenAfter(Fresh(), OVERTAKEN);
    OvertakenEnds(View(map[], map[], false));
  }

  lemma {:induction false} OvertakenEnds(v: View)
    requires v == View(map[], map[], false)
    ensures ViewAfter(v, OVERTAKEN) == View(map[], map[GET_CALL_MUTE := 2], false)
  {
    hide ViewAfter, ViewStep;
    OvertakenStarts(v);
    ViewAfterNext(v, OVERTAKEN, 5);
    ViewAfterNext(v, OVERTAKEN, 6);
    AnswersLeave(ViewAfter(v, OVERTAKEN[..5]));
    assert OVERTAKEN[..7] == OVERTAKEN;
  }

  lemma {:induction false} AnswersLeave(w: View)
    requires w == View(map[0 := 101, 1 := GET_CALL_MUTE], map[101 := 1, GET_CALL_MUTE := 2], true)
    ensures ViewStep(w, ResponseOp(0, Data)).0 == View(map[1 := GET_CALL_MUTE], map[GET_CALL_MUTE := 2], false)
    ensures ViewStep(View(map[1 := GET_CALL_MUTE], map[GET_CALL_MUTE := 2], false), ResponseOp(1, Data)).0
         == View(map[], map[GET_CALL_MUTE := 2], false)
  {
    assert map[0 := 101, 1 := GET_CALL_MUTE] - {0} == map[1 := GET_CALL_MUTE];
    assert map[101 := 1, GET_CALL_MUTE := 2] - {101} == map[GET_CALL_MUTE := 2];
    assert map[1 := GET_CALL_MUTE] - {1} == map[];
  }

  lemma {:induction false} OvertakenStarts(v: View)
    requires v == View(map[], map[], false)
    ensures ViewAfter(v, OVERTAKEN[..5])
         == View(map[0 := 101, 1 := GET_CALL_MUTE], map[101 := 1, GET_CALL_MUTE := 2], true)
  {
    assert OVERTAKEN[..0] == [];
    ViewAfterNext(v, OVERTAKEN, 0);
    ViewAfterNext(v, OVERTAKEN, 1);
    ViewAfterNext(v, OVERTAKEN, 2);
    ViewAfterNext(v, OVERTAKEN, 3);
    ViewAfterNext(v, OVERTAKEN, 4);
    hide ViewAfter;
  }

  const ONE_REQUEST: seq<Op> := [RegisterOp(101, 1), SendOp(101, true)]

  /** GetMute cannot send, and the only other handler is gone after its next answer. */
  lemma {:induction false} FailedMuteRun()
    ensures Good(Fresh())
    ensures var (failed, code) := GetMute(After(Fresh(), ONE_REQUEST), 2, false);
            && code == Unknown && Seen(failed) == View(map[0 := 101], map[101 := 1], true)
            && |failed.handlers| == BITS && Seen(Step(failed, ResponseOp(0, Data)).0) == View(map[], map[], false)
  {
    hide After, Inv, NonZeroIds, ViewAfter, Fresh, Outstanding, Registered, GetMute, Step;
    FreshHolds();
    SeenAfter(Fresh(), ONE_REQUEST);
    OneRequest(View(map[], map[], false));
    var c := After(Fresh(), ONE_REQUEST);
    GoodParts(c);
    MuteLeaves(c, 2, false);
    assert map[101 := 1] - {GET_CALL_MUTE} == map[101 := 1];
    var failed := GetMute(c, 2, false).0;
    GoodParts(failed);
    MuteFails(c, 2);
    StepRefines(failed, ResponseOp(0, Data));
    assert map[0 := 101] - {0} == map[] && map[101 := 1] - {101} == map[];
  }

  lemma {:induction false} MuteFails(c: Client, handler: nat)
    requires Good(c) && |Outstanding(c)| < BITS
    ensures GetMute(c, handler, false).1 == Unknown
  {
    hide Send, Register, Outstanding;
    var armed := c.(delHandler := true, handlers := Register(c.handlers, GET_CALL_MUTE, handler).0);
    MuteIsSteps(c, handler, false);
    OutstandingKeys(c);
    PoolBound(c.pool);
    SendFails(armed);
  }

  lemma {:induction false} SendFails(c: Client)
    requires c.pool != All(BITS)
    ensures Send(c, GET_CALL_MUTE, false).1 == Unknown
  {
  }

  lemma {:induction false} OneRequest(v: View)
    requires v == View(map[], map[], false)
    ensures ViewAfter(v, ONE_REQUEST) == View(map[0 := 101], map[101 := 1], false)
  {
    assert ONE_REQUEST[..0] == [] && ONE_REQUEST[..2] == ONE_REQUEST;
    ViewAfterNext(v, ONE_REQUEST, 0);
    ViewAfterNext(v, ONE_REQUEST, 1);
    hide ViewAfter;
  }
}
