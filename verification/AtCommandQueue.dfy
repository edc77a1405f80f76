/** The coalescing AT-command queue of audio/sc8830/at_commands_generic.c as it is meant:
    one slot per kind of command, the last command pushed wins its slot, and a drain
    sends the slots that were pushed in the order of their last push.

    A priority is the uint8_t that process_priority returns, so it wraps at 256. A slot
    holds its text whole, however long; AtCommandMemory says when the 32 bytes that the
    source gives it do.
 */
module AtCommandQueue {

  const SLOTS: nat := 9              // MAX_AT_CMD_TYPE

  datatype Push = Push(slot: nat, cmd: string)

  predicate Known(p: Push) { p.slot < SLOTS }

  predicate AllKnown(log: seq<Push>) { forall i :: 0 <= i < |log| ==> Known(log[i]) }

  /** T_AT_CMD; `dirty` is the set of bits of at_cmd_dirty. */
  datatype Vectors = Vectors(cmd: seq<string>, priority: seq<nat>, dirty: set<nat>)

  ghost predicate WellFormed(v: Vectors) {
    |v.cmd| == SLOTS == |v.priority| && forall s :: s in v.dirty ==> s < SLOTS
  }

  ghost function Cleared(): (v: Vectors)
    ensures WellFormed(v)
  {
    Vectors(seq(SLOTS, _ => ""), seq(SLOTS, _ => 0), {})
  }

  /** The lowest slot among those of greatest priority. */
  function FirstMax(priority: seq<nat>): (m: nat)
    requires priority != []
    ensures m < |priority| && forall k :: 0 <= k < |priority| ==> priority[k] <= priority[m]
    ensures forall k :: 0 <= k < m ==> priority[k] < priority[m]
  {
    var last := |priority| - 1;
    if last == 0 then 0 else
      var m := FirstMax(priority[..last]);
      if priority[m] < priority[last] then last else m
  }

  /** push_voice_command, between lock and unlock. */
  ghost function PushInto(v: Vectors, p: Push): (r: Vectors)
    requires WellFormed(v) && Known(p)
    ensures WellFormed(r) && r.dirty != {}
  {
    var top := v.priority[FirstMax(v.priority)];
    assert p.slot in v.dirty + {p.slot};
    Vectors(v.cmd[p.slot := p.cmd], v.priority[p.slot := (top + 1) % 256], v.dirty + {p.slot})
  }

  ghost function PushAll(v: Vectors, log: seq<Push>): (r: Vectors)
    requires WellFormed(v) && AllKnown(log)
    ensures WellFormed(r)
  {
    if log == [] then v else PushInto(PushAll(v, log[..|log| - 1]), log[|log| - 1])
  }

  /** The selection loop of do_cmd_dual: n times the greatest priority, cleared as
      it is taken. */
  ghost function Picks(priority: seq<nat>, n: nat): (slots: seq<nat>)
    requires priority != []
    ensures |slots| == n && forall i :: 0 <= i < n ==> slots[i] < |priority|
    decreases n
  {
    if n == 0 then [] else
      var m := FirstMax(priority);
      [m] + Picks(priority[m := 0], n - 1)
  }

  /** The commands do_cmd_dual sends from a snapshot: the selection backwards. */
  ghost function Sent(v: Vectors): (cmds: seq<string>)
    requires WellFormed(v)
    ensures |cmds| == |v.dirty|
  {
    var picks := Picks(v.priority, |v.dirty|);
    seq(|picks|, i requires 0 <= i < |picks| => v.cmd[picks[|picks| - 1 - i]])
  }

  // ------------------------------------------------------------ the specification

  /** Where a slot was last pushed, or -1. */
  function Last(log: seq<Push>, slot: nat): (r: int)
    ensures -1 <= r < |log| && (r >= 0 ==> log[r].slot == slot)
    ensures forall j :: r < j < |log| ==> log[j].slot != slot
  {
    if log == [] then -1
    else if log[|log| - 1].slot == slot then |log| - 1
    else Last(log[..|log| - 1], slot)
  }

  /** The slot is not pushed again after position i. */
  predicate LastPush(log: seq<Push>, i: int) {
    0 <= i < |log| && forall j :: i < j < |log| ==> log[j].slot != log[i].slot
  }

  function SurvivorsFrom(log: seq<Push>, i: nat): seq<Push>
    requires i <= |log|
    decreases |log| - i
  {
    if i == |log| then [] else (if LastPush(log, i) then [log[i]] else []) + SurvivorsFrom(log, i + 1)
  }

  /** The push log without the entries whose slot is pushed again later in it. */
  function Survivors(log: seq<Push>): seq<Push> { SurvivorsFrom(log, 0) }

  function Commands(log: seq<Push>): seq<string> {
    seq(|log|, i requires 0 <= i < |log| => log[i].cmd)
  }

  lemma {:induction false} LastIsLastPush(log: seq<Push>, i: nat)
    requires i < |log|
    ensures LastPush(log, i) <==> Last(log, log[i].slot) == i
  {
  }

  predicate Has(live: seq<Push>, slot: nat) {
    exists k :: 0 <= k < |live| && live[k].slot == slot
  }

  /** `live` has, in the order of the log, the last push of every slot that was
      pushed at position i or later. */
  ghost predicate InOrder(log: seq<Push>, i: nat, live: seq<Push>) {
    && (forall k :: 0 <= k < |live| ==> i <= Last(log, live[k].slot) && live[k] == log[Last(log, live[k].slot)])
    && (forall j, k :: 0 <= j < k < |live| ==> Last(log, live[j].slot) < Last(log, live[k].slot))
    && (forall s :: Last(log, s) >= i ==> Has(live, s))
  }

  lemma {:induction false} InOrderCons(log: seq<Push>, i: nat, p: Push, rest: seq<Push>)
    requires i < |log| && p == log[i] && Last(log, p.slot) == i && InOrder(log, i + 1, rest)
    ensures InOrder(log, i, [p] + rest)
  {
    hide Last;
    var live := [p] + rest;
    assert live[0] == p && forall k :: 0 < k < |live| ==> live[k] == rest[k - 1];
    forall s: nat | Last(log, s) >= i
      ensures Has(live, s)
    {
      if Last(log, s) == i {
        assert live[0].slot == s;
      } else {
        var k :| 0 <= k < |rest| && rest[k].slot == s;
        assert live[k + 1].slot == s;
      }
    }
  }

  lemma {:induction false} InOrderSkip(log: seq<Push>, i: nat, rest: seq<Push>)
    requires i < |log| && Last(log, log[i].slot) != i && InOrder(log, i + 1, rest)
    ensures InOrder(log, i, rest)
  {
  }

  lemma {:induction false} InOrderEnd(log: seq<Push>)
    ensures InOrder(log, |log|, [])
  {
  }

  /** The survivors are the last pushes of the slots pushed, in the order of the log. */
  lemma {:induction false} SurvivorsInOrder(log: seq<Push>, i: nat)
    requires i <= |log|
    ensures InOrder(log, i, SurvivorsFrom(log, i))
    decreases |log| - i
  {
    hide Last, LastPush, InOrder;
    if i == |log| {
      InOrderEnd(log);
    } else {
      var rest := SurvivorsFrom(log, i + 1);
      SurvivorsInOrder(log, i + 1);
      LastIsLastPush(log, i);
      if LastPush(log, i) {
        InOrderCons(log, i, log[i], rest);
      } else {
        InOrderSkip(log, i, rest);
        assert [] + rest == rest;
      }
    }
  }

  lemma {:induction false} LastAppend(log: seq<Push>, p: Push, slot: nat)
    ensures Last(log + [p], slot) == if slot == p.slot then |log| else Last(log, slot)
  {
    assert (log + [p])[..|log|] == log;
  }

  // --------------------------------------------------------- priorities are ranks

  /** Slots pushed later have greater priorities; slots never pushed have zero. */
  ghost predicate Ranked(log: seq<Push>, priority: seq<nat>) {
    && |priority| == SLOTS
    && (forall s :: 0 <= s < SLOTS ==> (priority[s] > 0 <==> Last(log, s) >= 0))
    && (forall s, t :: 0 <= s < SLOTS && 0 <= t < SLOTS && 0 <= Last(log, s) < Last(log, t) ==>
         priority[s] < priority[t])
  }

  ghost predicate Holds(v: Vectors, log: seq<Push>) {
    && WellFormed(v) && Ranked(log, v.priority)
    && (forall s :: 0 <= s < SLOTS && Last(log, s) >= 0 ==> v.cmd[s] == log[Last(log, s)].cmd)
    && (forall s :: s in v.dirty <==> 0 <= s < SLOTS && Last(log, s) >= 0)
  }

  lemma {:induction false} PushKeepsRanks(v: Vectors, log: seq<Push>, p: Push)
    requires Holds(v, log) && Known(p)
    requires v.priority[FirstMax(v.priority)] < 255
    ensures Holds(PushInto(v, p), log + [p])
  {
    hide Last, FirstMax, Ranked;
    RankedAfter(log, v.priority, p, v.priority[FirstMax(v.priority)]);
    forall s: nat
      ensures Last(log + [p], s) == if s == p.slot then |log| else Last(log, s)
    {
      LastAppend(log, p, s);
    }
  }

  lemma {:induction false} RankedAfter(log: seq<Push>, priority: seq<nat>, p: Push, top: nat)
    requires Ranked(log, priority) && p.slot < SLOTS && forall s :: 0 <= s < SLOTS ==> priority[s] <= top
    ensures Ranked(log + [p], priority[p.slot := top + 1])
  {
    hide Last;
    forall s: nat
      ensures Last(log + [p], s) == if s == p.slot then |log| else Last(log, s)
    {
      LastAppend(log, p, s);
    }
  }

  lemma {:induction false} PushTop(v: Vectors, p: Push)
    requires WellFormed(v) && Known(p)
    ensures PushInto(v, p).priority[FirstMax(PushInto(v, p).priority)] <= v.priority[FirstMax(v.priority)] + 1
  {
  }

  /** Up to 255 pushes, the vectors hold the last push of every slot, ranked. */
  lemma {:induction false} PushesHeld(log: seq<Push>)
    requires AllKnown(log) && |log| <= 255
    ensures Holds(PushAll(Cleared(), log), log)
    ensures PushAll(Cleared(), log).priority[FirstMax(PushAll(Cleared(), log).priority)] <= |log|
  {
    hide PushInto;
    if log != [] {
      var earlier, p := log[..|log| - 1], log[|log| - 1];
      PushesHeld(earlier);
      var v := PushAll(Cleared(), earlier);
      PushKeepsRanks(v, earlier, p);
      PushTop(v, p);
      assert earlier + [p] == log;
    }
  }

  /** Slots in strictly increasing priority, and zero for all the others. */
  ghost predicate Ascending(priority: seq<nat>, slots: seq<nat>) {
    && (forall i :: 0 <= i < |slots| ==> slots[i] < |priority| && priority[slots[i]] > 0)
    && (forall i, j :: 0 <= i < j < |slots| ==> priority[slots[i]] < priority[slots[j]])
    && (forall s :: 0 <= s < |priority| && s !in slots ==> priority[s] == 0)
  }

  lemma {:induction false} AscendingTop(priority: seq<nat>, slots: seq<nat>)
    requires priority != [] && slots != [] && Ascending(priority, slots)
    ensures FirstMax(priority) == slots[|slots| - 1]
    ensures Ascending(priority[slots[|slots| - 1] := 0], slots[..|slots| - 1])
  {
    hide FirstMax;
    var last, rest := slots[|slots| - 1], slots[..|slots| - 1];
    assert slots == rest + [last];
  }

  lemma {:induction false} PicksAscending(priority: seq<nat>, slots: seq<nat>)
    requires priority != [] && Ascending(priority, slots)
    ensures forall i :: 0 <= i < |slots| ==> Picks(priority, |slots|)[i] == slots[|slots| - 1 - i]
    decreases |slots|
  {
    hide FirstMax, Ascending;
    if slots != [] {
      AscendingTop(priority, slots);
      PicksAscending(priority[slots[|slots| - 1] := 0], slots[..|slots| - 1]);
    }
  }

  lemma {:induction false} CountDistinct(dirty: set<nat>, slots: seq<nat>)
    requires forall i, j :: 0 <= i < j < |slots| ==> slots[i] != slots[j]
    requires forall s :: s in dirty <==> s in slots
    ensures |dirty| == |slots|
    decreases |slots|
  {
    if slots == [] {
      assert dirty == {};
    } else {
      var last, rest := slots[|slots| - 1], slots[..|slots| - 1];
      assert slots == rest + [last];
      CountDistinct(dirty - {last}, rest);
    }
  }

  lemma {:induction false} SurvivorSlots(v: Vectors, log: seq<Push>, slots: seq<nat>)
    requires Holds(v, log) && AllKnown(log)
    requires |slots| == |Survivors(log)| && forall i :: 0 <= i < |slots| ==> slots[i] == Survivors(log)[i].slot
    ensures Ascending(v.priority, slots) && |v.dirty| == |slots|
    ensures forall i :: 0 <= i < |slots| ==> v.cmd[slots[i]] == Survivors(log)[i].cmd
  {
    hide SurvivorsFrom, Last;
    SurvivorsInOrder(log, 0);
    var live := Survivors(log);
    forall s: nat | Last(log, s) >= 0
      ensures s in slots
    {
      var i :| 0 <= i < |live| && live[i].slot == s;
      assert slots[i] == s;
    }
    CountDistinct(v.dirty, slots);
  }

  /** Up to 255 pushes between drains, a drain sends the push log with each entry
      dropped if and only if its slot was pushed again, in the order of last pushes. */
  lemma {:induction false} DrainSendsSurvivors(log: seq<Push>)
    requires AllKnown(log) && |log| <= 255
    ensures Sent(PushAll(Cleared(), log)) == Commands(Survivors(log))
  {
    hide SurvivorsFrom, PushAll, Holds, Ascending;
    var v, live := PushAll(Cleared(), log), Survivors(log);
    var slots := seq(|live|, i requires 0 <= i < |live| => live[i].slot);
    PushesHeld(log);
    SurvivorSlots(v, log, slots);
    PicksAscending(v.priority, slots);
  }

  // ------------------------------------------------------------- beyond 255 pushes

  function Repeat(p: Push, n: nat): (log: seq<Push>)
    ensures |log| == n && forall i :: 0 <= i < n ==> log[i] == p
  {
    seq(n, _ => p)
  }

  function Overflowing(n: nat): (log: seq<Push>)
    requires n > 255
    ensures |log| == n && AllKnown(log)
  {
    Repeat(Push(1, "a"), 255) + Repeat(Push(2, "b"), n - 255)
  }

  ghost predicate OnlyPriority(v: Vectors, slot: nat, value: nat) {
    && WellFormed(v) && slot < SLOTS && v.priority[slot] == value
    && forall s :: 0 <= s < SLOTS && s != slot ==> v.priority[s] == 0
  }

  lemma {:induction false} ClimbTo255(n: nat)
    requires 0 < n <= 255
    ensures var v := PushAll(Cleared(), Repeat(Push(1, "a"), n));
            OnlyPriority(v, 1, n) && v.dirty == {1} && v.cmd[0] == "" && v.cmd[1] == "a"
  {
    hide FirstMax;
    var p := Push(1, "a");
    var log := Repeat(p, n);
    assert log[..n - 1] == Repeat(p, n - 1);
    if n > 1 {
      ClimbTo255(n - 1);
    } else {
      assert PushAll(Cleared(), log[..0]) == Cleared();
    }
    var v := PushAll(Cleared(), log[..n - 1]);
    assert v.priority[FirstMax(v.priority)] == n - 1;
  }

  lemma {:induction false} WrapToZero(n: nat)
    requires n > 255
    ensures var v := PushAll(Cleared(), Overflowing(n));
            OnlyPriority(v, 1, 255) && v.dirty == {1, 2} && v.cmd[0] == "" && v.cmd[1] == "a"
    decreases n
  {
    hide FirstMax;
    var log := Overflowing(n);
    if n > 256 {
      WrapToZero(n - 1);
      assert log[..n - 1] == Overflowing(n - 1);
    } else {
      ClimbTo255(255);
      assert log[..n - 1] == Repeat(Push(1, "a"), 255);
    }
    var v := PushAll(Cleared(), log[..n - 1]);
    assert v.priority[FirstMax(v.priority)] == 255;
    assert log[n - 1] == Push(2, "b");
  }

  /** From the 256th push on, a slot can be dirty and have priority zero: slot 0 is
      sent in its place, empty, and the newest command is lost. */
  lemma {:induction false} NewestCommandLost(n: nat)
    requires n > 255
    ensures Sent(PushAll(Cleared(), Overflowing(n))) == ["", "a"]
    ensures Commands(Survivors(Overflowing(n))) != Sent(PushAll(Cleared(), Overflowing(n)))
  {
    hide FirstMax, PushAll, SurvivorsFrom;
    WrapToZero(n);
    var log := Overflowing(n);
    var v := PushAll(Cleared(), log);
    assert FirstMax(v.priority) == 1;
    var rest := v.priority[1 := 0];
    assert forall k :: 0 <= k < SLOTS ==> rest[k] == 0;
    assert rest[0] == 0 && FirstMax(rest) == 0;
    assert Picks(rest, 1) == [0] + Picks(rest[0 := 0], 0);
    assert Picks(v.priority, 2) == [1] + Picks(rest, 1);
    assert |v.dirty| == 2;
    assert Sent(v) == ["", "a"];
    SurvivorsInOrder(log, 0);
    assert Last(log, 2) == n - 1;
    var live := Survivors(log);
    var i :| 0 <= i < |live| && live[i].slot == 2;
    assert Commands(live)[i] == "b";
  }

  lemma {:induction false} PicksStep(before: seq<nat>, after: seq<nat>, m: nat, n: nat)
    requires before != [] && n > 0 && m == FirstMax(before) && after == before[m := 0]
    ensures Picks(before, n) == [m] + Picks(after, n - 1)
  {
  }
}
