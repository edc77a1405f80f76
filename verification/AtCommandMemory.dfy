/** T_AT_CMD of audio/sc8830/audio_hw.c as it lies in memory: nine texts of 32 bytes one
    after the other, nine priorities of four bytes, the dirty mask and routeDev. A push
    copies a text with strncpy and its own length, and a drain reads it as a C string, so
    a text that fills its slot runs into the next one.

    What a copy puts behind the end of the structure is not modelled.
 */
module AtCommandMemory {
  import Bits
  import opened AtCommandQueue

  const LENGTH: nat := 32           // MAX_AT_CMD_LENGTH
  const PRIORITIES: nat := 288      // where at_cmd_priority starts
  const DIRTY: nat := 324           // where at_cmd_dirty starts
  const SIZE: nat := 332

  const NUL: char := '\0'

  type Memory = m: seq<char> | |m| == SIZE witness seq(SIZE, _ => '\0')

  /** What a C string can hold. */
  predicate IsText(s: string) { forall k :: 0 <= k < |s| ==> 0 < s[k] as int < 256 }

  predicate Proper(p: Push) { Known(p) && IsText(p.cmd) }

  predicate AllProper(log: seq<Push>) { forall i :: 0 <= i < |log| ==> Proper(log[i]) }

  // --------------------------------------------------------- texts, words and bits

  /** memcpy, memset and strncpy, as far as they stay inside. */
  function Put(m: Memory, at: nat, s: seq<char>): (r: Memory)
    ensures forall k :: at <= k < at + |s| && k < SIZE ==> r[k] == s[k - at]
    ensures forall k :: 0 <= k < SIZE && !(at <= k < at + |s|) ==> r[k] == m[k]
  {
    seq(SIZE, k requires 0 <= k < SIZE => if at <= k < at + |s| then s[k - at] else m[k])
  }

  function Nuls(n: nat): (s: seq<char>)
    ensures |s| == n && forall k :: 0 <= k < n ==> s[k] == NUL
  {
    seq(n, _ => NUL)
  }

  /** The C string that starts at a position; behind the last byte counts as its end. */
  function CString(m: Memory, at: nat): (s: string)
    requires at <= SIZE
    ensures at + |s| <= SIZE && (at + |s| < SIZE ==> m[at + |s|] == NUL)
    ensures forall k :: 0 <= k < |s| ==> s[k] == m[at + k] && s[k] != NUL
    decreases SIZE - at
  {
    if at == SIZE || m[at] == NUL then [] else [m[at]] + CString(m, at + 1)
  }

  lemma {:induction false} CStringIs(m: Memory, at: nat, s: string)
    requires at + |s| <= SIZE && (at + |s| < SIZE ==> m[at + |s|] == NUL)
    requires forall k :: 0 <= k < |s| ==> s[k] == m[at + k] && s[k] != NUL
    ensures CString(m, at) == s
    decreases |s|
  {
    if s != [] {
      assert s[0] == m[at];
      CStringIs(m, at + 1, s[1..]);
    }
  }

  lemma {:induction false} CStringEnds(m: Memory, at: nat, k: nat)
    requires at + k < SIZE && m[at + k] == NUL
    ensures |CString(m, at)| <= k
    decreases k
  {
    if k > 0 && m[at] != NUL {
      CStringEnds(m, at + 1, k - 1);
    }
  }

  /** The text of a slot; number nine is what lies behind the last. */
  function Text(m: Memory, slot: nat): string
    requires slot <= SLOTS
  {
    CString(m, LENGTH * slot)
  }

  function Word(m: Memory, at: nat): nat
    requires at + 4 <= SIZE
  {
    m[at] as int + 0x100 * m[at + 1] as int + 0x1_0000 * m[at + 2] as int + 0x100_0000 * m[at + 3] as int
  }

  function Priorities(m: Memory): (s: seq<nat>)
    ensures |s| == SLOTS && forall i :: 0 <= i < SLOTS ==> s[i] == Word(m, PRIORITIES + 4 * i)
  {
    seq(SLOTS, i requires 0 <= i < SLOTS => Word(m, PRIORITIES + 4 * i))
  }

  function Top(priority: seq<nat>): nat
    requires priority != []
  {
    priority[FirstMax(priority)]
  }

  predicate BitOf(x: nat, j: nat) { if j == 0 then x % 2 == 1 else BitOf(x / 2, j - 1) }

  /** x | 1 << j. */
  function WithBit(x: nat, j: nat): nat { if j == 0 then x - x % 2 + 1 else 2 * WithBit(x / 2, j - 1) + x % 2 }

  lemma {:induction false} WithBitIs(x: nat, j: nat, i: nat)
    ensures BitOf(WithBit(x, j), i) <==> i == j || BitOf(x, i)
  {
    if i > 0 && j > 0 {
      WithBitIs(x / 2, j - 1, i - 1);
    }
  }

  lemma {:induction false} WithBitBound(x: nat, j: nat, n: nat)
    requires x < Bits.Power(n) && j < n
    ensures WithBit(x, j) < Bits.Power(n)
  {
    if j > 0 {
      WithBitBound(x / 2, j - 1, n - 1);
    } else {
      assert Bits.Power(n) == 2 * Bits.Power(n - 1);
    }
  }

  /** The set bits of at_cmd_dirty. */
  function Dirty(m: Memory): set<nat> {
    set s: nat | s < 32 && BitOf(m[DIRTY + s / 8] as int, s % 8)
  }

  function Byte(x: nat): char { (x % 256) as char }

  lemma {:induction false} ByteWithBit(c: char, j: nat)
    requires c as int < 256 && j < 8
    ensures Byte(WithBit(c as int, j)) as int == WithBit(c as int, j)
  {
    hide WithBit;
    Bits.PowerEight();
    WithBitBound(c as int, j, 8);
  }

  // ------------------------------------------------------------- pushes and drains

  /** at_cmd_dirty |= 1 << slot. */
  function Marked(m: Memory, slot: nat): Memory
    requires slot < SLOTS
  {
    var at := DIRTY + slot / 8;
    m[at := Byte(WithBit(m[at] as int, slot % 8))]
  }

  /** memset over the slot, and strncpy with the length of the text. */
  function Copied(m: Memory, p: Push): Memory { Put(Put(m, LENGTH * p.slot, Nuls(LENGTH)), LENGTH * p.slot, p.cmd) }

  /** A priority, which is less than 256, as four bytes. */
  function WithRank(m: Memory, slot: nat, priority: nat): Memory {
    Put(m, PRIORITIES + 4 * slot, [Byte(priority), NUL, NUL, NUL])
  }

  /** push_voice_command, between lock and unlock. */
  function PushTo(m: Memory, p: Push): Memory
    requires Known(p)
  {
    var copied := Copied(Marked(m, p.slot), p);
    WithRank(copied, p.slot, (Top(Priorities(copied)) + 1) % 256)
  }

  function Empty(): Memory { Nuls(SIZE) }

  function Stored(log: seq<Push>): Memory
    requires AllKnown(log)
  {
    if log == [] then Empty() else PushTo(Stored(log[..|log| - 1]), log[|log| - 1])
  }

  /** The snapshot when the selection is done: the priorities taken are zero. */
  function Deselected(m: Memory, picks: seq<nat>): Memory {
    seq(SIZE, k requires 0 <= k < SIZE =>
      if PRIORITIES <= k < DIRTY && (k - PRIORITIES) / 4 in picks then NUL else m[k])
  }

  /** What do_cmd_dual sends from a snapshot. */
  ghost function Drained(m: Memory): (cmds: seq<string>)
    ensures |cmds| == |Dirty(m)|
  {
    var picks := Picks(Priorities(m), |Dirty(m)|);
    var snapshot := Deselected(m, picks);
    seq(|picks|, i requires 0 <= i < |picks| => Text(snapshot, picks[|picks| - 1 - i]))
  }

  // --------------------------------------------- marks and ranks, if nothing spills

  /** The text ends inside the nine slots. */
  predicate Within(p: Push) { LENGTH * p.slot + |p.cmd| <= PRIORITIES }

  predicate AllWithin(log: seq<Push>) { forall i :: 0 <= i < |log| ==> Within(log[i]) }

  /** The texts after a push, byte by byte. */
  lemma {:induction false} PushedBytes(m: Memory, p: Push, k: nat)
    requires Known(p) && k < PRIORITIES
    ensures PushTo(m, p)[k] == if LENGTH * p.slot <= k < LENGTH * p.slot + |p.cmd| then p.cmd[k - LENGTH * p.slot]
                               else if LENGTH * p.slot <= k < LENGTH * p.slot + LENGTH then NUL else m[k]
  {
    hide Put, Top, WithBit;
  }

  /** Behind the texts the copy writes what is there already; in the usual case nothing. */
  predicate Harmless(m: Memory, p: Push) {
    && LENGTH * p.slot + |p.cmd| <= DIRTY
    && forall k :: PRIORITIES <= k < LENGTH * p.slot + |p.cmd| ==>
         k >= LENGTH * p.slot && p.cmd[k - LENGTH * p.slot] == m[k]
  }

  lemma {:induction false} CopyInside(m: Memory, p: Push)
    requires Known(p) && Harmless(m, p)
    ensures forall k :: PRIORITIES <= k < SIZE ==> Copied(m, p)[k] == m[k]
  {
    hide Put;
  }

  lemma {:induction false} BytesBehind(m: Memory, p: Push, k: nat)
    requires Known(p) && Harmless(m, p) && PRIORITIES <= k < DIRTY && (k - PRIORITIES) / 4 != p.slot
    ensures PushTo(m, p)[k] == m[k]
  {
    hide Put, Top, Copied, WithBit;
    CopyInside(Marked(m, p.slot), p);
  }

  lemma {:induction false} MarkedIs(m: Memory, slot: nat)
    requires slot < SLOTS && m[DIRTY + slot / 8] as int < 256
    ensures Dirty(Marked(m, slot)) == Dirty(m) + {slot}
    ensures forall k :: 0 <= k < DIRTY ==> Marked(m, slot)[k] == m[k]
  {
    hide BitOf, WithBit, Byte;
    var at := DIRTY + slot / 8;
    ByteWithBit(m[at], slot % 8);
    forall s: nat | s < 32
      ensures s in Dirty(Marked(m, slot)) <==> s in Dirty(m) + {slot}
    {
      WithBitIs(m[at] as int, slot % 8, s % 8);
      assert s / 8 == slot / 8 && s % 8 == slot % 8 ==> s == slot;
    }
  }

  lemma {:induction false} RankedIs(m: Memory, slot: nat, priority: nat)
    requires slot < SLOTS && priority < 256
    ensures Priorities(WithRank(m, slot, priority)) == Priorities(m)[slot := priority]
    ensures Dirty(WithRank(m, slot, priority)) == Dirty(m)
  {
    hide Put, BitOf;
    var r := WithRank(m, slot, priority);
    forall i | 0 <= i < SLOTS
      ensures Word(r, PRIORITIES + 4 * i) == if i == slot then priority else Word(m, PRIORITIES + 4 * i)
    {
    }
  }

  lemma {:induction false} SameBehind(m: Memory, r: Memory)
    requires forall k :: PRIORITIES <= k < SIZE ==> r[k] == m[k]
    ensures Priorities(r) == Priorities(m) && Dirty(r) == Dirty(m)
  {
    hide BitOf;
    assert forall i :: 0 <= i < SLOTS ==> Word(r, PRIORITIES + 4 * i) == Word(m, PRIORITIES + 4 * i);
  }

  predicate Bytes(m: Memory) { forall k :: 0 <= k < SIZE ==> m[k] as int < 256 }

  lemma {:induction false} PushKeepsBytes(m: Memory, p: Push)
    requires Bytes(m) && Proper(p)
    ensures Bytes(PushTo(m, p))
  {
    hide Put, Top, WithBit;
  }

  /** A push that stays within the texts marks and ranks its slot, whatever it does to
      the other texts. */
  lemma {:induction false} PushRanks(m: Memory, p: Push)
    requires Bytes(m) && Known(p) && Harmless(m, p)
    ensures Priorities(PushTo(m, p)) == Priorities(m)[p.slot := (Top(Priorities(m)) + 1) % 256]
    ensures Dirty(PushTo(m, p)) == Dirty(m) + {p.slot}
  {
    hide Put, Top, Priorities, Dirty, Copied, Marked, WithRank;
    var marked := Marked(m, p.slot);
    var copied := Copied(marked, p);
    MarkedIs(m, p.slot);
    SamePriorities(m, marked);
    CopyInside(marked, p);
    SameBehind(marked, copied);
    RankedIs(copied, p.slot, (Top(Priorities(copied)) + 1) % 256);
  }

  lemma {:induction false} SamePriorities(m: Memory, r: Memory)
    requires forall k :: 0 <= k < DIRTY ==> r[k] == m[k]
    ensures Priorities(r) == Priorities(m)
  {
    assert forall i :: 0 <= i < SLOTS ==> Word(r, PRIORITIES + 4 * i) == Word(m, PRIORITIES + 4 * i);
  }

  lemma {:induction false} EmptyIs()
    ensures Bytes(Empty()) && Priorities(Empty()) == Cleared().priority && Dirty(Empty()) == {}
    ensures forall s :: 0 <= s <= SLOTS ==> Text(Empty(), s) == ""
  {
    hide Priorities;
    assert forall i :: 0 <= i < SLOTS ==> Priorities(Empty())[i] == Word(Empty(), PRIORITIES + 4 * i) == 0;
    NoBits(0, 8);
  }

  lemma {:induction false} NoBits(x: nat, n: nat)
    requires x == 0
    ensures forall j: nat :: j < n ==> !BitOf(x, j)
  {
    if n > 0 {
      NoBits(0, n - 1);
      if n > 1 {
        assert !BitOf(0, n - 2);
      }
    }
  }

  /** As long as no push leaves the texts, marks and priorities are those meant. */
  lemma {:induction false} StoredRanks(log: seq<Push>)
    requires AllProper(log) && AllWithin(log)
    ensures AllKnown(log) && Bytes(Stored(log))
    ensures Priorities(Stored(log)) == PushAll(Cleared(), log).priority
    ensures Dirty(Stored(log)) == PushAll(Cleared(), log).dirty
  {
    hide PushTo, Top, Priorities, Dirty, Bytes, FirstMax, Empty;
    if log == [] {
      EmptyIs();
    } else {
      var earlier, p := log[..|log| - 1], log[|log| - 1];
      StoredRanks(earlier);
      PushKeepsBytes(Stored(earlier), p);
      PushRanks(Stored(earlier), p);
      TopIs(Priorities(Stored(earlier)));
    }
  }

  lemma {:induction false} TopIs(priority: seq<nat>)
    requires priority != []
    ensures Top(priority) == priority[FirstMax(priority)]
  {
  }

  lemma {:induction false} StoredBytes(log: seq<Push>)
    requires AllProper(log)
    ensures AllKnown(log) && Bytes(Stored(log))
  {
    hide PushTo;
    if log != [] {
      StoredBytes(log[..|log| - 1]);
      PushKeepsBytes(Stored(log[..|log| - 1]), log[|log| - 1]);
    }
  }

  lemma {:induction false} SomeBit(x: nat, n: nat)
    requires 0 < x < Bits.Power(n)
    ensures exists j: nat :: j < n && BitOf(x, j)
  {
    if x % 2 == 1 {
      assert BitOf(x, 0);
    } else {
      SomeBit(x / 2, n - 1);
      var j: nat :| j < n - 1 && BitOf(x / 2, j);
      assert BitOf(x, j + 1);
    }
  }

  /** Whatever a push overwrites, it leaves a mark: the bytes of a text are not zero. */
  lemma {:induction false} PushMarks(m: Memory, p: Push)
    requires Bytes(m) && Proper(p)
    ensures Dirty(PushTo(m, p)) != {}
  {
    hide Put, Top, Priorities, WithBit, BitOf;
    var marked := Marked(m, p.slot);
    var copied := Copied(marked, p);
    MarkedIs(m, p.slot);
    if LENGTH * p.slot + |p.cmd| > DIRTY {
      Bits.PowerEight();
      var c := copied[DIRTY];
      assert c == p.cmd[DIRTY - LENGTH * p.slot];
      SomeBit(c as int, 8);
      var j: nat :| j < 8 && BitOf(c as int, j);
      assert j / 8 == 0 && j % 8 == j;
      assert PushTo(m, p)[DIRTY] == c;
      assert j in Dirty(PushTo(m, p));
    } else {
      assert forall k :: DIRTY <= k < SIZE ==> PushTo(m, p)[k] == marked[k];
      SameMask(marked, PushTo(m, p));
      assert p.slot in Dirty(marked);
    }
  }

  // -------------------------------------------------------------- texts that fit

  /** The memory as the vectors it stands for. */
  ghost function Abstract(m: Memory): Vectors {
    Vectors(seq(SLOTS, s requires 0 <= s < SLOTS => Text(m, s)), Priorities(m), Dirty(m))
  }

  /** Every text ends in its slot. */
  ghost predicate Terminated(m: Memory) { forall s :: 0 <= s < SLOTS ==> |Text(m, s)| < LENGTH }

  lemma {:induction false} OtherText(m: Memory, p: Push, s: nat)
    requires Known(p) && s < SLOTS && s != p.slot && |Text(m, s)| < LENGTH
    requires |p.cmd| <= LENGTH || s < p.slot
    ensures Text(PushTo(m, p), s) == Text(m, s)
  {
    hide CString, PushTo;
    var t, r := Text(m, s), PushTo(m, p);
    forall j | LENGTH * s <= j <= LENGTH * s + |t|
      ensures r[j] == m[j]
    {
      PushedBytes(m, p, j);
    }
    CStringIs(r, LENGTH * s, t);
  }

  lemma {:induction false} OwnText(m: Memory, p: Push)
    requires Proper(p) && |p.cmd| < LENGTH
    ensures Text(PushTo(m, p), p.slot) == p.cmd
  {
    hide CString, PushTo;
    var r := PushTo(m, p);
    forall j | LENGTH * p.slot <= j <= LENGTH * p.slot + |p.cmd|
      ensures r[j] == if j < LENGTH * p.slot + |p.cmd| then p.cmd[j - LENGTH * p.slot] else NUL
    {
      PushedBytes(m, p, j);
    }
    CStringIs(r, LENGTH * p.slot, p.cmd);
  }

  /** What pushes of short texts leave behind. */
  ghost predicate Clean(m: Memory) {
    Bytes(m) && Terminated(m) && WellFormed(Abstract(m)) && forall s :: 0 <= s < SLOTS ==> Priorities(m)[s] < 256
  }

  lemma {:induction false} ShortPushRefines(m: Memory, p: Push)
    requires Clean(m) && Proper(p) && |p.cmd| < LENGTH
    ensures Clean(PushTo(m, p)) && Abstract(PushTo(m, p)) == PushInto(Abstract(m), p)
  {
    hide PushTo, Text, Priorities, Dirty, Bytes, FirstMax, Top;
    var r := PushTo(m, p);
    PushKeepsBytes(m, p);
    PushRanks(m, p);
    TopIs(Priorities(m));
    OwnText(m, p);
    forall s: nat | s < SLOTS && s != p.slot
      ensures Text(r, s) == Text(m, s)
    {
      OtherText(m, p, s);
    }
  }

  predicate Short(p: Push) { Proper(p) && |p.cmd| < LENGTH }

  predicate AllShort(log: seq<Push>) { forall i :: 0 <= i < |log| ==> Short(log[i]) }

  /** For texts under 32 characters the memory is the vectors. */
  lemma {:induction false} StoredRefines(log: seq<Push>)
    requires AllShort(log)
    ensures AllKnown(log) && Clean(Stored(log)) && Abstract(Stored(log)) == PushAll(Cleared(), log)
  {
    hide PushTo, PushInto, Clean, Abstract, Empty;
    if log == [] {
      EmptyRefines();
    } else {
      StoredRefines(log[..|log| - 1]);
      ShortPushRefines(Stored(log[..|log| - 1]), log[|log| - 1]);
    }
  }

  lemma {:induction false} EmptyRefines()
    ensures Clean(Empty()) && Abstract(Empty()) == Cleared()
  {
    hide Text, Priorities, Dirty, Bytes, Empty;
    EmptyIs();
  }

  /** Taking priorities out of the snapshot does not touch a text that ends before them. */
  lemma {:induction false} DeselectedText(m: Memory, picks: seq<nat>, s: nat)
    requires s < SLOTS && LENGTH * s + |Text(m, s)| <= PRIORITIES
    ensures Text(Deselected(m, picks), s) == Text(m, s)
  {
    hide CString;
    CStringIs(Deselected(m, picks), LENGTH * s, Text(m, s));
  }

  lemma {:induction false} DrainedRefines(m: Memory)
    requires WellFormed(Abstract(m)) && forall s :: 0 <= s < SLOTS ==> LENGTH * s + |Text(m, s)| <= PRIORITIES
    ensures Drained(m) == Sent(Abstract(m))
  {
    hide Text, Priorities, Dirty, Bytes, FirstMax, Picks, Deselected;
    var picks := Picks(Priorities(m), |Dirty(m)|);
    forall s: nat | s < SLOTS
      ensures Text(Deselected(m, picks), s) == Text(m, s)
    {
      DeselectedText(m, picks, s);
    }
  }

  // ------------------------------------------------------------- texts that do not

  /** A long text whose surplus is what the next slot holds already changes nothing there. */
  lemma {:induction false} SurplusThere(m: Memory, p: Push)
    requires Clean(m) && Proper(p) && |p.cmd| >= LENGTH && Text(m, p.slot + 1) == p.cmd[LENGTH..]
    ensures Harmless(m, p)
    ensures forall j :: LENGTH * (p.slot + 1) <= j < PRIORITIES ==> PushTo(m, p)[j] == m[j]
    ensures if p.slot < 8 then LENGTH * p.slot + |p.cmd| < PRIORITIES else |p.cmd| <= LENGTH + 1
  {
    hide CString, PushTo;
    var next := Text(m, p.slot + 1);
    assert forall k :: 0 <= k < |next| ==> next[k] == p.cmd[LENGTH + k] == m[LENGTH * (p.slot + 1) + k];
    if p.slot < 8 {
      assert |next| < LENGTH;
    } else {
      assert Priorities(m)[0] == Word(m, PRIORITIES);
      assert m[PRIORITIES + 1] == NUL;
      CStringEnds(m, PRIORITIES, 1);
    }
    forall j | LENGTH * (p.slot + 1) <= j < PRIORITIES
      ensures PushTo(m, p)[j] == m[j]
    {
      PushedBytes(m, p, j);
    }
  }

  lemma {:induction false} SurplusRefines(m: Memory, p: Push)
    requires Clean(m) && Proper(p) && |p.cmd| >= LENGTH && Text(m, p.slot + 1) == p.cmd[LENGTH..]
    ensures Abstract(PushTo(m, p)) == PushInto(Abstract(m), p)
  {
    hide PushTo, CString, Priorities, Dirty, Bytes, FirstMax, Top;
    var r := PushTo(m, p);
    SurplusThere(m, p);
    PushRanks(m, p);
    TopIs(Priorities(m));
    SurplusOwnText(m, p);
    forall s: nat | s < SLOTS && s != p.slot
      ensures Text(r, s) == Text(m, s)
    {
      if s < p.slot {
        OtherText(m, p, s);
      } else {
        CStringIs(r, LENGTH * s, Text(m, s));
      }
    }
  }

  lemma {:induction false} SurplusOwnText(m: Memory, p: Push)
    requires Clean(m) && Proper(p) && |p.cmd| >= LENGTH && Text(m, p.slot + 1) == p.cmd[LENGTH..]
    ensures Text(PushTo(m, p), p.slot) == p.cmd
  {
    hide PushTo, CString, Clean;
    var r, end := PushTo(m, p), LENGTH * p.slot + |p.cmd|;
    SurplusThere(m, p);
    forall j | LENGTH * p.slot <= j <= end
      ensures r[j] == if j < end then p.cmd[j - LENGTH * p.slot] else NUL
    {
      if j < PRIORITIES {
        PushedBytes(m, p, j);
      } else {
        BytesBehind(m, p, j);
      }
    }
    CStringIs(r, LENGTH * p.slot, p.cmd);
  }

  /** If a long text reads back, the next slot reads as its surplus. */
  lemma {:induction false} SurplusReads(r: Memory, slot: nat, cmd: string)
    requires slot < SLOTS && |cmd| >= LENGTH && Text(r, slot) == cmd
    ensures Text(r, slot + 1) == cmd[LENGTH..]
  {
    hide CString;
    assert forall k :: 0 <= k < |cmd| - LENGTH ==>
             cmd[LENGTH..][k] == cmd[LENGTH + k] == r[LENGTH * slot + (LENGTH + k)];
    CStringIs(r, LENGTH * (slot + 1), cmd[LENGTH..]);
  }

  lemma {:induction false} SameWordSameText(m: Memory, r: Memory)
    requires Bytes(m) && Bytes(r) && Word(m, PRIORITIES) == Word(r, PRIORITIES) < 256
    ensures Text(m, SLOTS) == Text(r, SLOTS)
  {
    hide CString;
    assert m[PRIORITIES] == r[PRIORITIES] && m[PRIORITIES + 1] == NUL == r[PRIORITIES + 1];
    CStringEnds(r, PRIORITIES, 1);
    var t := Text(r, SLOTS);
    assert |t| == 1 ==> t[0] == r[PRIORITIES];
    CStringIs(m, PRIORITIES, t);
  }

  /** A push does what is meant to texts, priorities and marks, if and only if its text is
      shorter than 32 characters, or what it has in excess of 32 is exactly what stands
      behind its slot already: the next text, or behind the last the first priority. With
      32 characters that says that the next slot is empty. */
  lemma {:induction false} PushRefinesIff(m: Memory, p: Push)
    requires Clean(m) && Proper(p)
    ensures Abstract(PushTo(m, p)) == PushInto(Abstract(m), p)
            <==> |p.cmd| < LENGTH || Text(m, p.slot + 1) == p.cmd[LENGTH..]
  {
    hide PushTo, PushInto, Abstract, Text;
    if |p.cmd| < LENGTH {
      ShortPushRefines(m, p);
    } else if Text(m, p.slot + 1) == p.cmd[LENGTH..] {
      SurplusRefines(m, p);
    } else if Abstract(PushTo(m, p)) == PushInto(Abstract(m), p) {
      RefinesOnlyIf(m, p);
    }
  }

  lemma {:induction false} RefinesOnlyIf(m: Memory, p: Push)
    requires Clean(m) && Proper(p) && |p.cmd| >= LENGTH && Abstract(PushTo(m, p)) == PushInto(Abstract(m), p)
    ensures Text(m, p.slot + 1) == p.cmd[LENGTH..]
  {
    hide PushTo, Text, FirstMax, Dirty, Word, Bytes, Terminated;
    var r := PushTo(m, p);
    var v, w := Abstract(r), Abstract(m);
    assert v.cmd[p.slot] == Text(r, p.slot);
    SurplusReads(r, p.slot, p.cmd);
    if p.slot < 8 {
      assert v.cmd[p.slot + 1] == Text(r, p.slot + 1) && w.cmd[p.slot + 1] == Text(m, p.slot + 1);
    } else {
      PushKeepsBytes(m, p);
      assert Priorities(r)[0] == Priorities(m)[0];
      SameWordSameText(m, r);
    }
  }

  // ---------------------------------------------------------------------- drains

  /** Up to 255 pushes that stay within the texts, a drain sends what the memory then
      holds for the last pushes, in their order. */
  lemma {:induction false} DrainsInOrder(log: seq<Push>)
    requires AllProper(log) && AllWithin(log) && |log| <= 255
    ensures AllKnown(log) && |Drained(Stored(log))| == |Survivors(log)|
    ensures var m := Stored(log);
            var snapshot := Deselected(m, Picks(Priorities(m), |Dirty(m)|));
            forall i :: 0 <= i < |Survivors(log)| ==>
              (Survivors(log)[i].slot < SLOTS && Drained(m)[i] == Text(snapshot, Survivors(log)[i].slot))
  {
    hide Survivors, Stored, PushAll, Holds, Ascending, Text, Deselected, Priorities, Dirty;
    var v, live := PushAll(Cleared(), log), Survivors(log);
    StoredRanks(log);
    PushesHeld(log);
    var slots := seq(|live|, i requires 0 <= i < |live| => live[i].slot);
    SurvivorSlots(v, log, slots);
    PicksAscending(v.priority, slots);
    AscendingSlots(v.priority, slots);
  }

  lemma {:induction false} AscendingSlots(priority: seq<nat>, slots: seq<nat>)
    requires Ascending(priority, slots)
    ensures forall i :: 0 <= i < |slots| ==> slots[i] < |priority|
  {
  }

  /** Whatever was there: a text of 32 characters and a push to the slot behind it. */
  lemma {:induction false} TextsRunTogether(m: Memory, s: nat, c: string, d: string)
    requires s < 8 && IsText(c) && IsText(d) && |c| == LENGTH && |d| < LENGTH
    ensures Text(PushTo(PushTo(m, Push(s, c)), Push(s + 1, d)), s) == c + d
  {
    hide PushTo, CString;
    var p, q := Push(s, c), Push(s + 1, d);
    var one := PushTo(m, p);
    var two := PushTo(one, q);
    forall j | LENGTH * s <= j <= LENGTH * s + |c + d|
      ensures two[j] == if j < LENGTH * s + |c + d| then (c + d)[j - LENGTH * s] else NUL
    {
      PushedBytes(one, q, j);
      PushedBytes(m, p, j);
    }
    CStringIs(two, LENGTH * s, c + d);
  }

  /** After a text of 32 characters and a push to the slot behind it, a drain sends the two
      texts run together. */
  lemma {:induction false} DrainRunsTogether(log: seq<Push>, s: nat, c: string, d: string)
    requires AllProper(log) && AllWithin(log) && 2 <= |log| <= 255
    requires s < 8 && |c| == LENGTH && |d| < LENGTH && log[|log| - 2] == Push(s, c) && log[|log| - 1] == Push(s + 1, d)
    ensures AllKnown(log) && c + d in Drained(Stored(log))
  {
    hide Stored, PushTo, Text, Survivors, Drained, Deselected, Priorities, Dirty, Picks;
    var m := Stored(log);
    StoredTwo(log);
    TextsRunTogether(Stored(log[..|log| - 2]), s, c, d);
    var i := SlotSurvives(log, |log| - 2);
    DrainsInOrder(log);
    DeselectedText(m, Picks(Priorities(m), |Dirty(m)|), s);
    assert Drained(m)[i] == c + d;
  }

  lemma {:induction false} StoredTwo(log: seq<Push>)
    requires AllKnown(log) && |log| >= 2
    ensures var n := |log|; Stored(log) == PushTo(PushTo(Stored(log[..n - 2]), log[n - 2]), log[n - 1])
  {
    hide PushTo;
    var n := |log|;
    assert log[..n - 1][..n - 2] == log[..n - 2];
  }

  lemma {:induction false} SlotSurvives(log: seq<Push>, j: nat) returns (i: nat)
    requires LastPush(log, j)
    ensures i < |Survivors(log)| && Survivors(log)[i].slot == log[j].slot
  {
    hide SurvivorsFrom, Last;
    SurvivorsInOrder(log, 0);
    LastIsLastPush(log, j);
    assert Has(Survivors(log), log[j].slot);
    i :| 0 <= i < |Survivors(log)| && Survivors(log)[i].slot == log[j].slot;
  }

  lemma {:induction false} TwoSurvive(p: Push, q: Push)
    requires p.slot != q.slot
    ensures Survivors([p, q]) == [p, q]
  {
    var log := [p, q];
    assert SurvivorsFrom(log, 2) == [];
    assert LastPush(log, 1) && SurvivorsFrom(log, 1) == [q];
    assert LastPush(log, 0);
  }

  /** The smallest such log, in full: the second text is sent twice, once behind the first. */
  lemma {:induction false} TwoPushesRunTogether(s: nat, c: string, d: string)
    requires s < 8 && IsText(c) && IsText(d) && |c| == LENGTH && |d| < LENGTH
    ensures Drained(Stored([Push(s, c), Push(s + 1, d)])) == [c + d, d]
  {
    hide Stored, PushTo, Text, Survivors, Drained, Deselected, Priorities, Dirty, Picks, IsText;
    var p, q := Push(s, c), Push(s + 1, d);
    var log := [p, q];
    var m := Stored(log);
    TwoSurvive(p, q);
    DrainsInOrder(log);
    var picks := Picks(Priorities(m), |Dirty(m)|);
    StoredTwo(log);
    TextsRunTogether(Stored(log[..0]), s, c, d);
    OwnText(PushTo(Stored(log[..0]), p), q);
    DeselectedText(m, picks, s);
    DeselectedText(m, picks, s + 1);
  }

  const EXTRA_VOLUME := "AT+SPAUDIOCONFIG=extravgr,1,4096"
  const SAMPLE_RATE := "AT+SSAM=128"

  /** at_cmd_extra_volume with its own default pushes exactly 32 characters to slot 6. */
  lemma {:induction false} ExtraVolumeRunsOn()
    ensures |EXTRA_VOLUME| == LENGTH
    ensures Drained(Stored([Push(6, EXTRA_VOLUME), Push(7, SAMPLE_RATE)])) == [EXTRA_VOLUME + SAMPLE_RATE, SAMPLE_RATE]
  {
    hide Stored, Drained, IsText;
    LiteralsAreTexts();
    TwoPushesRunTogether(6, EXTRA_VOLUME, SAMPLE_RATE);
  }

  lemma {:induction false} LiteralsAreTexts()
    ensures |EXTRA_VOLUME| == LENGTH && |SAMPLE_RATE| < LENGTH && IsText(EXTRA_VOLUME) && IsText(SAMPLE_RATE)
  {
  }

  // ------------------------------------------------------------- the exact limits

  predicate UpTo(log: seq<Push>, n: nat, m: nat) {
    AllProper(log) && |log| == n && forall i :: 0 <= i < |log| ==> |log[i].cmd| <= m
  }

  /** A drain sends the log without its superseded entries, in order. */
  ghost predicate Right(log: seq<Push>)
    requires AllKnown(log)
  {
    Drained(Stored(log)) == Commands(Survivors(log))
  }

  lemma {:induction false} ShortLogRight(log: seq<Push>)
    requires AllShort(log) && |log| <= 255
    ensures AllKnown(log) && Right(log)
  {
    hide Stored, Drained, Abstract, Sent, PushAll;
    StoredRefines(log);
    CleanEnds(Stored(log));
    DrainedRefines(Stored(log));
    DrainSendsSurvivors(log);
  }

  lemma {:induction false} CleanEnds(m: Memory)
    requires Clean(m)
    ensures forall s :: 0 <= s < SLOTS ==> LENGTH * s + |Text(m, s)| <= PRIORITIES
  {
    hide Text;
  }

  lemma {:induction false} OnePushRight(p: Push)
    requires Proper(p) && |p.cmd| <= LENGTH
    ensures Right([p])
  {
    hide Stored, PushTo, Drained, Text, Sent, PushInto, PushAll, Empty, Abstract, Survivors, Clean, Cleared, IsText;
    var m := Stored([p]);
    StoredOne(p);
    EmptyRefines();
    EmptyText(p.slot + 1);
    PushRefinesIff(Empty(), p);
    PushOne(p);
    AbstractTexts(m);
    DrainedRefines(m);
    DrainSendsSurvivors([p]);
  }

  lemma {:induction false} AbstractTexts(m: Memory)
    ensures |Abstract(m).cmd| == SLOTS && forall s :: 0 <= s < SLOTS ==> Abstract(m).cmd[s] == Text(m, s)
  {
    hide Text, Priorities, Dirty;
  }

  lemma {:induction false} EmptyText(s: nat)
    requires s <= SLOTS
    ensures Text(Empty(), s) == ""
  {
    CStringEnds(Empty(), LENGTH * s, 0);
  }

  lemma {:induction false} StoredOne(p: Push)
    requires Known(p)
    ensures Stored([p]) == PushTo(Empty(), p)
  {
    hide PushTo, Empty;
    assert [p][..0] == [];
  }

  lemma {:induction false} PushOne(p: Push)
    requires Known(p)
    ensures PushAll(Cleared(), [p]) == PushInto(Cleared(), p)
    ensures forall s :: 0 <= s < SLOTS ==> PushInto(Cleared(), p).cmd[s] == if s == p.slot then p.cmd else ""
  {
    assert [p][..0] == [];
  }

  /** Texts that are all empty are sent right, however many: the mask has one bit for
      every survivor. */
  lemma {:induction false} EmptyTextsRight(log: seq<Push>)
    requires AllShort(log) && forall i :: 0 <= i < |log| ==> log[i].cmd == ""
    ensures AllKnown(log) && Right(log)
  {
    hide Stored, Drained, Abstract, PushAll, Survivors, Clean;
    StoredRefines(log);
    var v := PushAll(Cleared(), log);
    CleanParts(Stored(log));
    DrainedRefines(Stored(log));
    EmptyVectors(log);
    SurvivorCount(log);
    EmptyCommands(log);
    assert forall i :: 0 <= i < |v.dirty| ==> Sent(v)[i] == "";
  }

  lemma {:induction false} CleanParts(m: Memory)
    requires Clean(m)
    ensures WellFormed(Abstract(m))
    ensures forall s :: 0 <= s < SLOTS ==> LENGTH * s + |Text(m, s)| <= PRIORITIES
  {
    CleanEnds(m);
  }

  lemma {:induction false} EmptyVectors(log: seq<Push>)
    requires AllKnown(log) && forall i :: 0 <= i < |log| ==> log[i].cmd == ""
    ensures forall s :: 0 <= s < SLOTS ==> PushAll(Cleared(), log).cmd[s] == ""
  {
    hide FirstMax;
    if log != [] {
      EmptyVectors(log[..|log| - 1]);
    }
  }

  lemma {:induction false} MarkedSlots(log: seq<Push>, s: nat)
    requires AllKnown(log)
    ensures s in PushAll(Cleared(), log).dirty <==> Last(log, s) >= 0
  {
    hide FirstMax;
    if log != [] {
      MarkedSlots(log[..|log| - 1], s);
      LastAppend(log[..|log| - 1], log[|log| - 1], s);
      assert log == log[..|log| - 1] + [log[|log| - 1]];
    }
  }

  /** One bit of the mask for every survivor. */
  lemma {:induction false} SurvivorCount(log: seq<Push>)
    requires AllKnown(log)
    ensures |PushAll(Cleared(), log).dirty| == |Survivors(log)|
  {
    hide SurvivorsFrom, Last, PushAll;
    SurvivorsInOrder(log, 0);
    var live, dirty := Survivors(log), PushAll(Cleared(), log).dirty;
    var slots := seq(|live|, i requires 0 <= i < |live| => live[i].slot);
    forall s: nat
      ensures s in dirty <==> s in slots
    {
      MarkedSlots(log, s);
      if s in dirty {
        var i :| 0 <= i < |live| && live[i].slot == s;
        assert slots[i] == s;
      }
    }
    CountDistinct(dirty, slots);
  }

  lemma {:induction false} EmptyCommands(log: seq<Push>)
    requires forall i :: 0 <= i < |log| ==> log[i].cmd == ""
    ensures forall i :: 0 <= i < |Survivors(log)| ==> Commands(Survivors(log))[i] == ""
  {
    hide SurvivorsFrom, Last;
    SurvivorsInOrder(log, 0);
  }

  /** A text of 33 characters in the last slot ends in the priority of the first. With 255
      there the next priority wraps to zero, and slot 0 is sent instead. */
  lemma {:induction false} LastSlotSpills(p: Push)
    requires p.slot == 8 && IsText(p.cmd) && |p.cmd| == LENGTH + 1 && p.cmd[LENGTH] as int == 255
    ensures Drained(Stored([p])) == [""]
  {
    hide Stored, PushTo, Drained, Text, Empty, Priorities, Dirty, Picks, Deselected;
    var m := Stored([p]);
    StoredOne(p);
    SpilledRanks(p);
    assert Dirty(m) == {8} && |Dirty(m)| == 1;
    FirstIsPicked(Priorities(m));
    var picks := Picks(Priorities(m), 1);
    SpilledText(p);
    DeselectedText(m, picks, 0);
    DrainedOne(m);
  }

  lemma {:induction false} FirstIsPicked(priority: seq<nat>)
    requires |priority| == SLOTS && priority[0] == 255 && forall i :: 0 < i < SLOTS ==> priority[i] == 0
    ensures Picks(priority, 1) == [0] && Top(priority) == 255
  {
    hide FirstMax;
    assert FirstMax(priority) == 0;
    assert Picks(priority[0 := 0], 0) == [];
  }

  lemma {:induction false} DrainedOne(m: Memory)
    requires |Dirty(m)| == 1 && Picks(Priorities(m), 1) == [0]
    ensures Drained(m) == [Text(Deselected(m, Picks(Priorities(m), 1)), 0)]
  {
    hide Priorities, Dirty, Picks, Deselected, Text;
  }

  lemma {:induction false} SpilledText(p: Push)
    requires Known(p) && p.slot == 8
    ensures Text(PushTo(Empty(), p), 0) == ""
  {
    hide PushTo;
    PushedBytes(Empty(), p, 0);
    CStringEnds(PushTo(Empty(), p), 0, 0);
  }

  lemma {:induction false} SpilledRanks(p: Push)
    requires p.slot == 8 && IsText(p.cmd) && |p.cmd| == LENGTH + 1 && p.cmd[LENGTH] as int == 255
    ensures var r := Priorities(PushTo(Empty(), p)); r[0] == 255 && forall i :: 0 < i < SLOTS ==> r[i] == 0
    ensures Dirty(PushTo(Empty(), p)) == {8}
  {
    hide Put, Top, Dirty, Marked, WithBit, Priorities, WithRank;
    var marked := Marked(Empty(), 8);
    EmptyIs();
    MarkedIs(Empty(), 8);
    var copied := Copied(marked, p);
    assert forall k :: DIRTY <= k < SIZE ==> copied[k] == marked[k];
    SameMask(marked, copied);
    assert copied[PRIORITIES] == p.cmd[LENGTH];
    assert forall k :: PRIORITIES < k < DIRTY ==> copied[k] == NUL;
    assert Priorities(copied)[0] == 255 && forall i :: 0 < i < SLOTS ==> Priorities(copied)[i] == 0;
    FirstIsPicked(Priorities(copied));
    RankedIs(copied, 8, 0);
  }

  lemma {:induction false} SameMask(m: Memory, r: Memory)
    requires forall k :: DIRTY <= k < SIZE ==> r[k] == m[k]
    ensures Dirty(r) == Dirty(m)
  {
    hide BitOf;
  }

  function Letters(n: nat): (s: string)
    ensures |s| == n && IsText(s)
  {
    seq(n, _ => 'a')
  }

  /** A log of n pushes that ends with 32 characters in slot 6 and one in slot 7. */
  function Filling(n: nat): (log: seq<Push>)
    requires n >= 2
    ensures |log| == n && AllProper(log) && forall i :: 0 <= i < n ==> |log[i].cmd| <= LENGTH
  {
    Repeat(Push(6, Letters(LENGTH)), n - 1) + [Push(7, "b")]
  }

  lemma {:induction false} FillingWrong(n: nat)
    requires 2 <= n <= 255
    ensures AllKnown(Filling(n)) && !Right(Filling(n))
  {
    hide Stored, Drained, Survivors, Filling, Letters, IsText;
    var log, c := Filling(n), Letters(LENGTH);
    FillingEnds(n);
    DrainRunsTogether(log, 6, c, "b");
    CommandsBounded(log, LENGTH);
    assert |c + "b"| == LENGTH + 1;
  }

  lemma {:induction false} FillingEnds(n: nat)
    requires n >= 2
    ensures Filling(n)[n - 2] == Push(6, Letters(LENGTH)) && Filling(n)[n - 1] == Push(7, "b") && AllWithin(Filling(n))
  {
    hide Letters;
  }

  lemma {:induction false} CommandsBounded(log: seq<Push>, m: nat)
    requires forall i :: 0 <= i < |log| ==> |log[i].cmd| <= m
    ensures forall cmd :: cmd in Commands(Survivors(log)) ==> |cmd| <= m
  {
    hide SurvivorsFrom, Last;
    SurvivorsInOrder(log, 0);
  }

  function Spilling(): (p: Push)
    ensures Proper(p) && p.slot == 8 && |p.cmd| == LENGTH + 1 && p.cmd[LENGTH] as int == 255
  {
    Push(8, Letters(LENGTH) + [255 as char])
  }

  lemma {:induction false} SpillingWrong()
    ensures !Right([Spilling()])
  {
    hide Stored, Drained;
    var p := Spilling();
    LastSlotSpills(p);
    assert SurvivorsFrom([p], 1) == [] && LastPush([p], 0);
    assert Survivors([p]) == [p];
    assert Commands([p])[0] != "";
  }

  lemma {:induction false} OverflowingWrong(n: nat)
    requires n > 255
    ensures UpTo(Overflowing(n), n, 1) && !Right(Overflowing(n))
  {
    hide Stored, Drained, Abstract, PushAll, Survivors, Clean, Sent, Overflowing, AllShort, UpTo;
    var log := Overflowing(n);
    OverflowingShort(n);
    StoredRefines(log);
    CleanParts(Stored(log));
    DrainedRefines(Stored(log));
    NewestCommandLost(n);
  }

  lemma {:induction false} OverflowingShort(n: nat)
    requires n > 255
    ensures AllShort(Overflowing(n)) && UpTo(Overflowing(n), n, 1)
  {
  }

  /** The exact limits: drains are right about all logs of n pushes with texts of up to m
      characters if and only if n is at most 255 and m at most 31. (With no push, no
      text, or one push of up to 32 characters there is nothing to get wrong.) */
  lemma {:induction false} RightForAllLogsIff(n: nat, m: nat)
    ensures (forall log :: UpTo(log, n, m) ==> Right(log))
            <==> (n <= 255 && m <= 31) || n == 0 || m == 0 || (n == 1 && m <= 32)
  {
    hide Right, Filling, Spilling, Overflowing;
    if n > 255 && m > 0 {
      OverflowingWrong(n);
      assert UpTo(Overflowing(n), n, m);
    } else if 2 <= n <= 255 && m > 31 {
      FillingWrong(n);
      assert UpTo(Filling(n), n, m);
    } else if n == 1 && m > 32 {
      SpillingWrong();
      assert UpTo([Spilling()], 1, m);
    } else {
      forall log | UpTo(log, n, m)
        ensures Right(log)
      {
        RightWithin(log, n, m);
      }
    }
  }

  lemma {:induction false} RightWithin(log: seq<Push>, n: nat, m: nat)
    requires UpTo(log, n, m) && ((n <= 255 && m <= 31) || n == 0 || m == 0 || (n == 1 && m <= 32))
    ensures Right(log)
  {
    hide Right, IsText;
    if n == 1 {
      assert log == [log[0]];
      OnePushRight(log[0]);
    } else if m == 0 {
      EmptyTextsRight(log);
    } else {
      ShortLogRight(log);
    }
  }

  // --------------------------------------------------------------------- the code

  lemma {:induction false} TopIsMax(priority: seq<nat>, max: nat)
    requires max in priority && forall k :: 0 <= k < |priority| ==> priority[k] <= max
    ensures Top(priority) == max
  {
    hide FirstMax;
  }

  lemma {:induction false} PutAll(m: Memory, s: Memory)
    ensures Put(m, 0, s) == s
  {
  }

  lemma {:induction false} DeselectNone(m: Memory)
    ensures Deselected(m, []) == m
  {
  }

  /** One more priority taken out of the snapshot. */
  lemma {:induction false} DeselectOne(m: Memory, now: Memory, picks: seq<nat>, x: nat)
    requires now == Deselected(m, picks) && x < SLOTS
    ensures Put(now, PRIORITIES + 4 * x, Nuls(4)) == Deselected(m, picks + [x])
    ensures Priorities(Put(now, PRIORITIES + 4 * x, Nuls(4))) == Priorities(now)[x := 0]
  {
    hide Put;
    var r := Put(now, PRIORITIES + 4 * x, Nuls(4));
    forall k | 0 <= k < SIZE
      ensures r[k] == Deselected(m, picks + [x])[k]
    {
      assert PRIORITIES + 4 * x <= k < PRIORITIES + 4 * x + 4 <==> k >= PRIORITIES && (k - PRIORITIES) / 4 == x;
    }
    forall i | 0 <= i < SLOTS
      ensures Word(r, PRIORITIES + 4 * i) == if i == x then 0 else Word(now, PRIORITIES + 4 * i)
    {
    }
  }

  class AtCmdVectors {
    const mem: array<char>

    ghost predicate Valid() { mem.Length == SIZE }

    ghost function Value(): Memory
      requires Valid()
      reads mem
    {
      mem[..]
    }

    constructor ()
      ensures Valid() && fresh(mem) && Value() == Empty()
    {
      mem := new char[SIZE](_ => NUL);
    }

    /** memcpy, memset or strncpy into the structure. */
    static method Store(a: array<char>, at: nat, s: seq<char>)
      requires a.Length == SIZE
      modifies a
      ensures a[..] == Put(old(a[..]), at, s)
    {
      hide Put;
      for k := 0 to |s|
        invariant forall j :: at <= j < at + k && j < SIZE ==> a[j] == s[j - at]
        invariant forall j :: 0 <= j < SIZE && !(at <= j < at + k) ==> a[j] == old(a[j])
      {
        if at + k < SIZE {
          a[at + k] := s[k];
        }
      }
      ghost var r := Put(old(a[..]), at, s);
      assert forall j :: 0 <= j < SIZE ==> a[j] == r[j];
    }

    /** process_priority. */
    method ProcessPriority() returns (pri: nat)
      requires Valid()
      ensures pri == (Top(Priorities(Value())) + 1) % 256
    {
      hide Top, Word;
      var priority := Priorities(mem[..]);
      var maxPriority := priority[0];
      for indx := 0 to SLOTS
        invariant maxPriority in priority && forall k :: 0 <= k < indx ==> priority[k] <= maxPriority
      {
        if maxPriority < priority[indx] {
          maxPriority := priority[indx];
        }
      }
      TopIsMax(priority, maxPriority);
      pri := (maxPriority + 1) % 256;
    }

    /** push_voice_command, between lock and unlock. */
    method PushVoiceCommand(cmd: string, bit: nat)
      requires Valid() && bit < SLOTS
      modifies mem
      ensures Value() == PushTo(old(Value()), Push(bit, cmd))
    {
      hide Put, Top, Priorities, WithBit;
      mem[DIRTY + bit / 8] := Byte(WithBit(mem[DIRTY + bit / 8] as int, bit % 8));
      assert Value() == Marked(old(Value()), bit);
      Store(mem, LENGTH * bit, Nuls(LENGTH));
      Store(mem, LENGTH * bit, cmd);
      var pri := ProcessPriority();
      Store(mem, PRIORITIES + 4 * bit, [Byte(pri), NUL, NUL, NUL]);
    }

    /** The inner loop of do_cmd_dual. */
    static method SelectMax(priority: seq<nat>) returns (maxPriBit: nat)
      requires |priority| == SLOTS
      ensures maxPriBit == FirstMax(priority)
    {
      hide FirstMax;
      var maxPri := priority[0];
      maxPriBit := 0;
      for indx := 0 to SLOTS
        invariant maxPriBit < SLOTS && maxPri == priority[maxPriBit]
        invariant forall k :: 0 <= k < indx ==> priority[k] <= maxPri
        invariant forall k :: 0 <= k < maxPriBit ==> priority[k] < maxPri
      {
        if maxPri < priority[indx] {
          maxPri := priority[indx];
          maxPriBit := indx;
        }
      }
    }

    /** The outer selection loop of do_cmd_dual. */
    static method SelectAll(processAtCmd: array<char>, dirtyCount: nat) returns (cmdQueuePri: seq<nat>)
      requires processAtCmd.Length == SIZE
      modifies processAtCmd
      ensures cmdQueuePri == Picks(Priorities(old(processAtCmd[..])), dirtyCount)
      ensures processAtCmd[..] == Deselected(old(processAtCmd[..]), cmdQueuePri)
    {
      hide Picks, FirstMax, Priorities, Put, Deselected, Nuls;
      ghost var was := processAtCmd[..];
      ghost var picks := Picks(Priorities(was), dirtyCount);
      cmdQueuePri := [];
      DeselectNone(was);
      for dirtyIndx := 0 to dirtyCount
        invariant |cmdQueuePri| == dirtyIndx
        invariant processAtCmd[..] == Deselected(was, cmdQueuePri)
        invariant cmdQueuePri + Picks(Priorities(processAtCmd[..]), dirtyCount - dirtyIndx) == picks
      {
        ghost var before := processAtCmd[..];
        var maxPriBit := SelectMax(Priorities(processAtCmd[..]));
        DeselectOne(was, before, cmdQueuePri, maxPriBit);
        Store(processAtCmd, PRIORITIES + 4 * maxPriBit, Nuls(4));
        PicksStep(Priorities(before), Priorities(processAtCmd[..]), maxPriBit, dirtyCount - dirtyIndx);
        ghost var rest := Picks(Priorities(processAtCmd[..]), dirtyCount - dirtyIndx - 1);
        assert cmdQueuePri + ([maxPriBit] + rest) == cmdQueuePri + [maxPriBit] + rest;
        cmdQueuePri := cmdQueuePri + [maxPriBit];
      }
    }

    /** do_cmd_dual: snapshot and clear, select, and send backwards. */
    method DoCmdDual() returns (sent: seq<string>)
      requires Valid()
      modifies mem
      ensures Value() == if Dirty(old(Value())) == {} then old(Value()) else Empty()
      ensures sent == Drained(old(Value()))
    {
      hide Picks, Dirty, Priorities, Put, Deselected, Text, Nuls;
      ghost var was := mem[..];
      var dirtyCount := |Dirty(mem[..])|;
      var processAtCmd := new char[SIZE](_ => NUL);
      sent := [];
      if dirtyCount == 0 {
        assert Dirty(was) == {};
        return;
      }
      PutAll(processAtCmd[..], was);
      Store(processAtCmd, 0, mem[..]);
      PutAll(was, Empty());
      Store(mem, 0, Nuls(SIZE));
      var cmdQueuePri := SelectAll(processAtCmd, dirtyCount);
      for indx := 0 to dirtyCount
        modifies {}
        invariant |sent| == indx
        invariant forall i :: 0 <= i < indx ==> sent[i] == Text(processAtCmd[..], cmdQueuePri[dirtyCount - 1 - i])
      {
        sent := sent + [Text(processAtCmd[..], cmdQueuePri[dirtyCount - indx - 1])];
      }
    }
  }
}
