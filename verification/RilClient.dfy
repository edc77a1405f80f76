/** The request bookkeeping of libsecril-client/secril-client.cpp: a 32-bit token
    pool, the history of outstanding requests and the table of completion handlers.

    A 32-bit word used bit by bit is the set of its one bits. Operations are atomic:
    a handler that calls back into the client while it runs is not modelled.
 */
module RilClient {

  const BITS: nat := 32               // width of token_pool, TOKEN_POOL_SIZE, REQ_POOL_SIZE

  const GET_CALL_MUTE: nat := 106     // REQ_GET_CALL_MUTE

  type Word = set<nat>

  datatype Entry = Entry(token: Word, id: nat)

  /** handler 0 is NULL, id 0 an empty slot. */
  datatype Slot = Slot(id: nat, handler: nat)

  const NO_ENTRY := Entry({}, 0)
  const NO_SLOT := Slot(0, 0)

  datatype Code = Success | Again | Unknown | Inval | Io | Resource

  datatype Client = Client(pool: Word, history: seq<Entry>, handlers: seq<Slot>, delHandler: bool)

  // ------------------------------------------------------------------- the tokens

  function All(n: nat): (s: Word)
    ensures forall b: nat :: b in s <==> b < n
  {
    if n == 0 then {} else All(n - 1) + {n - 1}
  }

  lemma {:induction false} AllSize(n: nat)
    ensures |All(n)| == n
  {
    if n > 0 {
      AllSize(n - 1);
    }
  }

  /** The lowest bit from i on that is clear, or BITS. */
  function ClearBit(pool: Word, i: nat): (b: nat)
    requires i <= BITS
    ensures i <= b <= BITS && (b < BITS ==> b !in pool) && forall k :: i <= k < b ==> k in pool
    decreases BITS - i
  {
    if i == BITS || i !in pool then i else ClearBit(pool, i + 1)
  }

  /** Every entry carries one bit of the pool, every bit of the pool one entry. */
  ghost predicate Matched(pool: Word, history: seq<Entry>) {
    && |history| == BITS && (forall b :: b in pool ==> b < BITS)
    && (forall i, b :: 0 <= i < BITS && b in history[i].token ==> b in pool && history[i].token == {b})
    && (forall i, j, b :: 0 <= i < BITS && 0 <= j < BITS && b in history[i].token && b in history[j].token ==> i == j)
    && (forall b :: b in pool ==> HasEntry(history, b))
    && (forall i :: 0 <= i < BITS && history[i].token == {} ==> history[i] == NO_ENTRY)
  }

  ghost predicate HasEntry(history: seq<Entry>, b: nat) {
    exists i :: 0 <= i < |history| && b in history[i].token
  }

  /** The first entry from i on that holds `token`, or the end. */
  function Find(history: seq<Entry>, token: Word, i: nat): (k: nat)
    requires i <= |history|
    ensures i <= k <= |history| && (k < |history| ==> history[k].token == token)
    ensures forall j :: i <= j < k ==> history[j].token != token
    decreases |history| - i
  {
    if i == |history| || history[i].token == token then i else Find(history, token, i + 1)
  }

  /** The outstanding requests: the id sent under each live token. */
  ghost function Outstanding(c: Client): map<nat, nat> {
    map b | b in c.pool :: IdUnder(c.history, b)
  }

  function IdUnder(history: seq<Entry>, b: nat): nat {
    var k := Find(history, {b}, 0);
    if k < |history| then history[k].id else 0
  }

  ghost function BitsOf(history: seq<Entry>, n: nat): Word
    requires n <= |history|
  {
    if n == 0 then {} else BitsOf(history, n - 1) + history[n - 1].token
  }

  lemma {:induction false} BitsOfMeaning(history: seq<Entry>, n: nat, b: nat)
    requires n <= |history|
    ensures b in BitsOf(history, n) <==> exists i :: 0 <= i < n && b in history[i].token
  {
    if n > 0 {
      BitsOfMeaning(history, n - 1, b);
    }
  }

  lemma {:induction false} EntryBit(pool: Word, history: seq<Entry>, i: nat) returns (b: nat)
    requires Matched(pool, history) && i < BITS && history[i].token != {}
    ensures history[i].token == {b} && b in pool && forall j :: 0 <= j < i ==> b !in history[j].token
  {
    b :| b in history[i].token;
  }

  lemma {:induction false} HistorySize(pool: Word, history: seq<Entry>)
    requires Matched(pool, history)
    ensures |history| == BITS
  {
  }

  lemma {:induction false} FullHistory(pool: Word, history: seq<Entry>, n: nat)
    requires Matched(pool, history) && n <= |history| && forall i :: 0 <= i < |history| ==> history[i].token != {}
    ensures |BitsOf(history, n)| == n && BitsOf(history, n) <= pool
  {
    hide Matched;
    if n > 0 {
      FullHistory(pool, history, n - 1);
      HistorySize(pool, history);
      var b := EntryBit(pool, history, n - 1);
      BitsOfMeaning(history, n - 1, b);
      assert BitsOf(history, n) == BitsOf(history, n - 1) + {b};
    }
  }

  lemma {:induction false} PoolBound(pool: Word)
    requires forall b :: b in pool ==> b < BITS
    ensures |pool| <= BITS && (|pool| == BITS <==> pool == All(BITS))
  {
    AllSize(BITS);
    Subset(pool, All(BITS));
  }

  lemma {:induction false} Subset(a: Word, b: Word)
    requires a <= b
    ensures |a| <= |b| && (|a| == |b| <==> a == b)
  {
    var rest := b - a;
    assert b == a + rest;
  }

  /** A clear bit in the pool means a free entry in the history: RecordReqHistory
      cannot fail once AllocateToken has succeeded. */
  lemma {:induction false} RoomToRecord(pool: Word, history: seq<Entry>)
    requires Matched(pool, history)
    ensures |pool| < BITS ==> Find(history, {}, 0) < BITS
  {
    if Find(history, {}, 0) == BITS {
      FullHistory(pool, history, BITS);
      PoolBound(pool);
      Subset(BitsOf(history, BITS), pool);
    }
  }

  // ----------------------------------------------------------------- the handlers

  function FindSlot(handlers: seq<Slot>, id: nat, i: nat): (k: nat)
    requires i <= |handlers|
    ensures i <= k <= |handlers| && (k < |handlers| ==> handlers[k].id == id)
    ensures forall j :: i <= j < k ==> handlers[j].id != id
    decreases |handlers| - i
  {
    if i == |handlers| || handlers[i].id == id then i else FindSlot(handlers, id, i + 1)
  }

  /** No id other than zero in two slots. */
  ghost predicate Distinct(handlers: seq<Slot>) {
    && |handlers| == BITS
    && forall i, j :: 0 <= i < j < BITS && handlers[i].id != 0 ==> handlers[i].id != handlers[j].id
  }

  /** The table as a partial map of non-zero ids. */
  ghost function Registered(handlers: seq<Slot>): map<nat, nat> {
    map id | id in Ids(handlers) :: HandlerOf(handlers, id)
  }

  ghost function Ids(handlers: seq<Slot>): (ids: set<nat>)
    ensures forall id :: id in ids <==> id != 0 && FindSlot(handlers, id, 0) < |handlers|
  {
    set i | 0 <= i < |handlers| && handlers[i].id != 0 :: handlers[i].id
  }

  function HandlerOf(handlers: seq<Slot>, id: nat): nat {
    var k := FindSlot(handlers, id, 0);
    if k < |handlers| then handlers[k].handler else 0
  }

  /** RegisterRequestCompleteHandler on the table. */
  ghost function Register(handlers: seq<Slot>, id: nat, handler: nat): (r: (seq<Slot>, Code))
    requires |handlers| == BITS
    ensures |r.0| == BITS
  {
    var matchSlot := LastSlot(handlers, id, BITS);
    var empty := FindSlot(handlers, 0, 0);
    if handler == 0 then (if matchSlot >= 0 then handlers[matchSlot := NO_SLOT] else handlers, Success)
    else if matchSlot >= 0 then (handlers[matchSlot := handlers[matchSlot].(handler := handler)], Success)
    else if empty < BITS then (handlers[empty := Slot(id, handler)], Success)
    else (handlers, Resource)
  }

  /** The last of the first n slots with the id, or -1. */
  function LastSlot(handlers: seq<Slot>, id: nat, n: nat): (k: int)
    requires n <= |handlers|
    ensures -1 <= k < n && (k >= 0 ==> handlers[k].id == id)
    ensures forall j :: k < j < n ==> handlers[j].id != id
  {
    if n == 0 then -1 else if handlers[n - 1].id == id then n - 1 else LastSlot(handlers, id, n - 1)
  }

  // --------------------------------------------------------------- the operations

  /** ClearReqHistory. */
  function Cleared(history: seq<Entry>, token: Word): (r: seq<Entry>)
    ensures |r| == |history|
  {
    var k := Find(history, token, 0);
    if k < |history| then history[k := NO_ENTRY] else history
  }

  /** SendOemRequestHookRaw; `written` says whether both writes to the socket succeed. */
  function Send(c: Client, id: nat, written: bool): (Client, Code) {
    if c.pool == All(BITS) then (c, Again)
    else
      var b := ClearBit(c.pool, 0);
      var k := Find(c.history, {}, 0);
      var pool := c.pool + {b};
      var history := if k < |c.history| then c.history[k := Entry({b}, id)] else c.history;
      if k < |c.history| && written then (c.(pool := pool, history := history), Success)
      else (c.(pool := pool - {b}, history := Cleared(history, {b})), Unknown)
  }

  predicate IsValidToken(pool: Word, token: Word) { token != {} && token <= pool }

  /** FindReqHandler from history entry i on: the slot of the handler, or BITS. */
  function ReqSlot(c: Client, token: Word, i: nat): (j: nat)
    requires i <= |c.history|
    ensures j <= |c.handlers|
    decreases |c.history| - i
  {
    if i == |c.history| then |c.handlers|
    else if c.history[i].token == token && FindSlot(c.handlers, c.history[i].id, 0) < |c.handlers|
    then FindSlot(c.handlers, c.history[i].id, 0)
    else ReqSlot(c, token, i + 1)
  }

  /** A response without an error field, one that reports an error, one with data. */
  datatype Reply = Truncated | Failed | Data

  datatype Output = Output(code: Code, called: nat)

  /** What processSolicited does with the handler table for an accepted token. */
  ghost function Dispatch(c: Client, token: Word, reply: Reply): (seq<Slot>, bool, Output)
    requires |c.handlers| == BITS
  {
    if reply == Truncated then (c.handlers, c.delHandler, Output(Io, 0))
    else if reply == Failed then (c.handlers, c.delHandler, Output(Success, 0))
    else
      var j := ReqSlot(c, token, 0);
      if j == BITS || c.handlers[j].handler == 0 then (c.handlers, c.delHandler, Output(Success, 0))
      else if c.delHandler then
        (Register(c.handlers, c.handlers[j].id, 0).0, false, Output(Success, c.handlers[j].handler))
      else (c.handlers, false, Output(Success, c.handlers[j].handler))
  }

  /** processSolicited. */
  ghost function Respond(c: Client, token: Word, reply: Reply): (Client, Output)
    requires |c.handlers| == BITS
  {
    if !IsValidToken(c.pool, token) then (c, Output(Inval, 0))
    else
      var r := Dispatch(c, token, reply);
      (Client(c.pool - token, Cleared(c.history, token), r.0, r.1), r.2)
  }

  ghost predicate Inv(c: Client) { Matched(c.pool, c.history) && Distinct(c.handlers) }

  // ------------------------------------------------------------------ the history

  lemma {:induction false} FindOwn(pool: Word, history: seq<Entry>, i: nat, b: nat)
    requires Matched(pool, history) && i < BITS && b in history[i].token
    ensures Find(history, {b}, 0) == i && IdUnder(history, b) == history[i].id
  {
    hide Find;
    assert history[i].token == {b};
    var k := Find(history, {b}, 0);
    assert k < BITS && b in history[k].token;
  }

  lemma {:induction false} Recorded(pool: Word, history: seq<Entry>, b: nat, k: nat, id: nat)
    requires Matched(pool, history) && b < BITS && b !in pool && k < BITS && history[k].token == {}
    ensures Matched(pool + {b}, history[k := Entry({b}, id)])
    ensures IdUnder(history[k := Entry({b}, id)], b) == id
    ensures forall x :: x in pool ==> IdUnder(history[k := Entry({b}, id)], x) == IdUnder(history, x)
  {
    hide Find, IdUnder;
    var h := history[k := Entry({b}, id)];
    assert forall i :: 0 <= i < BITS ==> b !in history[i].token;
    forall x | x in pool + {b}
      ensures HasEntry(h, x)
    {
      if x == b {
        assert b in h[k].token;
      } else {
        var i :| 0 <= i < BITS && x in history[i].token;
        assert x in h[i].token;
      }
    }
    FindOwn(pool + {b}, h, k, b);
    forall x | x in pool
      ensures IdUnder(h, x) == IdUnder(history, x)
    {
      var i :| 0 <= i < BITS && x in history[i].token;
      FindOwn(pool, history, i, x);
      FindOwn(pool + {b}, h, i, x);
    }
  }

  lemma {:induction false} Erased(pool: Word, history: seq<Entry>, b: nat)
    requires Matched(pool, history) && b in pool
    ensures Matched(pool - {b}, Cleared(history, {b}))
    ensures forall x :: x in pool && x != b ==> IdUnder(Cleared(history, {b}), x) == IdUnder(history, x)
    ensures forall i :: 0 <= i < BITS && b !in history[i].token ==> Cleared(history, {b})[i] == history[i]
  {
    var k :| 0 <= k < BITS && b in history[k].token;
    FindOwn(pool, history, k, b);
    var h := Cleared(history, {b});
    assert h == history[k := NO_ENTRY];
    hide Find, IdUnder, Cleared;
    forall x | x in pool - {b}
      ensures HasEntry(h, x)
    {
      var i :| 0 <= i < BITS && x in history[i].token;
      assert i != k && x in h[i].token;
    }
    forall x | x in pool && x != b
      ensures IdUnder(h, x) == IdUnder(history, x)
    {
      var i :| 0 <= i < BITS && x in history[i].token;
      FindOwn(pool, history, i, x);
      FindOwn(pool - {b}, h, i, x);
    }
  }

  /** Recording and then erasing the same token restores the history. */
  lemma {:induction false} RecordErase(pool: Word, history: seq<Entry>, b: nat, k: nat, id: nat)
    requires Matched(pool, history) && b < BITS && b !in pool && k < BITS && history[k].token == {}
    ensures Cleared(history[k := Entry({b}, id)], {b}) == history
  {
    Recorded(pool, history, b, k, id);
    FindOwn(pool + {b}, history[k := Entry({b}, id)], k, b);
    assert history[k := Entry({b}, id)][k := NO_ENTRY] == history;
  }

  // --------------------------------------------------------------------- the table

  lemma {:induction false} SlotUnique(handlers: seq<Slot>, i: nat)
    requires Distinct(handlers) && i < BITS && handlers[i].id != 0
    ensures FindSlot(handlers, handlers[i].id, 0) == i && LastSlot(handlers, handlers[i].id, BITS) == i
  {
    hide FindSlot, LastSlot;
    var k, l := FindSlot(handlers, handlers[i].id, 0), LastSlot(handlers, handlers[i].id, BITS);
    assert k < BITS && k <= i && l >= i;
  }

  ghost function UsedIds(handlers: seq<Slot>, n: nat): (ids: set<nat>)
    requires n <= |handlers|
    ensures forall id :: id in ids <==> exists i :: 0 <= i < n && handlers[i].id == id
  {
    if n == 0 then {} else UsedIds(handlers, n - 1) + {handlers[n - 1].id}
  }

  lemma {:induction false} UsedCount(handlers: seq<Slot>, n: nat)
    requires Distinct(handlers) && n <= BITS && forall i :: 0 <= i < n ==> handlers[i].id != 0
    ensures |UsedIds(handlers, n)| == n
  {
    if n > 0 {
      UsedCount(handlers, n - 1);
      assert handlers[n - 1].id !in UsedIds(handlers, n - 1);
    }
  }

  lemma {:induction false} UsedBound(handlers: seq<Slot>, n: nat)
    requires n <= |handlers|
    ensures |UsedIds(handlers, n)| <= n
  {
    if n > 0 {
      UsedBound(handlers, n - 1);
    }
  }

  lemma {:induction false} IdsAreUsed(handlers: seq<Slot>)
    requires Distinct(handlers)
    ensures Ids(handlers) == UsedIds(handlers, BITS) - {0}
  {
    hide FindSlot, UsedIds;
    var used := UsedIds(handlers, BITS);
    forall id: nat
      ensures id in Ids(handlers) <==> id in used - {0}
    {
      var k := FindSlot(handlers, id, 0);
      if k < BITS {
        assert handlers[k].id == id;
      }
    }
  }

  /** The table is full exactly when 32 ids are registered. */
  lemma {:induction false} FullTable(handlers: seq<Slot>)
    requires Distinct(handlers)
    ensures |Registered(handlers)| <= BITS
    ensures FindSlot(handlers, 0, 0) == BITS <==> |Registered(handlers)| == BITS
  {
    assert Registered(handlers).Keys == Ids(handlers);
    IdsAreUsed(handlers);
    UsedBound(handlers, BITS);
    UsedIdsCount(handlers);
  }

  lemma {:induction false} UsedIdsCount(handlers: seq<Slot>)
    requires Distinct(handlers)
    ensures |UsedIds(handlers, BITS) - {0}| <= BITS
    ensures FindSlot(handlers, 0, 0) == BITS <==> |UsedIds(handlers, BITS) - {0}| == BITS
  {
    UsedBound(handlers, BITS);
    var used, z := UsedIds(handlers, BITS), FindSlot(handlers, 0, 0);
    hide FindSlot, UsedIds;
    if z == BITS {
      UsedCount(handlers, BITS);
      assert 0 !in used && used - {0} == used;
    } else {
      assert handlers[z].id == 0;
      assert 0 in used && |used| == |used - {0}| + 1;
    }
  }

  /** What registration does to the partial map: for every id but zero, removal,
      update or insertion, refused only when 32 other ids are registered. For id zero,
      which marks empty slots, it leaves the map alone. */
  ghost function RegisterMap(m: map<nat, nat>, id: nat, handler: nat): (map<nat, nat>, Code) {
    if id == 0 then (m, if handler != 0 && |m| == BITS then Resource else Success)
    else if handler == 0 then (m - {id}, Success)
    else if id in m || |m| < BITS then (m[id := handler], Success)
    else (m, Resource)
  }

  lemma {:induction false} MapExt(a: map<nat, nat>, b: map<nat, nat>)
    requires a.Keys == b.Keys && forall x :: x in a ==> a[x] == b[x]
    ensures a == b
  {
  }

  /** One slot rewritten, all non-zero ids other than `id` untouched. */
  lemma {:induction false} OthersKept(before: seq<Slot>, after: seq<Slot>, k: nat, id: nat, other: nat)
    requires Distinct(before) && Distinct(after) && k < BITS && other != 0 && other != id
    requires after == before[k := after[k]] && before[k].id != other && after[k].id != other
    ensures other in Ids(before) <==> other in Ids(after)
    ensures HandlerOf(before, other) == HandlerOf(after, other)
  {
    hide FindSlot, Ids;
    var i, j := FindSlot(before, other, 0), FindSlot(after, other, 0);
    if i < BITS {
      assert after[i].id == other;
      SlotUnique(after, i);
    }
    if j < BITS {
      assert before[j].id == other;
      SlotUnique(before, j);
    }
  }

  lemma {:induction false} SlotHolds(handlers: seq<Slot>, k: nat)
    requires Distinct(handlers) && k < BITS && handlers[k].id != 0
    ensures handlers[k].id in Ids(handlers) && HandlerOf(handlers, handlers[k].id) == handlers[k].handler
  {
    SlotUnique(handlers, k);
  }

  lemma {:induction false} RewriteIds(before: seq<Slot>, after: seq<Slot>, k: nat, id: nat)
    requires Distinct(before) && Distinct(after) && k < BITS && id != 0 && (before[k].id == id || before[k].id == 0)
    requires after == before[k := after[k]] && (after[k].id == id || after[k].id == 0)
    requires forall i :: 0 <= i < BITS && i != k ==> before[i].id != id
    ensures Ids(after) == if after[k].id == id then Ids(before) + {id} else Ids(before) - {id}
    ensures forall other :: other in Ids(before) && other != id ==> HandlerOf(before, other) == HandlerOf(after, other)
    ensures after[k].id == id ==> HandlerOf(after, id) == after[k].handler
  {
    hide FindSlot, HandlerOf, LastSlot;
    forall other: nat | other != 0 && other != id
      ensures other in Ids(before) <==> other in Ids(after)
      ensures HandlerOf(before, other) == HandlerOf(after, other)
    {
      OthersKept(before, after, k, id, other);
    }
    if after[k].id == id {
      SlotHolds(after, k);
    } else {
      NotThere(after, id);
    }
  }

  lemma {:induction false} RegisteredAdd(before: seq<Slot>, after: seq<Slot>, id: nat)
    requires Ids(after) == Ids(before) + {id}
    requires forall x :: x in Ids(before) && x != id ==> HandlerOf(before, x) == HandlerOf(after, x)
    ensures Registered(after) == Registered(before)[id := HandlerOf(after, id)]
  {
    hide Ids, HandlerOf;
    MapExt(Registered(after), Registered(before)[id := HandlerOf(after, id)]);
  }

  lemma {:induction false} RegisteredDrop(before: seq<Slot>, after: seq<Slot>, id: nat)
    requires Ids(after) == Ids(before) - {id}
    requires forall x :: x in Ids(before) && x != id ==> HandlerOf(before, x) == HandlerOf(after, x)
    ensures Registered(after) == Registered(before) - {id}
  {
    hide Ids, HandlerOf;
    MapExt(Registered(after), Registered(before) - {id});
  }

  lemma {:induction false} RewriteSlot(before: seq<Slot>, k: nat, slot: Slot, id: nat)
    requires Distinct(before) && k < BITS && id != 0 && (before[k].id == id || before[k].id == 0)
    requires slot.id == id || slot == NO_SLOT
    requires forall i :: 0 <= i < BITS && i != k ==> before[i].id != id
    ensures Distinct(before[k := slot])
    ensures Registered(before[k := slot])
         == if slot.id == id then Registered(before)[id := slot.handler] else Registered(before) - {id}
  {
    var after := before[k := slot];
    RewriteIds(before, after, k, id);
    hide Ids, HandlerOf, Registered;
    if slot.id == id {
      RegisteredAdd(before, after, id);
    } else {
      RegisteredDrop(before, after, id);
    }
  }

  lemma {:induction false} NotThere(handlers: seq<Slot>, id: nat)
    requires |handlers| == BITS && id != 0 && forall i :: 0 <= i < BITS ==> handlers[i].id != id
    ensures id !in Ids(handlers)
  {
  }

  /** The table refines the partial map of non-zero ids. */
  lemma {:induction false} RegisterRefines(handlers: seq<Slot>, id: nat, handler: nat)
    requires Distinct(handlers)
    ensures Distinct(Register(handlers, id, handler).0)
    ensures (Registered(Register(handlers, id, handler).0), Register(handlers, id, handler).1)
         == RegisterMap(Registered(handlers), id, handler)
  {
    hide Registered, LastSlot, FindSlot;
    FullTable(handlers);
    var k, empty := LastSlot(handlers, id, BITS), FindSlot(handlers, 0, 0);
    if id == 0 {
      RegisterZero(handlers, k, handler);
    } else if k >= 0 {
      Present(handlers, k);
      RewriteSlot(handlers, k, if handler == 0 then NO_SLOT else Slot(id, handler), id);
    } else {
      Absent(handlers, id);
      if handler != 0 && empty < BITS {
        RewriteSlot(handlers, empty, Slot(id, handler), id);
      } else if handler == 0 {
        assert Registered(handlers) - {id} == Registered(handlers);
      }
    }
  }

  lemma {:induction false} Present(handlers: seq<Slot>, k: nat)
    requires Distinct(handlers) && k < BITS && handlers[k].id != 0
    ensures handlers[k].id in Registered(handlers)
    ensures forall i :: 0 <= i < BITS && i != k ==> handlers[i].id != handlers[k].id
  {
    SlotHolds(handlers, k);
  }

  lemma {:induction false} Absent(handlers: seq<Slot>, id: nat)
    requires Distinct(handlers) && id != 0 && LastSlot(handlers, id, BITS) == -1
    ensures id !in Registered(handlers) && forall i :: 0 <= i < BITS ==> handlers[i].id != id
  {
    NotThere(handlers, id);
  }

  lemma {:induction false} RegisterZero(handlers: seq<Slot>, k: int, handler: nat)
    requires Distinct(handlers) && k == LastSlot(handlers, 0, BITS)
    ensures k >= 0 <==> FindSlot(handlers, 0, 0) < BITS
    ensures k >= 0 ==>
              && Distinct(handlers[k := Slot(0, handler)])
              && Registered(handlers[k := Slot(0, handler)]) == Registered(handlers)
  {
    hide LastSlot, FindSlot;
    var z := FindSlot(handlers, 0, 0);
    assert z < BITS ==> handlers[z].id == 0;
    if k >= 0 {
      var after := handlers[k := Slot(0, handler)];
      forall other: nat | other != 0
        ensures other in Ids(handlers) <==> other in Ids(after)
        ensures HandlerOf(handlers, other) == HandlerOf(after, other)
      {
        OthersKept(handlers, after, k, 0, other);
      }
      hide HandlerOf;
      assert Registered(after).Keys == Ids(after) == Ids(handlers) == Registered(handlers).Keys;
      MapExt(Registered(after), Registered(handlers));
    }
  }

  predicate HasId(handlers: seq<Slot>, id: nat) { exists i :: 0 <= i < |handlers| && handlers[i].id == id }

  /** What a registration does to the table, slot by slot. RESOURCE is for a new id when no
      slot is empty, and changes nothing. Otherwise the id is in the table with its handler,
      or, for NULL, not at all. No other id is affected. */
  lemma {:induction false} RegisterOnTable(handlers: seq<Slot>, id: nat, handler: nat)
    requires Distinct(handlers) && id != 0
    ensures |Register(handlers, id, handler).0| == BITS
    ensures Register(handlers, id, handler).1 in {Success, Resource}
    ensures Register(handlers, id, handler).1 == Resource
            <==> handler != 0 && !HasId(handlers, id) && !HasId(handlers, 0)
    ensures Register(handlers, id, handler).1 == Resource ==> Register(handlers, id, handler).0 == handlers
    ensures Register(handlers, id, handler).1 == Success ==>
              var table := Register(handlers, id, handler).0;
              if handler == 0 then !HasId(table, id) else Slot(id, handler) in table
    ensures forall slot: Slot :: slot.id != id && slot.id != 0 ==>
              (slot in handlers <==> slot in Register(handlers, id, handler).0)
  {
    hide LastSlot, FindSlot;
    var k, empty, table := LastSlot(handlers, id, BITS), FindSlot(handlers, 0, 0), Register(handlers, id, handler).0;
    assert k >= 0 <==> HasId(handlers, id);
    assert empty < BITS <==> HasId(handlers, 0);
    if Register(handlers, id, handler).1 == Success && handler != 0 {
      var at := if k >= 0 then k else empty;
      assert table[at] == Slot(id, handler);
    }
    forall slot: Slot | slot.id != id && slot.id != 0
      ensures slot in handlers <==> slot in table
    {
      if slot in handlers {
        var i :| 0 <= i < BITS && handlers[i] == slot;
        assert table[i] == slot;
      }
      if slot in table {
        var i :| 0 <= i < BITS && table[i] == slot;
        assert handlers[i] == slot;
      }
    }
  }

  // ------------------------------------------------------------ sends and responses

  lemma {:induction false} OutstandingKeys(c: Client)
    ensures Outstanding(c).Keys == c.pool && |Outstanding(c)| == |c.pool|
  {
    assert Outstanding(c).Keys == c.pool;
  }

  lemma {:induction false} OutstandingAdd(c: Client, d: Client, b: nat, id: nat)
    requires b !in c.pool && d.pool == c.pool + {b} && IdUnder(d.history, b) == id
    requires forall x :: x in c.pool ==> IdUnder(d.history, x) == IdUnder(c.history, x)
    ensures Outstanding(d) == Outstanding(c)[b := id]
  {
    hide IdUnder;
    MapExt(Outstanding(d), Outstanding(c)[b := id]);
  }

  lemma {:induction false} OutstandingDrop(c: Client, d: Client, b: nat)
    requires d.pool == c.pool - {b}
             && forall x :: x in c.pool && x != b ==> IdUnder(d.history, x) == IdUnder(c.history, x)
    ensures Outstanding(d) == Outstanding(c) - {b}
  {
    hide IdUnder;
    MapExt(Outstanding(d), Outstanding(c) - {b});
  }

  /** AGAIN exactly when 32 requests are outstanding; a failed write leaves everything
      as it was; a send adds its id under a token that was not live. */
  lemma {:induction false} SendOutcome(c: Client, id: nat, written: bool)
    requires Inv(c)
    ensures Inv(Send(c, id, written).0) && |Outstanding(c)| <= BITS
    ensures Send(c, id, written).1 == Again <==> |Outstanding(c)| == BITS
    ensures Send(c, id, written).1 == Unknown <==> |Outstanding(c)| < BITS && !written
    ensures Send(c, id, written).1 != Success ==> Send(c, id, written).0 == c
    ensures Send(c, id, written).1 == Success ==>
              var b := ClearBit(c.pool, 0);
              b < BITS && b !in Outstanding(c) && Outstanding(Send(c, id, written).0) == Outstanding(c)[b := id]
    ensures Send(c, id, written).0.handlers == c.handlers
  {
    OutstandingKeys(c);
    PoolBound(c.pool);
    hide Outstanding, Matched, Distinct;
    if c.pool != All(BITS) {
      RoomToRecord(c.pool, c.history);
      var b, k := ClearBit(c.pool, 0), Find(c.history, {}, 0);
      NotAllSet(c.pool);
      hide ClearBit, Find, IdUnder, Cleared;
      Recorded(c.pool, c.history, b, k, id);
      RecordErase(c.pool, c.history, b, k, id);
      assert c.pool + {b} - {b} == c.pool;
      if written {
        OutstandingAdd(c, Send(c, id, written).0, b, id);
      }
    }
  }

  lemma {:induction false} NotAllSet(pool: Word)
    requires forall b :: b in pool ==> b < BITS
    ensures ClearBit(pool, 0) < BITS || pool == All(BITS)
  {
    hide ClearBit;
    assert ClearBit(pool, 0) == BITS ==> pool == All(BITS);
  }

  lemma {:induction false} ReqSlotIs(c: Client, b: nat, k: nat, i: nat)
    requires Inv(c) && b in c.pool && k < BITS && b in c.history[k].token && i <= BITS
    ensures ReqSlot(c, {b}, i) == if i <= k then FindSlot(c.handlers, c.history[k].id, 0) else BITS
    decreases BITS - i
  {
    hide FindSlot;
    if i < BITS {
      ReqSlotIs(c, b, k, i + 1);
      assert i != k ==> c.history[i].token != {b};
    }
  }

  /** The handler FindReqHandler finds is the one now registered for the id sent
      under the token. */
  lemma {:induction false} HandlerFound(c: Client, b: nat)
    requires Inv(c) && b in c.pool
    ensures var j := ReqSlot(c, {b}, 0);
            (if j < BITS then c.handlers[j].handler else 0) == HandlerOf(c.handlers, Outstanding(c)[b])
    ensures ReqSlot(c, {b}, 0) < BITS ==> c.handlers[ReqSlot(c, {b}, 0)].id == Outstanding(c)[b]
  {
    var k :| 0 <= k < BITS && b in c.history[k].token;
    ReqSlotIs(c, b, k, 0);
    FindOwn(c.pool, c.history, k, b);
  }

  lemma {:induction false} DispatchOutcome(c: Client, b: nat, reply: Reply)
    requires Inv(c) && b in c.pool
    ensures var called := if reply == Data then HandlerOf(c.handlers, Outstanding(c)[b]) else 0;
            Dispatch(c, {b}, reply)
            == (if called != 0 && c.delHandler then Register(c.handlers, Outstanding(c)[b], 0).0 else c.handlers,
                c.delHandler && called == 0, Output(if reply == Truncated then Io else Success, called))
  {
    HandlerFound(c, b);
    hide ReqSlot, Register, HandlerOf, Matched, Distinct, Outstanding;
  }

  /** A response to a live token runs the handler registered for its id, frees that
      token and nothing else, and leaves every other (token, id) pair where it was. */
  lemma {:induction false} RespondOutcome(c: Client, b: nat, reply: Reply)
    requires Inv(c) && b in c.pool
    ensures var (d, out) := Respond(c, {b}, reply);
            && Inv(d) && Outstanding(d) == Outstanding(c) - {b}
            && out == Output(if reply == Truncated then Io else Success,
                             if reply == Data then HandlerOf(c.handlers, Outstanding(c)[b]) else 0)
            && (forall i :: 0 <= i < BITS && b !in c.history[i].token ==> d.history[i] == c.history[i])
            && d.handlers
               == (if out.called != 0 && c.delHandler then Register(c.handlers, Outstanding(c)[b], 0).0 else c.handlers)
            && d.delHandler == (c.delHandler && out.called == 0)
  {
    assert IsValidToken(c.pool, {b});
    Erased(c.pool, c.history, b);
    DispatchOutcome(c, b, reply);
    RegisterRefines(c.handlers, Outstanding(c)[b], 0);
    hide Dispatch, Register, Cleared, IdUnder, HandlerOf, Matched, Distinct, Registered, Outstanding;
    OutstandingDrop(c, Respond(c, {b}, reply).0, b);
  }

  /** A response is refused, and changes nothing, if and only if its token is zero or has a
      bit that is not live. */
  lemma {:induction false} RefusedIff(c: Client, token: Word, reply: Reply)
    requires Inv(c)
    ensures Respond(c, token, reply).1.code == Inval <==> token == {} || exists b :: b in token && b !in c.pool
    ensures Respond(c, token, reply).1.code == Inval ==> Respond(c, token, reply) == (c, Output(Inval, 0))
  {
    hide ReqSlot, Register, Cleared;
    if !(token <= c.pool) {
      var b :| b in token && b !in c.pool;
    }
  }

  /** IsValidToken also accepts several live bits at once. The bijection survives a
      response if and only if its token is not such a union. */
  lemma {:induction false} RespondKeepsIff(c: Client, token: Word, reply: Reply)
    requires Inv(c)
    ensures Matched(Respond(c, token, reply).0.pool, Respond(c, token, reply).0.history)
            <==> !(token <= c.pool && |token| >= 2)
  {
    var d := Respond(c, token, reply).0;
    if IsValidToken(c.pool, token) {
      var b :| b in token;
      if token == {b} {
        RespondOutcome(c, b, reply);
      } else {
        var rest := token - {b};
        assert rest != {} && |token| == |rest| + 1;
        var k :| 0 <= k < BITS && b in c.history[k].token;
        hide Respond;
        UnionStays(c, token, reply, b, k);
      }
    }
  }

  lemma {:induction false} UnionStays(c: Client, token: Word, reply: Reply, b: nat, k: nat)
    requires Inv(c) && IsValidToken(c.pool, token) && b in token && token != {b} && k < BITS && b in c.history[k].token
    ensures b !in Respond(c, token, reply).0.pool && b in Respond(c, token, reply).0.history[k].token
  {
    hide Dispatch;
  }

  // -------------------------------------------------------------------------- runs

  /** AskRemoval is what GetMute does before it sends: the next handler that runs is
      removed afterwards, whichever it is. A response echoes one bit, live or not. */
  datatype Op =
    | SendOp(id: nat, written: bool)
    | ResponseOp(b: nat, reply: Reply)
    | RegisterOp(id: nat, handler: nat)
    | AskRemoval

  predicate Proper(op: Op) { op.SendOp? ==> op.id != 0 }

  ghost function Step(c: Client, op: Op): (Client, Output)
    requires |c.handlers| == BITS
  {
    match op
    case SendOp(id, written) => var r := Send(c, id, written); (r.0, Output(r.1, 0))
    case ResponseOp(b, reply) => Respond(c, {b}, reply)
    case RegisterOp(id, handler) => var r := Register(c.handlers, id, handler); (c.(handlers := r.0), Output(r.1, 0))
    case AskRemoval => (c.(delHandler := true), Output(Success, 0))
  }

  /** The client as its users see it: requests by token, handlers by id. */
  datatype View = View(outstanding: map<nat, nat>, registered: map<nat, nat>, delHandler: bool)

  ghost function Seen(c: Client): View { View(Outstanding(c), Registered(c.handlers), c.delHandler) }

  function Lookup(m: map<nat, nat>, id: nat): nat { if id in m then m[id] else 0 }

  ghost function ViewStep(v: View, op: Op): (View, Output) {
    match op
    case SendOp(id, written) =>
      if |v.outstanding| == BITS then (v, Output(Again, 0))
      else if !written then (v, Output(Unknown, 0))
      else (v.(outstanding := v.outstanding[ClearBit(v.outstanding.Keys, 0) := id]), Output(Success, 0))
    case ResponseOp(b, reply) =>
      if b !in v.outstanding then (v, Output(Inval, 0))
      else
        var called := if reply == Data then Lookup(v.registered, v.outstanding[b]) else 0;
        var removed := called != 0 && v.delHandler;
        (View(v.outstanding - {b}, if removed then v.registered - {v.outstanding[b]} else v.registered,
              v.delHandler && called == 0),
         Output(if reply == Truncated then Io else Success, called))
    case RegisterOp(id, handler) =>
      var r := RegisterMap(v.registered, id, handler);
      (v.(registered := r.0), Output(r.1, 0))
    case AskRemoval => (v.(delHandler := true), Output(Success, 0))
  }

  ghost predicate NonZeroIds(c: Client) { forall b :: b in Outstanding(c) ==> Outstanding(c)[b] != 0 }

  lemma {:induction false} LookupIs(handlers: seq<Slot>, id: nat)
    requires id != 0
    ensures HandlerOf(handlers, id) == Lookup(Registered(handlers), id)
  {
    hide FindSlot;
  }

  lemma {:induction false} SendRefines(c: Client, id: nat, written: bool)
    requires Inv(c) && NonZeroIds(c) && id != 0
    ensures Inv(Step(c, SendOp(id, written)).0) && NonZeroIds(Step(c, SendOp(id, written)).0)
    ensures (Seen(Step(c, SendOp(id, written)).0), Step(c, SendOp(id, written)).1)
            == ViewStep(Seen(c), SendOp(id, written))
  {
    hide Inv, Outstanding, Send, ClearBit, Registered;
    SendOutcome(c, id, written);
    OutstandingKeys(c);
    SendKeepsFlag(c, id, written);
  }

  lemma {:induction false} SendKeepsFlag(c: Client, id: nat, written: bool)
    ensures Send(c, id, written).0.delHandler == c.delHandler
    ensures Send(c, id, written).1 in {Success, Again, Unknown}
  {
  }

  lemma {:induction false} ResponseRefines(c: Client, b: nat, reply: Reply)
    requires Inv(c) && NonZeroIds(c)
    ensures Inv(Step(c, ResponseOp(b, reply)).0) && NonZeroIds(Step(c, ResponseOp(b, reply)).0)
    ensures (Seen(Step(c, ResponseOp(b, reply)).0), Step(c, ResponseOp(b, reply)).1)
            == ViewStep(Seen(c), ResponseOp(b, reply))
  {
    hide Inv, Outstanding, Respond, HandlerOf, Register, Registered;
    OutstandingKeys(c);
    InvParts(c);
    if b in c.pool {
      RespondOutcome(c, b, reply);
      var id := Outstanding(c)[b];
      LookupIs(c.handlers, id);
      RegisterRefines(c.handlers, id, 0);
    } else {
      NotLive(c, b, reply);
    }
  }

  lemma {:induction false} NotLive(c: Client, b: nat, reply: Reply)
    requires |c.handlers| == BITS && b !in c.pool
    ensures Respond(c, {b}, reply) == (c, Output(Inval, 0))
  {
    assert b in {b};
  }

  lemma {:induction false} InvParts(c: Client)
    requires Inv(c)
    ensures Distinct(c.handlers) && |c.handlers| == BITS
  {
  }

  lemma {:induction false} RegisterKeeps(c: Client, id: nat, handler: nat)
    requires Inv(c) && NonZeroIds(c)
    ensures Inv(Step(c, RegisterOp(id, handler)).0) && NonZeroIds(Step(c, RegisterOp(id, handler)).0)
    ensures (Seen(Step(c, RegisterOp(id, handler)).0), Step(c, RegisterOp(id, handler)).1)
            == ViewStep(Seen(c), RegisterOp(id, handler))
  {
    RegisterRefines(c.handlers, id, handler);
    hide Register, Registered, Matched, Distinct, IdUnder;
    var d := Step(c, RegisterOp(id, handler)).0;
    assert Outstanding(d) == Outstanding(c);
  }

  /** Every operation does to the tables what it should do to the two maps, and
      returns what they determine. */
  lemma {:induction false} StepRefines(c: Client, op: Op)
    requires Inv(c) && NonZeroIds(c) && Proper(op)
    ensures Inv(Step(c, op).0) && NonZeroIds(Step(c, op).0)
    ensures (Seen(Step(c, op).0), Step(c, op).1) == ViewStep(Seen(c), op)
  {
    hide NonZeroIds, Seen, ViewStep;
    match op
    case SendOp(id, written) => SendRefines(c, id, written);
    case ResponseOp(b, reply) => ResponseRefines(c, b, reply);
    case RegisterOp(id, handler) => RegisterKeeps(c, id, handler);
    case AskRemoval => AskKeeps(c);
  }

  lemma {:induction false} AskKeeps(c: Client)
    requires Inv(c) && NonZeroIds(c)
    ensures Inv(Step(c, AskRemoval).0) && NonZeroIds(Step(c, AskRemoval).0)
    ensures (Seen(Step(c, AskRemoval).0), Step(c, AskRemoval).1) == ViewStep(Seen(c), AskRemoval)
  {
    InvParts(c);
    hide Registered, Matched, Distinct, IdUnder;
    assert Outstanding(Step(c, AskRemoval).0) == Outstanding(c);
  }

  function Fresh(): Client {
    Client({}, seq(BITS, _ => NO_ENTRY), seq(BITS, _ => NO_SLOT), false)
  }

  lemma {:induction false} FreshHolds()
    ensures Inv(Fresh()) && Seen(Fresh()) == View(map[], map[], false) && NonZeroIds(Fresh())
  {
    assert Outstanding(Fresh()) == map[];
    assert Registered(Fresh().handlers) == map[];
  }

  /** A run of the client, and what it returned. */
  ghost predicate RunsTo(ops: seq<Op>, outs: seq<Output>, c: Client)
    decreases |ops|
  {
    if ops == [] then outs == [] && c == Fresh()
    else
      var n := |ops| - 1;
      |outs| == |ops| && Proper(ops[n]) &&
      exists m: Client :: |m.handlers| == BITS && RunsTo(ops[..n], outs[..n], m) && (c, outs[n]) == Step(m, ops[n])
  }

  ghost predicate ViewRunsTo(ops: seq<Op>, outs: seq<Output>, v: View)
    decreases |ops|
  {
    if ops == [] then outs == [] && v == View(map[], map[], false)
    else
      var n := |ops| - 1;
      |outs| == |ops| && exists m :: ViewRunsTo(ops[..n], outs[..n], m) && (v, outs[n]) == ViewStep(m, ops[n])
  }

  /** In every run in which responses echo one token bit, the set bits of the pool
      are exactly the history tokens, each once, and the client behaves, output for
      output, like the two maps: in particular AGAIN is returned exactly when 32
      requests are outstanding and recording a request never fails. */
  lemma {:induction false} EveryRun(ops: seq<Op>, outs: seq<Output>, c: Client)
    requires RunsTo(ops, outs, c)
    ensures Inv(c) && NonZeroIds(c) && ViewRunsTo(ops, outs, Seen(c))
    decreases |ops|
  {
    hide Inv, NonZeroIds, Seen, Step, ViewStep;
    if ops == [] {
      FreshHolds();
    } else {
      var n := |ops| - 1;
      var m: Client :| |m.handlers| == BITS && RunsTo(ops[..n], outs[..n], m) && (c, outs[n]) == Step(m, ops[n]);
      EveryRun(ops[..n], outs[..n], m);
      StepRefines(m, ops[n]);
    }
  }

  /** GetMute on an open connection: it asks for removal first, and a failed send takes
      its own registration back but not that. */
  ghost function GetMute(c: Client, handler: nat, written: bool): (Client, Code)
    requires |c.handlers| == BITS
  {
    var asked := c.(delHandler := true, handlers := Register(c.handlers, GET_CALL_MUTE, handler).0);
    SendKeepsTable(asked, GET_CALL_MUTE, written);
    var sent := Send(asked, GET_CALL_MUTE, written);
    if sent.1 == Success then sent
    else (sent.0.(handlers := Register(sent.0.handlers, GET_CALL_MUTE, 0).0), sent.1)
  }

  lemma {:induction false} SendKeepsTable(c: Client, id: nat, written: bool)
    ensures Send(c, id, written).0.handlers == c.handlers
  {
  }

  // --------------------------------------------------------------------- the code

  class RilClientPrv {
    var tokenPool: Word
    const history: array<Entry>
    const reqHandlers: array<Slot>
    var delHandler: bool

    ghost predicate Valid()
      reads this
    {
      history.Length == BITS == reqHandlers.Length && forall b :: b in tokenPool ==> b < BITS
    }

    ghost function Value(): (c: Client)
      requires Valid()
      reads this, history, reqHandlers
      ensures |c.history| == BITS == |c.handlers|
    {
      Client(tokenPool, history[..], reqHandlers[..], delHandler)
    }

    constructor ()
      ensures Valid() && fresh(history) && fresh(reqHandlers) && Value() == Fresh()
    {
      tokenPool, delHandler := {}, false;
      history := new Entry[BITS](_ => NO_ENTRY);
      reqHandlers := new Slot[BITS](_ => NO_SLOT);
    }

    method AllocateToken() returns (token: Word)
      requires Valid()
      modifies this`tokenPool
      ensures Valid()
      ensures if old(tokenPool) == All(BITS) then token == {} && tokenPool == old(tokenPool)
              else token == {ClearBit(old(tokenPool), 0)} && tokenPool == old(tokenPool) + token
    {
      hide ClearBit;
      NotAllSet(tokenPool);
      if tokenPool == All(BITS) {
        return {};
      }
      for i := 0 to BITS
        invariant forall k :: 0 <= k < i ==> k in tokenPool
        invariant tokenPool == old(tokenPool)
      {
        if i !in tokenPool {
          assert ClearBit(tokenPool, 0) == i;
          tokenPool := tokenPool + {i};
          return {i};
        }
      }
      assert false;
    }

    method FreeToken(token: Word)
      requires Valid()
      modifies this`tokenPool
      ensures Valid() && tokenPool == old(tokenPool) - token
    {
      tokenPool := tokenPool - token;
    }

    method RecordReqHistory(token: Word, id: nat) returns (code: Code)
      requires Valid()
      modifies history
      ensures var k := Find(old(history[..]), {}, 0);
              if k < BITS then code == Success && history[..] == old(history[..])[k := Entry(token, id)]
              else code == Resource && history[..] == old(history[..])
    {
      hide Find;
      for i := 0 to BITS
        invariant history[..] == old(history[..]) && forall k :: 0 <= k < i ==> history[k].token != {}
      {
        if history[i].token == {} {
          assert Find(history[..], {}, 0) == i;
          history[i] := Entry(token, id);
          return Success;
        }
      }
      assert Find(history[..], {}, 0) == BITS;
      code := Resource;
    }

    method ClearReqHistory(token: Word)
      requires Valid()
      modifies history
      ensures history[..] == Cleared(old(history[..]), token)
    {
      hide Find;
      for i := 0 to BITS
        invariant history[..] == old(history[..]) && forall k :: 0 <= k < i ==> history[k].token != token
      {
        if history[i].token == token {
          assert Find(history[..], token, 0) == i;
          history[i] := NO_ENTRY;
          return;
        }
      }
      assert Find(history[..], token, 0) == BITS;
    }

    /** The inner loop of FindReqHandler. */
    method SearchHandlers(id: nat) returns (j: nat)
      requires Valid()
      ensures j == FindSlot(reqHandlers[..], id, 0)
    {
      hide FindSlot;
      j := 0;
      while j < BITS && reqHandlers[j].id != id
        invariant j <= BITS && forall k :: 0 <= k < j ==> reqHandlers[k].id != id
      {
        j := j + 1;
      }
      assert forall k :: 0 <= k < BITS ==> reqHandlers[..][k] == reqHandlers[k];
    }

    /** FindReqHandler: the slot of the handler, BITS for NULL. */
    method FindReqHandler(token: Word) returns (slot: nat)
      requires Valid()
      ensures slot == ReqSlot(Value(), token, 0)
    {
      hide FindSlot;
      for i := 0 to BITS
        invariant ReqSlot(Value(), token, 0) == ReqSlot(Value(), token, i)
      {
        if history[i].token == token {
          var j := SearchHandlers(history[i].id);
          if j < BITS {
            return j;
          }
        }
      }
      slot := BITS;
    }

    method RegisterRequestCompleteHandler(id: nat, handler: nat) returns (code: Code)
      requires Valid()
      modifies reqHandlers
      ensures Valid() && (reqHandlers[..], code) == Register(old(reqHandlers[..]), id, handler)
    {
      hide FindSlot, LastSlot;
      var matchSlot, firstEmptySlot := -1, -1;
      for i := 0 to BITS
        invariant -1 <= matchSlot < i && (matchSlot >= 0 ==> reqHandlers[matchSlot].id == id)
        invariant forall k :: matchSlot < k < i ==> reqHandlers[k].id != id
        invariant -1 <= firstEmptySlot < i && (firstEmptySlot >= 0 ==> reqHandlers[firstEmptySlot].id == 0)
        invariant forall k :: 0 <= k < (if firstEmptySlot >= 0 then firstEmptySlot else i) ==> reqHandlers[k].id != 0
        invariant reqHandlers[..] == old(reqHandlers[..])
      {
        if id == reqHandlers[i].id {
          matchSlot := i;
        }
        if firstEmptySlot == -1 && reqHandlers[i].id == 0 {
          firstEmptySlot := i;
        }
      }
      assert matchSlot == LastSlot(reqHandlers[..], id, BITS);
      assert FindSlot(reqHandlers[..], 0, 0) == if firstEmptySlot >= 0 then firstEmptySlot else BITS;
      if handler == 0 {
        if matchSlot >= 0 {
          reqHandlers[matchSlot] := NO_SLOT;
        }
      } else if matchSlot >= 0 {
        reqHandlers[matchSlot] := reqHandlers[matchSlot].(handler := handler);
      } else if firstEmptySlot >= 0 {
        reqHandlers[firstEmptySlot] := Slot(id, handler);
      } else {
        return Resource;
      }
      code := Success;
    }

    /** `written` says whether both writes to the socket succeed. */
    method SendOemRequestHookRaw(id: nat, written: bool) returns (code: Code)
      requires Valid()
      modifies this`tokenPool, history
      ensures Valid() && (Value(), code) == Send(old(Value()), id, written)
    {
      hide Find, ClearBit, Cleared;
      var token := AllocateToken();
      if token == {} {
        return Again;
      }
      var recorded := RecordReqHistory(token, id);
      if recorded == Success && written {
        return Success;
      }
      FreeToken(token);
      ClearReqHistory(token);
      code := Unknown;
    }

    /** GetMute, once the connection is known to be open. */
    method RequestMute(handler: nat, written: bool) returns (code: Code)
      requires Valid()
      modifies this`tokenPool, this`delHandler, history, reqHandlers
      ensures Valid() && (Value(), code) == GetMute(old(Value()), handler, written)
    {
      hide Register, Send;
      delHandler := true;
      var _ := RegisterRequestCompleteHandler(GET_CALL_MUTE, handler);
      SendKeepsTable(Value(), GET_CALL_MUTE, written);
      code := SendOemRequestHookRaw(GET_CALL_MUTE, written);
      if code != Success {
        var _ := RegisterRequestCompleteHandler(GET_CALL_MUTE, 0);
      }
    }

    /** processSolicited: `called` is the handler run, 0 for none. */
    method ProcessSolicited(token: Word, reply: Reply) returns (out: Output)
      requires Valid()
      modifies this`tokenPool, this`delHandler, history, reqHandlers
      ensures Valid() && (Value(), out) == Respond(old(Value()), token, reply)
    {
      hide ReqSlot, Register, Cleared;
      if !IsValidToken(tokenPool, token) {
        return Output(Inval, 0);
      }
      var code, called := Success, 0;
      if reply == Truncated {
        code := Io;
      } else if reply == Data {
        var slot := FindReqHandler(token);
        if slot < BITS && reqHandlers[slot].handler != 0 {
          called := reqHandlers[slot].handler;
          if delHandler {
            delHandler := false;
            var _ := RegisterRequestCompleteHandler(reqHandlers[slot].id, 0);
          }
        }
      }
      FreeToken(token);
      ClearReqHistory(token);
      out := Output(code, called);
    }
  }
}
