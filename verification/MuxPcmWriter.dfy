/** The windowed PCM writer of audio/sc8830/audio_mux_pcm.c: at most 3072 bytes are in
    the pipe unacknowledged; when the window is full the writer waits for acks.

    The pipe and the other side are two lists: what the successive write calls return,
    and what the successive ack reads return, negative for a failed read or a foreign
    command. A list that has run out is a side that no longer answers.
 */
module MuxPcmWriter {

  const WINDOW: nat := 3072      // AUDIO_PLAYBACK_BUFFER

  datatype Peer = Peer(writes: seq<int>, acks: seq<int>)

  // ------------------------------------------------------------------ waiting

  /** What mux_write_wait_response leaves: the bytes still waited for, the acks not
      read, and whether it returned 0. */
  datatype Waited = Waited(left: nat, acks: seq<int>, ok: bool)

  function Wait(toWait: nat, acks: seq<int>): (w: Waited)
    ensures w.left <= toWait && (w.ok <==> w.left == 0)
    decreases |acks|
  {
    if toWait == 0 then Waited(0, acks, true)
    else if acks == [] then Waited(toWait, [], false)
    else if acks[0] < 0 then Waited(toWait, acks[1..], false)
    else if acks[0] <= toWait then Wait(toWait - acks[0], acks[1..])
    else Wait(toWait, acks[1..])
  }

  /** The sum of the acks accepted on the way: those no larger than what is still
      waited for when they come. */
  function Acknowledged(toWait: nat, acks: seq<int>): nat
    decreases |acks|
  {
    if toWait == 0 || acks == [] || acks[0] < 0 then 0
    else if acks[0] <= toWait then acks[0] + Acknowledged(toWait - acks[0], acks[1..])
    else Acknowledged(toWait, acks[1..])
  }

  lemma {:induction false} WaitAccounts(toWait: nat, acks: seq<int>)
    ensures toWait == Wait(toWait, acks).left + Acknowledged(toWait, acks)
    decreases |acks|
  {
    if toWait > 0 && acks != [] && acks[0] >= 0 {
      WaitAccounts(if acks[0] <= toWait then toWait - acks[0] else toWait, acks[1..]);
    }
  }

  predicate NothingUsable(toWait: nat, acks: seq<int>) {
    forall k :: 0 <= k < FirstNegative(acks) ==> acks[k] == 0 || acks[k] > toWait
  }

  /** A wait accepts nothing if and only if every ack up to the first failed read is
      zero or too large. */
  lemma {:induction false} AcceptsNothingIff(toWait: nat, acks: seq<int>)
    requires toWait > 0
    ensures Acknowledged(toWait, acks) == 0 <==> NothingUsable(toWait, acks)
    decreases |acks|
  {
    if acks != [] && acks[0] >= 0 {
      AcceptsNothingIff(toWait, acks[1..]);
      assert forall k :: 0 < k < FirstNegative(acks) ==> acks[1..][k - 1] == acks[k];
      assert forall k :: 0 <= k < FirstNegative(acks[1..]) ==> acks[1..][k] == acks[k + 1];
    }
  }

  function FirstNegative(acks: seq<int>): (n: nat)
    ensures n <= |acks| && (n < |acks| ==> acks[n] < 0) && forall k :: 0 <= k < n ==> acks[k] >= 0
  {
    if acks == [] || acks[0] < 0 then 0 else 1 + FirstNegative(acks[1..])
  }

  lemma {:induction false} WaitStep(toWait: nat, acks: seq<int>)
    requires toWait > 0 && acks != [] && acks[0] >= 0
    ensures Wait(toWait, acks) == Wait(if acks[0] <= toWait then toWait - acks[0] else toWait, acks[1..])
    ensures Wait(toWait, []).left == toWait
  {
  }

  /** An ack for more than is still waited for when it comes changes nothing. */
  lemma {:induction false} OversizedAckIgnored(toWait: nat, before: seq<int>, a: int, after: seq<int>)
    requires FirstNegative(before) == |before|
    requires 0 < Wait(toWait, before).left < a
    ensures Wait(toWait, before + [a] + after) == Wait(toWait, before + after)
    decreases |before|
  {
    hide Wait;
    var with, without := before + [a] + after, before + after;
    if before == [] {
      assert with[0] == a && with[1..] == after == without;
      WaitStep(toWait, with);
    } else {
      assert with[0] == before[0] == without[0];
      assert with[1..] == before[1..] + [a] + after && without[1..] == before[1..] + after;
      WaitStep(toWait, before);
      WaitStep(toWait, with);
      WaitStep(toWait, without);
      OversizedAckIgnored(if before[0] <= toWait then toWait - before[0] else toWait, before[1..], a, after);
    }
  }

  /** A wait that succeeds reads no ack too many: the last one it reads completes it. */
  lemma {:induction false} ServedWaitReads(toWait: nat, acks: seq<int>) returns (n: nat)
    requires toWait > 0 && Wait(toWait, acks).ok
    ensures 0 < n <= |acks| && Wait(toWait, acks).acks == acks[n..]
    ensures Acknowledged(toWait, acks[..n - 1]) < toWait == Acknowledged(toWait, acks[..n])
    decreases |acks|
  {
    hide Wait, Acknowledged;
    WaitParts(toWait, acks);
    if acks[0] == toWait {
      n := 1;
      assert acks[..1][1..] == [];
      AcknowledgedParts(toWait, acks[..1]);
      AcknowledgedParts(toWait, acks[..0]);
      AcknowledgedParts(0, []);
    } else {
      var rest := if acks[0] <= toWait then toWait - acks[0] else toWait;
      var m := ServedWaitReads(rest, acks[1..]);
      n := m + 1;
      assert acks[..n][1..] == acks[1..][..m];
      AcknowledgedParts(toWait, acks[..n]);
      AcknowledgedParts(toWait, acks[..n - 1]);
      if m > 0 {
        assert acks[..n - 1][1..] == acks[1..][..m - 1];
      }
    }
  }

  /** One that fails reads up to the first failed read, or all there are. */
  lemma {:induction false} FailedWaitReads(toWait: nat, acks: seq<int>)
    requires !Wait(toWait, acks).ok
    ensures Wait(toWait, acks).acks == if FirstNegative(acks) < |acks| then acks[FirstNegative(acks) + 1..] else []
    decreases |acks|
  {
    if acks != [] && acks[0] >= 0 {
      FailedWaitReads(if acks[0] <= toWait then toWait - acks[0] else toWait, acks[1..]);
    }
  }

  lemma {:induction false} WaitParts(toWait: nat, acks: seq<int>)
    requires toWait > 0 && Wait(toWait, acks).ok
    ensures acks != [] && acks[0] >= 0
    ensures acks[0] == toWait ==> Wait(toWait, acks).acks == acks[1..]
    ensures acks[0] != toWait ==>
              var w := Wait(if acks[0] <= toWait then toWait - acks[0] else toWait, acks[1..]);
              w.ok && w.acks == Wait(toWait, acks).acks
  {
  }

  lemma {:induction false} AcknowledgedParts(toWait: nat, acks: seq<int>)
    ensures Acknowledged(toWait, acks)
         == if toWait == 0 || acks == [] || acks[0] < 0 then 0
            else if acks[0] <= toWait then acks[0] + Acknowledged(toWait - acks[0], acks[1..])
            else Acknowledged(toWait, acks[1..])
  {
  }

  // ------------------------------------------------------------------ one call

  /** The loop of mux_pcm_write: bytes handed to the pipe, bytes acknowledged, whether it
      ended with a failed wait, and how much that wait had accepted. */
  datatype Transfer = Transfer(sent: nat, acked: nat, bytesWritten: nat, peer: Peer, failed: bool, lastAcked: nat)

  function Min(a: int, b: int): int { if a < b then a else b }

  function Run(bytesWritten: nat, left: nat, peer: Peer): (t: Transfer)
    requires bytesWritten <= WINDOW
    ensures t.bytesWritten <= WINDOW && t.sent <= left
    ensures t.bytesWritten == bytesWritten + t.sent - t.acked
    ensures t.failed ==> t.sent > 0 && t.bytesWritten > 0 && t.bytesWritten + t.lastAcked == WINDOW
    ensures !t.failed && bytesWritten < WINDOW ==> t.bytesWritten < WINDOW
    decreases left
  {
    var sendlen := Min(left, WINDOW - bytesWritten);
    if left == 0 then Transfer(0, 0, bytesWritten, peer, false, 0)
    else if peer.writes == [] then Transfer(0, 0, bytesWritten, peer, false, 0)
    else
      var bytes := Min(peer.writes[0], sendlen);
      var rest := peer.(writes := peer.writes[1..]);
      if bytes <= 0 then Transfer(0, 0, bytesWritten, rest, false, 0)
      else if bytesWritten + bytes < WINDOW then
        var t := Run(bytesWritten + bytes, left - bytes, rest);
        t.(sent := bytes + t.sent)
      else
        var w, acked := Wait(WINDOW, rest.acks), Acknowledged(WINDOW, rest.acks);
        WaitAccounts(WINDOW, rest.acks);
        if !w.ok then Transfer(bytes, acked, w.left, rest.(acks := w.acks), true, acked)
        else
          var t := Run(0, left - bytes, rest.(acks := w.acks));
          t.(sent := bytes + t.sent, acked := acked + t.acked)
  }

  lemma {:induction false} RunDone(bytesWritten: nat, peer: Peer)
    requires bytesWritten <= WINDOW
    ensures Run(bytesWritten, 0, peer) == Transfer(0, 0, bytesWritten, peer, false, 0)
  {
  }

  /** One turn of the loop. */
  lemma {:induction false} RunStep(bytesWritten: nat, left: nat, peer: Peer)
    requires bytesWritten <= WINDOW && left > 0
    ensures var t := Run(bytesWritten, left, peer);
            if peer.writes == [] then t == Transfer(0, 0, bytesWritten, peer, false, 0)
            else
              var bytes := Min(peer.writes[0], Min(left, WINDOW - bytesWritten));
              var rest := peer.(writes := peer.writes[1..]);
              if bytes <= 0 then t == Transfer(0, 0, bytesWritten, rest, false, 0)
              else if bytesWritten + bytes < WINDOW then
                var u := Run(bytesWritten + bytes, left - bytes, rest); t == u.(sent := bytes + u.sent)
              else
                var w, acked := Wait(WINDOW, rest.acks), Acknowledged(WINDOW, rest.acks);
                if !w.ok then t == Transfer(bytes, acked, w.left, rest.(acks := w.acks), true, acked)
                else var u := Run(0, left - bytes, rest.(acks := w.acks));
                     t == u.(sent := bytes + u.sent, acked := acked + u.acked)
  {
  }

  function Returned(t: Transfer): int { if t.failed then -1 else t.sent }

  // ------------------------------------------------------------------ many calls

  /** The count and the peer a call starts from. */
  function Before(results: seq<Transfer>, bytesWritten: nat, peer: Peer): (nat, Peer) {
    if results == [] then (bytesWritten, peer) else (results[|results| - 1].bytesWritten, results[|results| - 1].peer)
  }

  /** A history of calls: the data of each, and what became of it. */
  ghost predicate Calls(datas: seq<seq<int>>, results: seq<Transfer>, bytesWritten: nat, peer: Peer) {
    if datas == [] then results == []
    else
      var n := |datas| - 1;
      && |results| == |datas| && Calls(datas[..n], results[..n], bytesWritten, peer)
      && var b := Before(results[..n], bytesWritten, peer); b.0 <= WINDOW && results[n] == Run(b.0, |datas[n]|, b.1)
  }

  /** What reached the pipe, call after call. */
  ghost function Pipe(datas: seq<seq<int>>, results: seq<Transfer>): seq<int>
    requires |datas| == |results| && forall k :: 0 <= k < |datas| ==> results[k].sent <= |datas[k]|
  {
    if datas == [] then []
    else
      var n := |datas| - 1;
      Pipe(datas[..n], results[..n]) + datas[n][..results[n].sent]
  }

  ghost function Accepted(results: seq<Transfer>): nat {
    if results == [] then 0 else Accepted(results[..|results| - 1]) + results[|results| - 1].acked
  }

  /** How often a call fills the window if every wait succeeds: a matter of the writes. */
  function Fills(bytesWritten: nat, left: nat, writes: seq<int>): nat
    requires bytesWritten <= WINDOW
    decreases |writes|
  {
    if left == 0 || writes == [] then 0
    else
      var bytes := Min(writes[0], Min(left, WINDOW - bytesWritten));
      if bytes <= 0 then 0
      else if bytesWritten + bytes < WINDOW then Fills(bytesWritten + bytes, left - bytes, writes[1..])
      else 1 + Fills(0, left - bytes, writes[1..])
  }

  lemma {:induction false} WaitReads(acks: seq<int>, toWait: nat)
    requires toWait > 0 && Wait(toWait, acks).ok
    ensures |Wait(toWait, acks).acks| < |acks|
    decreases |acks|
  {
    if acks[0] >= 0 && acks[0] != toWait {
      WaitReads(acks[1..], if acks[0] <= toWait then toWait - acks[0] else toWait);
    }
  }

  /** How many waits for a whole window the acks can serve, and the acks that then remain. */
  function Serves(acks: seq<int>): (r: (nat, seq<int>))
    decreases |acks|
  {
    var w := Wait(WINDOW, acks);
    if !w.ok then (0, acks)
    else
      WaitReads(acks, WINDOW);
      var r := Serves(w.acks);
      (1 + r.0, r.1)
  }

  /** The call fills the window more often than the acks serve it, and of the acks that are
      left up to the first failed read none is of use. */
  predicate RunsDry(bytesWritten: nat, left: nat, peer: Peer)
    requires bytesWritten <= WINDOW
  {
    Serves(peer.acks).0 < Fills(bytesWritten, left, peer.writes) && NothingUsable(WINDOW, Serves(peer.acks).1)
  }

  lemma {:induction false} DryIff(bytesWritten: nat, left: nat, peer: Peer)
    requires bytesWritten <= WINDOW
    ensures Run(bytesWritten, left, peer).failed && Run(bytesWritten, left, peer).lastAcked == 0
            <==> RunsDry(bytesWritten, left, peer)
    decreases left
  {
    hide Run, Wait, Acknowledged, NothingUsable;
    if left == 0 {
      RunDone(bytesWritten, peer);
    } else {
      RunStep(bytesWritten, left, peer);
      if peer.writes != [] {
        var bytes := Min(peer.writes[0], Min(left, WINDOW - bytesWritten));
        var rest := peer.(writes := peer.writes[1..]);
        if bytes > 0 {
          if bytesWritten + bytes < WINDOW {
            DryIff(bytesWritten + bytes, left - bytes, rest);
          } else if Wait(WINDOW, peer.acks).ok {
            DryIff(0, left - bytes, rest.(acks := Wait(WINDOW, peer.acks).acks));
          } else {
            AcceptsNothingIff(WINDOW, peer.acks);
          }
        }
      }
    }
  }

  /** A call reports -1 if and only if it fills the window more often than the acks serve
      it; otherwise it reports how much of its data has reached the pipe. */
  lemma {:induction false} ReportsIff(bytesWritten: nat, left: nat, peer: Peer)
    requires bytesWritten <= WINDOW
    ensures Returned(Run(bytesWritten, left, peer))
         == if Serves(peer.acks).0 < Fills(bytesWritten, left, peer.writes) then -1
            else Run(bytesWritten, left, peer).sent
    decreases left
  {
    hide Run, Wait, Acknowledged;
    if left == 0 {
      RunDone(bytesWritten, peer);
    } else {
      RunStep(bytesWritten, left, peer);
      if peer.writes != [] {
        var bytes := Min(peer.writes[0], Min(left, WINDOW - bytesWritten));
        var rest := peer.(writes := peer.writes[1..]);
        if bytes > 0 {
          if bytesWritten + bytes < WINDOW {
            ReportsIff(bytesWritten + bytes, left - bytes, rest);
          } else if Wait(WINDOW, peer.acks).ok {
            ReportsIff(0, left - bytes, rest.(acks := Wait(WINDOW, peer.acks).acks));
          }
        }
      }
    }
  }

  /** A call that starts with room in the window leaves it full if and only if it fills it
      more often than the acks serve it and nothing usable is left among them: a condition
      on its data and the peer's writes and acks. */
  lemma {:induction false} FillsTheWindowIff(bytesWritten: nat, left: nat, peer: Peer)
    requires bytesWritten < WINDOW
    ensures Run(bytesWritten, left, peer).bytesWritten == WINDOW <==> RunsDry(bytesWritten, left, peer)
  {
    hide Run, RunsDry;
    DryIff(bytesWritten, left, peer);
  }

  /** What call k of a history reports: -1 exactly if it fills the window more often than the
      acks it finds serve it, else by how much it has made the pipe grow. */
  ghost predicate Reports(datas: seq<seq<int>>, results: seq<Transfer>, peer: Peer, k: nat)
    requires k < |datas| == |results| && forall i :: 0 <= i < |datas| ==> results[i].sent <= |datas[i]|
  {
    var b := Before(results[..k], 0, peer);
    && b.0 <= WINDOW
    && Returned(results[k])
       == if Serves(b.1.acks).0 < Fills(b.0, |datas[k]|, b.1.writes) then -1
          else |Pipe(datas[..k + 1], results[..k + 1])| - |Pipe(datas[..k], results[..k])|
  }

  /** Over all call sequences, partial writes and answers: what is counted as written
      is what reached the pipe less what was acknowledged, it fits the window after every
      call, and every call reports what it should. */
  lemma {:induction false} Conservation(datas: seq<seq<int>>, results: seq<Transfer>, peer: Peer)
    requires Calls(datas, results, 0, peer)
    ensures |results| == |datas|
            && forall k :: 0 <= k < |results| ==> results[k].sent <= |datas[k]| && results[k].bytesWritten <= WINDOW
    ensures |Pipe(datas, results)| == Before(results, 0, peer).0 + Accepted(results)
    ensures forall k :: 0 <= k < |results| ==> Reports(datas, results, peer, k)
    decreases |datas|
  {
    hide Run, Reports;
    if datas != [] {
      var n := |datas| - 1;
      Conservation(datas[..n], results[..n], peer);
      forall k | 0 <= k < n
        ensures results[k].sent <= |datas[k]| && results[k].bytesWritten <= WINDOW
      {
        assert results[..n][k] == results[k] && datas[..n][k] == datas[k];
      }
      forall k | 0 <= k < |datas|
        ensures Reports(datas, results, peer, k)
      {
        if k < n {
          ReportsEarlier(datas, results, peer, k);
        } else {
          ReportsLast(datas, results, peer);
        }
      }
    }
  }

  lemma {:induction false} ReportsEarlier(datas: seq<seq<int>>, results: seq<Transfer>, peer: Peer, k: nat)
    requires |datas| == |results| && k + 1 < |datas| && forall i :: 0 <= i < |datas| ==> results[i].sent <= |datas[i]|
    requires Reports(datas[..|datas| - 1], results[..|datas| - 1], peer, k)
    ensures Reports(datas, results, peer, k)
  {
    hide Pipe, Serves, Fills;
    var n := |datas| - 1;
    assert results[..n][..k] == results[..k] && results[..n][..k + 1] == results[..k + 1];
    assert datas[..n][..k] == datas[..k] && datas[..n][..k + 1] == datas[..k + 1];
  }

  lemma {:induction false} ReportsLast(datas: seq<seq<int>>, results: seq<Transfer>, peer: Peer)
    requires Calls(datas, results, 0, peer) && datas != []
    requires |datas| == |results| && forall i :: 0 <= i < |datas| ==> results[i].sent <= |datas[i]|
    ensures Reports(datas, results, peer, |datas| - 1)
  {
    hide Run, Serves, Fills;
    var n := |datas| - 1;
    var b := Before(results[..n], 0, peer);
    ReportsIff(b.0, |datas[n]|, b.1);
    assert datas[..n + 1] == datas && results[..n + 1] == results;
  }

  /** One window's worth of data, and nobody answers. */
  lemma {:induction false} UnansweredWindow()
    ensures Run(0, WINDOW, Peer([WINDOW], [])).bytesWritten == WINDOW
  {
    RunStep(0, WINDOW, Peer([WINDOW], []));
  }

  /** With a full window no call sends a byte, waits for an ack, or reports an error. */
  lemma {:induction false} FullWindowStalls(left: nat, peer: Peer)
    ensures Run(WINDOW, left, peer).sent == 0 && Run(WINDOW, left, peer).bytesWritten == WINDOW
    ensures !Run(WINDOW, left, peer).failed && Run(WINDOW, left, peer).peer.acks == peer.acks
  {
  }

  /** Call k of a history runs dry. */
  ghost predicate DryCall(datas: seq<seq<int>>, results: seq<Transfer>, peer: Peer, k: int)
    requires |results| == |datas|
  {
    && 0 <= k < |datas|
    && var b := Before(results[..k], 0, peer); b.0 <= WINDOW && RunsDry(b.0, |datas[k]|, b.1)
  }

  /** A fresh writer is stalled after some calls if and only if one of them ran dry. */
  lemma {:induction false} StalledIff(datas: seq<seq<int>>, results: seq<Transfer>, peer: Peer)
    requires Calls(datas, results, 0, peer)
    ensures |results| == |datas|
    ensures Before(results, 0, peer).0 == WINDOW <==> exists k :: DryCall(datas, results, peer, k)
    decreases |datas|
  {
    hide Run, RunsDry;
    if datas != [] {
      var n := |datas| - 1;
      var (start, p) := Before(results[..n], 0, peer);
      StalledIff(datas[..n], results[..n], peer);
      forall k | 0 <= k < n
        ensures DryCall(datas, results, peer, k) <==> DryCall(datas[..n], results[..n], peer, k)
      {
        assert results[..n][..k] == results[..k] && datas[..n][k] == datas[k];
      }
      if start < WINDOW {
        FillsTheWindowIff(start, |datas[n]|, p);
        assert DryCall(datas, results, peer, n) <==> RunsDry(start, |datas[n]|, p);
      } else {
        FullWindowStalls(|datas[n]|, p);
        var k :| DryCall(datas[..n], results[..n], peer, k);
        assert DryCall(datas, results, peer, k);
      }
    }
  }

  /** A call that has something to send sends some of it if and only if the window has
      room and the pipe takes a byte. */
  lemma {:induction false} SendsIff(bytesWritten: nat, left: nat, peer: Peer)
    requires bytesWritten <= WINDOW && left > 0
    ensures Run(bytesWritten, left, peer).sent > 0 <==> bytesWritten < WINDOW && peer.writes != [] && peer.writes[0] > 0
  {
  }

  lemma {:induction false} StalledForever(datas: seq<seq<int>>, results: seq<Transfer>, peer: Peer)
    requires Calls(datas, results, WINDOW, peer)
    ensures |results| == |datas| && Before(results, WINDOW, peer).0 == WINDOW
            && Before(results, WINDOW, peer).1.acks == peer.acks
    ensures forall k :: 0 <= k < |results| ==> Returned(results[k]) == 0 && results[k].sent == 0
    decreases |datas|
  {
    hide Run;
    if datas != [] {
      var n := |datas| - 1;
      StalledForever(datas[..n], results[..n], peer);
      FullWindowStalls(|datas[n]|, Before(results[..n], WINDOW, peer).1);
      forall k | 0 <= k < n
        ensures Returned(results[k]) == 0 && results[k].sent == 0
      {
        assert results[..n][k] == results[k];
      }
    }
  }

  // ------------------------------------------------------------------ the code

  class MuxPcm {
    var bytesWritten: nat
    var peer: Peer
    const isOpen: bool
    var started: bool
    ghost var pipe: seq<int>

    constructor (peer: Peer, isOpen: bool)
      ensures bytesWritten == 0 && this.peer == peer && this.isOpen == isOpen && !started && pipe == []
    {
      this.peer, this.isOpen := peer, isOpen;
      bytesWritten, started, pipe := 0, false, [];
    }

    /** mux_write_wait_response. */
    method WriteWaitResponse(bytesToWait: nat) returns (ok: bool, bytesReceived: nat)
      modifies this`peer
      ensures bytesReceived <= bytesToWait
      ensures Waited(bytesToWait - bytesReceived, peer.acks, ok) == Wait(bytesToWait, old(peer.acks))
      ensures peer.writes == old(peer.writes)
    {
      var toWait: int := bytesToWait;
      var ret: int := 0;
      while toWait != 0
        invariant 0 <= toWait <= bytesToWait && peer.writes == old(peer.writes)
        invariant Wait(toWait, peer.acks) == Wait(bytesToWait, old(peer.acks))
        invariant toWait == 0 ==> ret >= 0
        decreases |peer.acks|
      {
        if peer.acks == [] {
          ret := -1;
          break;
        }
        ret := peer.acks[0];
        peer := peer.(acks := peer.acks[1..]);
        if ret < 0 {
          break;
        }
        if toWait >= ret {
          toWait := toWait - ret;
        } else {
          ret := -1;
        }
      }
      bytesReceived := bytesToWait - toWait;
      ok := ret >= 0;
    }

    /** mux_pcm_write. The first call starts the stream; if `startOk` does not hold it sends
        nothing and reports no error, and the stream counts as started all the same. */
    method Write(data: seq<int>, startOk: bool) returns (r: int)
      requires bytesWritten <= WINDOW
      modifies this
      ensures bytesWritten <= WINDOW && started == (old(started) || isOpen)
      ensures if isOpen && (old(started) || startOk) then
                var t := Run(old(bytesWritten), |data|, old(peer));
                && r == Returned(t) && bytesWritten == t.bytesWritten && peer == t.peer
                && pipe == old(pipe) + data[..t.sent]
              else
                r == 0 && bytesWritten == old(bytesWritten) && peer == old(peer) && pipe == old(pipe)
      ensures r == if !isOpen || !(old(started) || startOk) then 0
                   else if Serves(old(peer.acks)).0 < Fills(old(bytesWritten), |data|, old(peer.writes)) then -1
                   else |pipe| - |old(pipe)|
    {
      hide Run, Serves, Fills;
      ReportsIff(bytesWritten, |data|, peer);
      if !isOpen {
        return 0;
      }
      if !started {
        started := true;
        if !startOk {
          return 0;
        }
      }
      r := Transmit(data);
    }

    /** One turn of the loop of mux_pcm_write: `bytes` reached the pipe, `more` says that
        the loop goes on, `failed` that it ends with a failed wait. */
    method Turn(data: seq<int>, left: nat) returns (bytes: nat, more: bool, failed: bool)
      requires bytesWritten <= WINDOW && 0 < left <= |data|
      modifies this`bytesWritten, this`peer, this`pipe
      ensures bytesWritten <= WINDOW && bytes <= left && (more ==> bytes > 0)
      ensures pipe == old(pipe) + data[|data| - left..|data| - left + bytes]
      ensures var t := Run(old(bytesWritten), left, old(peer));
              if more then
                var u := Run(bytesWritten, left - bytes, peer);
                t.sent == bytes + u.sent && t.failed == u.failed && t.bytesWritten == u.bytesWritten && t.peer == u.peer
              else t.sent == bytes && t.failed == failed && t.bytesWritten == bytesWritten && t.peer == peer
    {
      hide Run, Wait, Acknowledged;
      RunStep(bytesWritten, left, peer);
      bytes, more, failed := 0, false, false;
      if peer.writes == [] {
        return;
      }
      var sendlen := Min(left, WINDOW - bytesWritten);
      var written := Min(peer.writes[0], sendlen);
      peer := peer.(writes := peer.writes[1..]);
      if written > 0 {
        bytes, more := written, true;
        pipe := pipe + data[|data| - left..|data| - left + bytes];
        bytesWritten := bytesWritten + bytes;
        if bytesWritten >= WINDOW {
          var ok, bytesReceived := WriteWaitResponse(bytesWritten);
          bytesWritten := bytesWritten - bytesReceived;
          more, failed := ok, !ok;
        }
      }
    }

    /** The loop of mux_pcm_write. */
    method Transmit(data: seq<int>) returns (r: int)
      requires bytesWritten <= WINDOW
      modifies this`bytesWritten, this`peer, this`pipe
      ensures var t := Run(old(bytesWritten), |data|, old(peer));
              && r == Returned(t) && bytesWritten == t.bytesWritten && peer == t.peer
              && pipe == old(pipe) + data[..t.sent]
    {
      hide Run;
      var left := |data|;
      ghost var all := Run(bytesWritten, |data|, peer);
      while left != 0
        invariant 0 <= left <= |data| && bytesWritten <= WINDOW
        invariant pipe == old(pipe) + data[..|data| - left]
        invariant var t := Run(bytesWritten, left, peer);
                  && all.sent == |data| - left + t.sent && all.failed == t.failed
                  && all.bytesWritten == t.bytesWritten && all.peer == t.peer
        decreases left
      {
        ghost var done := |data| - left;
        var bytes, more, failed := Turn(data, left);
        assert data[..done + bytes] == data[..done] + data[done..done + bytes];
        left := left - bytes;
        if !more {
          return if failed then -1 else |data| - left;
        }
      }
      RunDone(bytesWritten, peer);
      r := |data| - left;
    }
  }
}
