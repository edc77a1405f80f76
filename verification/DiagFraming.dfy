/** Byte stuffing on the DIAG link, the octet stuffing of section 4.2 of RFC 1662:
    translate_packet and untranslate_packet_header of engmode/adc_calibration.c,
    and the in-place pair eng_diag_encode7d7e / eng_diag_decode7d7e of
    engmode/eng_diag.c.
 */
module DiagFraming {
  import opened Bits

  const FLAG: byte := 0x7e
  const ESC: byte := 0x7d
  const STUFFED_FLAG: byte := 0x5e
  const STUFFED_ESC: byte := 0x5d

  predicate Special(b: byte) { b == FLAG || b == ESC }

  /** b ^ 0x20. */
  function Flip(b: byte): byte {
    if 32 <= b < 64 || 96 <= b < 128 || 160 <= b < 192 || 224 <= b then b - 32 else b + 32
  }

  /** The bit with value 32 changes, no other. */
  lemma {:induction false} FlipTogglesOneBit(b: byte)
    ensures Flip(b) % 32 == b % 32 && Flip(b) / 64 == b / 64 && Flip(b) / 32 % 2 != b / 32 % 2
  {
  }

  // ------------------------------------------------------------- what is meant

  function StuffByte(b: byte): seq<byte> {
    if b == FLAG then [ESC, STUFFED_FLAG] else if b == ESC then [ESC, STUFFED_ESC] else [b]
  }

  function Stuff(x: seq<byte>): (s: seq<byte>)
    ensures |s| == |x| + Specials(x)
  {
    if x == [] then [] else StuffByte(x[0]) + Stuff(x[1..])
  }

  function Frame(x: seq<byte>): seq<byte> {
    [FLAG] + Stuff(x) + [FLAG]
  }

  function Specials(x: seq<byte>): (n: nat)
    ensures n <= |x|
  {
    if x == [] then 0 else (if Special(x[0]) then 1 else 0) + Specials(x[1..])
  }

  function Flags(n: nat): (s: seq<byte>)
    ensures |s| == n
  {
    seq(n, _ => FLAG)
  }

  /** The interior never shows a flag, and stuffing costs one byte per special byte. */
  lemma {:induction false} StuffedInterior(x: seq<byte>)
    ensures FLAG !in Stuff(x)
    ensures |Stuff(x)| == |x| + Specials(x)
  {
    if x != [] {
      StuffedInterior(x[1..]);
    }
  }

  /** The stuffed form of byte i of x sits in s between off[i] and off[i + 1]. */
  ghost predicate LaidOut(x: seq<byte>, s: seq<byte>, off: seq<nat>, i: nat)
    requires i < |x| && |off| == |x| + 1
  {
    && off[i + 1] + (|x| - (i + 1)) <= |s|
    && off[i + 1] == off[i] + |StuffByte(x[i])|
    && s[off[i]] == StuffByte(x[i])[0]
    && (Special(x[i]) ==> s[off[i] + 1] == Flip(x[i]))
  }

  ghost predicate Layout(x: seq<byte>, s: seq<byte>, off: seq<nat>) {
    && |off| == |x| + 1 && off[0] == 0 && off[|x|] == |s|
    && forall i :: 0 <= i < |x| ==> LaidOut(x, s, off, i)
  }

  lemma {:induction false} LayoutEnds(x: seq<byte>, s: seq<byte>, off: seq<nat>)
    requires Layout(x, s, off)
    ensures |off| == |x| + 1 && off[0] == 0 && off[|x|] == |s|
  {
  }

  lemma {:induction false} LayoutAt(x: seq<byte>, s: seq<byte>, off: seq<nat>, i: nat)
    requires Layout(x, s, off) && i < |x|
    ensures |off| == |x| + 1 && off[i + 1] + (|x| - (i + 1)) <= |s|
    ensures off[i + 1] == off[i] + (if Special(x[i]) then 2 else 1)
    ensures s[off[i]] == if Special(x[i]) then ESC else x[i]
    ensures Special(x[i]) ==> s[off[i] + 1] == Flip(x[i])
  {
    assert LaidOut(x, s, off, i);
  }

  lemma {:induction false} StuffLayout(x: seq<byte>) returns (off: seq<nat>)
    ensures Layout(x, Stuff(x), off)
  {
    if x == [] {
      off := [0];
    } else {
      var rest := StuffLayout(x[1..]);
      off := [0] + seq(|rest|, i requires 0 <= i < |rest| => rest[i] + |StuffByte(x[0])|);
      LayoutCons(x, Stuff(x), off, Stuff(x[1..]), rest);
    }
  }

  lemma {:induction false} LayoutCons(x: seq<byte>, s: seq<byte>, off: seq<nat>, s': seq<byte>, rest: seq<nat>)
    requires x != [] && s == StuffByte(x[0]) + s' && |s'| >= |x| - 1 && Layout(x[1..], s', rest)
    requires off == [0] + seq(|rest|, i requires 0 <= i < |rest| => rest[i] + |StuffByte(x[0])|)
    ensures Layout(x, s, off)
  {
    UnflipEscapes();
    var w := |StuffByte(x[0])|;
    assert off[1] == w;
    forall i | 0 <= i < |x|
      ensures LaidOut(x, s, off, i)
    {
      if i > 0 {
        assert LaidOut(x[1..], s', rest, i - 1);
        assert x[i] == x[1..][i - 1];
        assert off[i] == rest[i - 1] + w && off[i + 1] == rest[i] + w;
      }
    }
  }

  // ---------------------------------------------------------------- the sender

  /** translate_packet: appends to `dest` and returns the number of bytes written. */
  method TranslatePacket(dest: array<byte>, src: array<byte>, size: nat) returns (n: nat)
    requires dest != src && size <= src.Length
    requires size + Specials(src[..size]) + 2 <= dest.Length
    modifies dest
    ensures n == size + Specials(src[..size]) + 2
    ensures dest[..n] == Frame(src[..size])
    ensures forall k :: n <= k < dest.Length ==> dest[k] == old(dest[k])
  {
    hide Stuff, Specials, Flip;
    ghost var x := src[..size];
    ghost var s := Stuff(x);
    ghost var off := StuffLayout(x);
    UnflipEscapes();
    dest[0] := FLAG;
    n := 1;
    var i := 0;
    while i < size
      invariant i <= size
      invariant n == 1 + off[i] <= 1 + |s|
      invariant dest[0] == FLAG && forall k :: 0 < k < n ==> dest[k] == s[k - 1]
      invariant forall k :: n <= k < dest.Length ==> dest[k] == old(dest[k])
    {
      assert src[i] == x[i] && LaidOut(x, s, off, i);
      if src[i] == FLAG {
        dest[n] := ESC;
        n := n + 1;
        dest[n] := STUFFED_FLAG;
        n := n + 1;
      } else if src[i] == ESC {
        dest[n] := ESC;
        n := n + 1;
        dest[n] := STUFFED_ESC;
        n := n + 1;
      } else {
        dest[n] := src[i];
        n := n + 1;
      }
      i := i + 1;
    }
    dest[n] := FLAG;
    n := n + 1;
  }

  // -------------------------------------------------------------- the receiver

  /** The three values of `status`, with the decoded bytes and `flag` where they matter. */
  datatype Receiver =
    | Hunting
    | Opened
    | Inside(out: seq<byte>, flag: bool)

  function Unescape(b: byte): byte {
    if b == STUFFED_FLAG then FLAG else ESC
  }

  /** The effect of one byte that is not a flag on an open frame. */
  function Take(out: seq<byte>, flag: bool, b: byte): Receiver
    requires out != []
  {
    var last := |out| - 1;
    if out[last] == ESC && !flag then Inside(out[..last] + [Unescape(b)], true) else Inside(out + [b], false)
  }

  /** untranslate_packet_header: what is left in `dest` when it returns. */
  function Receive(s: Receiver, src: seq<byte>, unpackSize: int): seq<byte>
    requires s.Inside? ==> s.out != []
    decreases |src|
  {
    if src == [] then
      if s.Inside? then s.out else []
    else
      var b, rest := src[0], src[1..];
      match s
      case Hunting => Receive(if b == FLAG then Opened else Hunting, rest, unpackSize)
      case Opened => Receive(if b == FLAG then Opened else Inside([b], false), rest, unpackSize)
      case Inside(out, flag) =>
        if b == FLAG then out
        else
          var s' := Take(out, flag, b);
          if |s'.out| >= unpackSize + 1 && unpackSize != -1 then s'.out
          else Receive(s', rest, unpackSize)
  }

  function Untranslate(src: seq<byte>, unpackSize: int): seq<byte> {
    Receive(Hunting, src, unpackSize)
  }

  ghost predicate Holds(s: Receiver, dest: seq<byte>, n: nat, status: int, flag: bool) {
    && n <= |dest|
    && match s
       case Hunting => status == 0 && n == 0 && !flag
       case Opened => status == 1 && n == 0 && !flag
       case Inside(out, f) => status == 2 && n > 0 && dest[..n] == out && f == flag
  }

  method UntranslatePacketHeader(dest: array<byte>, src: array<byte>, size: nat, unpackSize: int) returns (n: nat)
    requires dest != src && size <= src.Length && size <= dest.Length
    modifies dest
    ensures n <= dest.Length
    ensures dest[..n] == Untranslate(src[..size], unpackSize)
  {
    n := 0;
    var status := 0;
    var flag := false;
    ghost var s := Hunting;
    var i := 0;
    assert src[..size] == src[0..size];
    while i < size
      invariant n <= i <= size
      invariant s.Inside? ==> s.out != []
      invariant Holds(s, dest[..], n, status, flag)
      invariant Receive(s, src[i..size], unpackSize) == Untranslate(src[..size], unpackSize)
      invariant src[..size] == old(src[..size])
    {
      assert src[i..size][0] == src[i] && src[i..size][1..] == src[i + 1..size];
      if status == 0 {
        if src[i] == FLAG {
          status := 1;
          s := Opened;
        }
      } else if status == 1 {
        if src[i] != FLAG {
          status := 2;
          dest[n] := src[i];
          n := n + 1;
          s := Inside([src[i]], false);
        }
      } else {
        if src[i] == FLAG {
          return;
        }
        ghost var before := s;
        if dest[n - 1] == ESC && !flag {
          flag := true;
          if src[i] == STUFFED_FLAG {
            dest[n - 1] := FLAG;
          } else if src[i] == STUFFED_ESC {
            dest[n - 1] := ESC;
          }
        } else {
          flag := false;
          dest[n] := src[i];
          n := n + 1;
        }
        s := Take(before.out, before.flag, src[i]);
        assert dest[..n] == s.out;
        if n >= unpackSize + 1 && unpackSize != -1 {
          return;
        }
      }
      i := i + 1;
    }
  }

  // ---------------------------------------------------------------- round trip

  /** No escape is waiting for its second byte. */
  predicate Settled(out: seq<byte>, flag: bool) {
    out != [] && (out[|out| - 1] == ESC ==> flag)
  }

  /** What an early return may leave: everything when the frame is short enough,
      and otherwise at least the first k bytes, fully decoded. */
  predicate Decoded(r: seq<byte>, x: seq<byte>, k: int) {
    if k == -1 || |x| <= k then r == x
    else 0 <= k < |r| <= |x| && r[..k] == x[..k]
  }

  /** The stuffed form of one byte: either the receiver stops on it, leaving what
      it had plus one byte, or it settles again with that byte decoded. */
  lemma {:induction false} ReceiveStuffed(out: seq<byte>, flag: bool, b: byte, after: seq<byte>, k: int)
    requires Settled(out, flag) && k >= -1
    ensures var r := Receive(Inside(out, flag), StuffByte(b) + after, k);
            if k != -1 && k <= |out| then |r| == |out| + 1 && r[..|out|] == out
            else r == Receive(Inside(out + [b], Special(b)), after, k)
  {
    var src := StuffByte(b) + after;
    if Special(b) {
      var once := out + [ESC];
      assert src[1..] == [StuffByte(b)[1]] + after;
      assert Take(out, flag, ESC) == Inside(once, false);
      assert src[1..][1..] == after;
      assert once[..|out|] == out;
      assert Take(once, false, StuffByte(b)[1]) == Inside(out + [b], true);
    } else {
      assert src[1..] == after;
      assert Take(out, flag, b) == Inside(out + [b], false);
    }
  }

  lemma {:induction false} ReceiveInterior(out: seq<byte>, flag: bool, y: seq<byte>, tail: seq<byte>, k: int)
    requires Settled(out, flag) && k >= -1
    ensures Decoded(Receive(Inside(out, flag), Stuff(y) + [FLAG] + tail, k), out + y, k)
    decreases |y|
  {
    if y == [] {
      assert (Stuff(y) + [FLAG] + tail)[0] == FLAG && out + y == out;
    } else {
      var after := Stuff(y[1..]) + [FLAG] + tail;
      assert Stuff(y) + [FLAG] + tail == StuffByte(y[0]) + after;
      assert out + y == out + [y[0]] + y[1..];
      ReceiveStuffed(out, flag, y[0], after, k);
      if k == -1 || k > |out| {
        ReceiveInterior(out + [y[0]], Special(y[0]), y[1..], tail, k);
      } else {
        assert (out + y)[..k] == out[..k];
      }
    }
  }

  predicate OnlyFlags(s: seq<byte>) { forall i :: 0 <= i < |s| ==> s[i] == FLAG }

  /** Once inside a frame the receiver never gives up what it has. */
  lemma {:induction false} InsideDelivers(out: seq<byte>, flag: bool, src: seq<byte>, k: int)
    requires out != []
    ensures Receive(Inside(out, flag), src, k) != []
    decreases |src|
  {
    if src != [] && src[0] != FLAG {
      var s := Take(out, flag, src[0]);
      InsideDelivers(s.out, s.flag, src[1..], k);
    }
  }

  lemma {:induction false} NothingDeliveredIff(src: seq<byte>, k: int)
    ensures Receive(Opened, src, k) == [] <==> OnlyFlags(src)
    decreases |src|
  {
    if src != [] {
      if src[0] == FLAG {
        NothingDeliveredIff(src[1..], k);
        assert forall i :: 0 < i < |src| ==> src[i] == src[1..][i - 1];
      } else {
        InsideDelivers([src[0]], false, src[1..], k);
      }
    }
  }

  lemma {:induction false} ReceiveFrameBody(x: seq<byte>, tail: seq<byte>, k: int)
    requires k >= -1
    ensures Decoded(Receive(Opened, Stuff(x) + [FLAG] + tail, k), x, k) <==> x != [] || OnlyFlags(tail)
  {
    var src := Stuff(x) + [FLAG] + tail;
    if x == [] {
      assert src == [FLAG] + tail && src[1..] == tail;
      NothingDeliveredIff(tail, k);
    } else {
      var b := x[0];
      var after := Stuff(x[1..]) + [FLAG] + tail;
      assert src == StuffByte(b) + after && [b] + x[1..] == x;
      ReceiveInterior([b], Special(b), x[1..], tail, k);
      if Special(b) {
        assert src[1..] == [StuffByte(b)[1]] + after && src[1..][1..] == after;
        assert [ESC][..0] == [];
        assert Take([ESC], false, StuffByte(b)[1]) == Inside([b], true);
      } else {
        assert src[1..] == after;
      }
    }
  }

  lemma {:induction false} ReceiveFlags(m: nat, rest: seq<byte>, k: int)
    ensures Receive(Opened, Flags(m) + rest, k) == Receive(Opened, rest, k)
  {
    var src := Flags(m) + rest;
    if m == 0 {
      assert src == rest;
    } else {
      assert src[0] == FLAG && src[1..] == Flags(m - 1) + rest;
      ReceiveFlags(m - 1, rest, k);
    }
  }

  lemma {:induction false} ReceiveNoise(noise: seq<byte>, rest: seq<byte>, k: int)
    requires FLAG !in noise
    ensures Receive(Hunting, noise + rest, k) == Receive(Hunting, rest, k)
  {
    if noise == [] {
      assert noise + rest == rest;
    } else {
      assert (noise + rest)[0] == noise[0] && (noise + rest)[1..] == noise[1..] + rest;
      ReceiveNoise(noise[1..], rest, k);
    }
  }

  /** Whatever flag-free noise and however many extra flags come before a frame,
      and whatever follows it, the receiver recovers the payload; and if it is
      asked to stop after k bytes, those k bytes are already fully decoded. The one
      exception is exact: the closing flag of an empty frame is taken for an opening
      one, so it comes out empty if and only if nothing but flags follows. */
  lemma {:induction false} RoundTrip(noise: seq<byte>, m: nat, x: seq<byte>, tail: seq<byte>, k: int)
    requires FLAG !in noise && k >= -1
    ensures Decoded(Untranslate(noise + Flags(m) + Frame(x) + tail, k), x, k) <==> x != [] || OnlyFlags(tail)
  {
    hide Stuff, Receive, Decoded;
    var body := Stuff(x) + [FLAG] + tail;
    var framed := Flags(m) + ([FLAG] + body);
    assert noise + Flags(m) + Frame(x) + tail == noise + framed;
    ReceiveNoise(noise, framed, k);
    assert framed == [FLAG] + (Flags(m) + body);
    ReceiveOpening(Flags(m) + body, k);
    ReceiveFlags(m, body, k);
    ReceiveFrameBody(x, tail, k);
  }

  lemma {:induction false} ReceiveOpening(rest: seq<byte>, k: int)
    ensures Receive(Hunting, [FLAG] + rest, k) == Receive(Opened, rest, k)
  {
    assert ([FLAG] + rest)[1..] == rest;
  }

  // ------------------------------------------------- frames nobody stuffed properly

  /** A byte as it is, or a byte behind an escape. */
  datatype Token = Plain(b: byte) | Escaped(b: byte)

  predicate Sendable(t: Token) { if t.Plain? then !Special(t.b) else t.b != FLAG }

  function Wire(ts: seq<Token>): seq<byte> {
    if ts == [] then [] else (if ts[0].Plain? then [ts[0].b] else [ESC, ts[0].b]) + Wire(ts[1..])
  }

  /** Behind an escape 0x5e stands for a flag; anything else, not only 0x5d, for an escape. */
  function Meaning(ts: seq<Token>): (x: seq<byte>)
    ensures |x| == |ts|
  {
    if ts == [] then []
    else [if ts[0].Plain? then ts[0].b else if ts[0].b == 0x5e then 0x7e else 0x7d] + Meaning(ts[1..])
  }

  lemma {:induction false} ReceiveToken(out: seq<byte>, flag: bool, t: Token, after: seq<byte>)
    requires Settled(out, flag) && Sendable(t)
    ensures Receive(Inside(out, flag), Wire([t]) + after, -1)
         == Receive(Inside(out + Meaning([t]), t.Escaped?), after, -1)
    ensures Settled(out + Meaning([t]), t.Escaped?)
  {
    assert [t][1..] == [] && Wire([]) == [] && Meaning([]) == [];
    var src := Wire([t]) + after;
    if t.Plain? {
      assert src == [t.b] + after && src[1..] == after;
    } else {
      assert src == [ESC, t.b] + after && src[1..] == [t.b] + after && src[1..][1..] == after;
      var once := out + [ESC];
      assert once[..|out|] == out;
      assert Take(out, flag, ESC) == Inside(once, false);
      assert Take(once, false, t.b) == Inside(out + Meaning([t]), true);
    }
  }

  lemma {:induction false} ReceiveTokens(out: seq<byte>, flag: bool, ts: seq<Token>, tail: seq<byte>)
    requires Settled(out, flag) && forall k :: 0 <= k < |ts| ==> Sendable(ts[k])
    ensures Receive(Inside(out, flag), Wire(ts) + [FLAG] + tail, -1) == out + Meaning(ts)
    decreases |ts|
  {
    if ts == [] {
      assert (Wire(ts) + [FLAG] + tail)[0] == FLAG && out + Meaning(ts) == out;
    } else {
      var after := Wire(ts[1..]) + [FLAG] + tail;
      assert [ts[0]][1..] == [] && Wire([]) == [] && Meaning([]) == [];
      assert Wire(ts) + [FLAG] + tail == Wire([ts[0]]) + after;
      assert out + Meaning(ts) == out + Meaning([ts[0]]) + Meaning(ts[1..]);
      ReceiveToken(out, flag, ts[0], after);
      ReceiveTokens(out + Meaning([ts[0]]), ts[0].Escaped?, ts[1..], tail);
    }
  }

  /** What the receiver makes of any frame, properly stuffed or not, that does not begin
      with an escape. */
  lemma {:induction false} AnyFrameReceived(first: byte, ts: seq<Token>, tail: seq<byte>)
    requires !Special(first) && forall k :: 0 <= k < |ts| ==> Sendable(ts[k])
    ensures Untranslate([FLAG, first] + Wire(ts) + [FLAG] + tail, -1) == [first] + Meaning(ts)
  {
    var body := [first] + (Wire(ts) + [FLAG] + tail);
    assert [FLAG, first] + Wire(ts) + [FLAG] + tail == [FLAG] + body;
    ReceiveOpening(body, -1);
    assert body[1..] == Wire(ts) + [FLAG] + tail;
    ReceiveTokens([first], false, ts, tail);
  }

  /** An empty frame in front of another one is swallowed, not delivered. */
  lemma {:induction false} EmptyFrameSwallowed(x: seq<byte>)
    ensures Untranslate(Frame([]) + Frame(x), -1) == x
  {
    assert Frame([]) == Flags(2);
    assert Frame([]) + Frame(x) == [] + Flags(2) + Frame(x) + [];
    RoundTrip([], 2, x, [], -1);
  }

  // ----------------------------------------------------------- stuffing in place

  /** The inner copy loop of eng_diag_encode7d7e: buf[from..to] moves up by one. */
  method MoveUp(buf: array<byte>, from: nat, to: nat)
    requires from <= to < buf.Length
    modifies buf
    ensures forall k :: 0 <= k < buf.Length ==> buf[k] == (if from < k <= to then old(buf[k - 1]) else old(buf[k]))
  {
    var j := to;
    while j > from
      invariant from <= j <= to
      invariant forall k :: 0 <= k < buf.Length ==> buf[k] == (if j < k <= to then old(buf[k - 1]) else old(buf[k]))
    {
      buf[j] := buf[j - 1];
      j := j - 1;
    }
  }

  /** The body of the loop in eng_diag_encode7d7e for a special byte. */
  method StuffAt(buf: array<byte>, i: nat, len: nat)
    requires i < len < buf.Length
    modifies buf
    ensures buf[i] == ESC && buf[i + 1] == Flip(old(buf[i]))
    ensures forall k :: 0 <= k < buf.Length && k != i && k != i + 1 ==>
                          buf[k] == (if i + 1 < k <= len then old(buf[k - 1]) else old(buf[k]))
  {
    var tmp := Flip(buf[i]);
    buf[i] := ESC;
    MoveUp(buf, i + 1, len);
    buf[i + 1] := tmp;
  }

  /** eng_diag_encode7d7e. The bound `len` grows while `i` runs towards it; what
      shrinks is the number of original bytes still to be looked at. */
  method Encode7d7e(buf: array<byte>, len: nat, extraLen: nat) returns (newLen: nat, newExtra: nat)
    requires len <= buf.Length
    requires len + Specials(buf[..len]) <= buf.Length
    modifies buf
    ensures newLen == len + Specials(old(buf[..len])) && newExtra == extraLen + Specials(old(buf[..len]))
    ensures buf[..newLen] == Stuff(old(buf[..len]))
    ensures forall k :: newLen <= k < buf.Length ==> buf[k] == old(buf[k])
  {
    hide Stuff, Specials, Flip, Layout, LaidOut, StuffByte;
    ghost var x := buf[..len];
    ghost var s := Stuff(x);
    newLen, newExtra := len, extraLen;
    var i := 0;
    ghost var seen := 0;       // original bytes dealt with
    ghost var done := 0;       // where their stuffed form ends: i, or i + 1 just after an escape
    ghost var off := StuffLayout(x);
    LayoutEnds(x, s, off);
    UnflipEscapes();
    while i < newLen
      invariant 0 <= i <= done <= i + 1 && seen <= len && done == off[seen]
      invariant newLen == done + (len - seen) <= |s| && newExtra - extraLen == newLen - len
      invariant forall k :: 0 <= k < done ==> buf[k] == s[k]
      invariant forall k :: done <= k < newLen ==> buf[k] == x[len - (newLen - k)]
      invariant forall k :: newLen <= k < buf.Length ==> buf[k] == old(buf[k])
      invariant done == i + 1 ==> !Special(buf[i])
      decreases len - seen, done - i
    {
      if done == i {
        assert buf[i] == x[seen];
        LayoutAt(x, s, off, seen);
      }
      assert Special(buf[i]) ==> done == i;
      if Special(buf[i]) {
        StuffAt(buf, i, newLen);
        newLen := newLen + 1;
        newExtra := newExtra + 1;
        seen, done := seen + 1, i + 2;
      } else if done == i {
        seen, done := seen + 1, i + 1;
      }
      i := i + 1;
    }
  }

  // --------------------------------------------------------- unstuffing in place

  /** One pass of eng_diag_decode7d7e over a whole buffer. Removing an escape
      moves the bytes up to and including position `len` down by one, so the
      pass may look at the byte just past the range it was given. */
  function DecodeFrom(buf: seq<byte>, i: nat, len: nat): (r: seq<byte>)
    requires len < |buf|
    ensures |r| == |buf|
    decreases len - i
  {
    if i >= len then buf
    else if Special(buf[i]) then
      DecodeFrom(Unstuffed(buf, i, len), i + 1, len - 1)
    else DecodeFrom(buf, i + 1, len)
  }

  /** The buffer after one escape at position i has been undone. */
  function Unstuffed(buf: seq<byte>, i: nat, len: nat): (r: seq<byte>)
    requires i < len < |buf|
    ensures |r| == |buf|
  {
    seq(|buf|, k requires 0 <= k < |buf| =>
      if k == i then Flip(buf[i + 1]) else if i < k < len then buf[k + 1] else buf[k])
  }

  lemma {:induction false} UnstuffedAt(buf: seq<byte>, i: nat, len: nat)
    requires i < len < |buf|
    ensures Unstuffed(buf, i, len)[i] == Flip(buf[i + 1])
    ensures forall k :: i < k < len ==> Unstuffed(buf, i, len)[k] == buf[k + 1]
    ensures forall k :: 0 <= k < |buf| && !(i <= k < len) ==> Unstuffed(buf, i, len)[k] == buf[k]
  {
  }

  /** memcpy(&buf[j], &buf[j+1], n), copying upwards. */
  method MoveDown(buf: array<byte>, j: nat, n: nat)
    requires j + n < buf.Length
    modifies buf
    ensures forall k :: 0 <= k < buf.Length ==> buf[k] == (if j <= k < j + n then old(buf[k + 1]) else old(buf[k]))
  {
    for m := 0 to n
      invariant forall k :: 0 <= k < buf.Length ==> buf[k] == (if j <= k < j + m then old(buf[k + 1]) else old(buf[k]))
    {
      buf[j + m] := buf[j + m + 1];
    }
  }

  /** The body of the loop in eng_diag_decode7d7e for a special byte. */
  method UnstuffAt(buf: array<byte>, i: nat, len: nat)
    requires i < len < buf.Length
    modifies buf
    ensures buf[..] == Unstuffed(old(buf[..]), i, len)
  {
    hide Flip, Unstuffed;
    ghost var was := buf[..];
    ghost var r := Unstuffed(was, i, len);
    UnstuffedAt(was, i, len);
    buf[i] := Flip(buf[i + 1]);
    MoveDown(buf, i + 1, len - (i + 1));
    assert buf[i] == r[i];
    assert forall k :: i < k < len ==> buf[k] == was[k + 1] == r[k];
    assert forall k :: 0 <= k < buf.Length && !(i <= k < len) ==> buf[k] == was[k] == r[k];
  }

  /** eng_diag_decode7d7e on the bytes from `start` up to `end`. */
  method Decode7d7e(buf: array<byte>, start: nat, end: nat)
    requires end < buf.Length
    modifies buf
    ensures buf[..] == DecodeFrom(old(buf[..]), start, end)
  {
    hide DecodeFrom, Unstuffed;
    var n := end;
    var i := start;
    while i < n
      invariant 0 <= i && 0 <= n <= end
      invariant DecodeFrom(buf[..], i, n) == DecodeFrom(old(buf[..]), start, end)
      decreases n - i
    {
      DecodeStep(buf[..], i, n);
      if Special(buf[i]) {
        UnstuffAt(buf, i, n);
        n := n - 1;
      }
      i := i + 1;
    }
    DecodeStep(buf[..], i, n);
  }

  lemma {:induction false} DecodeStep(buf: seq<byte>, i: nat, len: nat)
    requires len < |buf|
    ensures DecodeFrom(buf, i, len) == if i >= len then buf
              else if Special(buf[i]) then DecodeFrom(Unstuffed(buf, i, len), i + 1, len - 1)
              else DecodeFrom(buf, i + 1, len)
  {
  }

  lemma {:induction false} UnflipEscapes()
    ensures Flip(STUFFED_FLAG) == FLAG && Flip(STUFFED_ESC) == ESC
    ensures Flip(FLAG) == STUFFED_FLAG && Flip(ESC) == STUFFED_ESC
  {
  }

  /** The pass over stuffed bytes, from any point of it: `closing` is the frame's
      final flag when the caller included it, z the byte just past the range. */
  lemma {:induction false} DecodeStuffed(buf: seq<byte>, i: nat, len: nat, y: seq<byte>, closing: seq<byte>, z: byte)
    requires i <= len < |buf| && buf[len] == z
    requires closing == [] || closing == [FLAG]
    requires buf[i..len] == Stuff(y) + closing
    ensures i + |y| + |closing| < |buf|
    ensures DecodeFrom(buf, i, len)[..i + |y| + |closing|]
         == buf[..i] + y + (if closing == [] then [] else [Flip(z)])
    decreases |y|
  {
    hide DecodeFrom, Unstuffed, Flip, Stuff, StuffByte;
    StuffStep(y);
    if y == [] {
      DecodeClosing(buf, i, len, closing, z);
      assert buf[..i] + y == buf[..i];
    } else {
      var b := y[0];
      var rest := Stuff(y[1..]) + closing;
      assert buf[i..len] == StuffByte(b) + rest;
      assert buf[..i] + [b] + y[1..] == buf[..i] + y;
      if Special(b) {
        var next := Unstuffed(buf, i, len);
        UnstuffStep(buf, i, len, b, rest, next);
        DecodeStuffed(next, i + 1, len - 1, y[1..], closing, z);
      } else {
        PlainByte(b);
        PlainStep(buf, i, len, b, rest);
        DecodeStuffed(buf, i + 1, len, y[1..], closing, z);
      }
    }
  }

  lemma {:induction false} StuffStep(y: seq<byte>)
    ensures Stuff(y) == if y == [] then [] else StuffByte(y[0]) + Stuff(y[1..])
  {
  }

  lemma {:induction false} PlainByte(b: byte)
    requires !Special(b)
    ensures StuffByte(b) == [b]
  {
  }

  lemma {:induction false} DecodeClosing(buf: seq<byte>, i: nat, len: nat, closing: seq<byte>, z: byte)
    requires i <= len < |buf| && buf[len] == z
    requires closing == [] || closing == [FLAG]
    requires buf[i..len] == closing
    ensures DecodeFrom(buf, i, len)[..i + |closing|] == buf[..i] + (if closing == [] then [] else [Flip(z)])
  {
    if closing == [] {
      assert i == len;
    } else {
      assert buf[i] == buf[i..len][0] == FLAG && len == i + 1;
      var next := Unstuffed(buf, i, len);
      assert next[..i + 1] == buf[..i] + [Flip(z)];
      assert DecodeFrom(buf, i, len) == next;
    }
  }

  lemma {:induction false} PlainStep(buf: seq<byte>, i: nat, len: nat, b: byte, rest: seq<byte>)
    requires i <= len < |buf| && !Special(b)
    requires buf[i..len] == [b] + rest
    ensures i < len && DecodeFrom(buf, i, len) == DecodeFrom(buf, i + 1, len)
    ensures buf[i + 1..len] == rest && buf[..i + 1] == buf[..i] + [b]
  {
    assert buf[i] == buf[i..len][0];
    assert buf[i + 1..len] == buf[i..len][1..];
  }

  lemma {:induction false} UnstuffStep(buf: seq<byte>, i: nat, len: nat, b: byte, rest: seq<byte>, next: seq<byte>)
    requires i < len < |buf| && Special(b)
    requires buf[i..len] == StuffByte(b) + rest
    requires next == Unstuffed(buf, i, len)
    ensures DecodeFrom(buf, i, len) == DecodeFrom(next, i + 1, len - 1)
    ensures |next| == |buf| && next[i + 1..len - 1] == rest && next[len - 1] == buf[len]
    ensures next[..i + 1] == buf[..i] + [b]
  {
    UnflipEscapes();
    assert buf[i] == buf[i..len][0] && buf[i + 1] == buf[i..len][1];
    assert buf[i + 2..len] == buf[i..len][2..] == rest;
  }

  /** eng_diag_parse decodes everything after the opening flag, closing flag
      included: the payload comes back in front, and the closing flag turns into
      the flipped byte that happened to follow the frame. */
  lemma {:induction false} DecodeFrameInPlace(x: seq<byte>, z: byte, beyond: seq<byte>)
    ensures DecodeFrom(Stuff(x) + [FLAG] + [z] + beyond, 0, |Stuff(x)| + 1)[..|x| + 1] == x + [Flip(z)]
  {
    StuffedInterior(x);
    var buf := Stuff(x) + [FLAG] + [z] + beyond;
    var len := |Stuff(x)| + 1;
    assert buf[0..len] == Stuff(x) + [FLAG];
    DecodeStuffed(buf, 0, len, x, [FLAG], z);
    assert buf[..0] + x + [Flip(z)] == x + [Flip(z)];
  }

  /** Decoding in place undoes encoding in place. */
  lemma {:induction false} DecodeUndoesEncode(x: seq<byte>, z: byte, beyond: seq<byte>)
    ensures DecodeFrom(Stuff(x) + [z] + beyond, 0, |Stuff(x)|)[..|x|] == x
  {
    StuffedInterior(x);
    var buf := Stuff(x) + [z] + beyond;
    assert buf[0..|Stuff(x)|] == Stuff(x) + [];
    DecodeStuffed(buf, 0, |Stuff(x)|, x, [], z);
    assert buf[..0] + x + [] == x;
  }
}
