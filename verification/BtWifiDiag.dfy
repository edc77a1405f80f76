/** The IMEI/BT/WiFi command of engmode/eng_diag.c: a checksummed record written
    by the tool is stored as MAC text files, and read back from them.
 */
module BtWifiDiag {
  import opened Bits
  import opened Crc16
  import opened DiagFraming

  datatype Option<T> = None | Some(value: T)

  const HEAD: nat := 8          // sizeof(MSG_HEAD_T)
  const RECORD: nat := 106      // sizeof(REF_NVWriteDirect_T)
  const BT_AT: nat := 16
  const WIFI_AT: nat := 66
  const MAC: nat := 6
  const ANSWER: nat := 116      // header, record and checksum

  predicate ReadCommand(subtype: byte) { subtype / 0x80 % 2 == 1 }

  predicate BtBit(subtype: byte) { subtype / 0x04 % 2 == 1 }

  predicate WifiBit(subtype: byte) { subtype / 0x40 % 2 == 1 }

  /** subtype & ~(DIAG_CMD_BTBIT | DIAG_CMD_WIFIBIT). */
  function WithoutAddressBits(subtype: byte): (r: byte)
    ensures !BtBit(r) && !WifiBit(r)
    ensures r % 0x04 == subtype % 0x04 && r / 0x08 % 8 == subtype / 0x08 % 8 && r / 0x80 == subtype / 0x80
  {
    subtype % 0x04 + 0x08 * (subtype / 0x08 % 8) + 0x80 * (subtype / 0x80)
  }

  // -------------------------------------------------------------------- MAC text

  function Digit(n: nat): char
    requires n < 16
  {
    if n < 10 then ('0' as int + n) as char else ('a' as int + n - 10) as char
  }

  /** The value of a hexadecimal digit, 16 for any other character. */
  function DigitValue(c: char): (n: nat)
    ensures n <= 16
  {
    if '0' <= c <= '9' then c as int - '0' as int
    else if 'a' <= c <= 'f' then c as int - 'a' as int + 10
    else if 'A' <= c <= 'F' then c as int - 'A' as int + 10
    else 16
  }

  /** The hexadecimal digits s starts with, continuing from `acc`. */
  function HexValue(s: string, acc: nat): nat
    decreases |s|
  {
    if s == [] || DigitValue(s[0]) == 16 then acc else HexValue(s[1..], 16 * acc + DigitValue(s[0]))
  }

  /** isspace. */
  predicate Blank(c: char) { c == ' ' || 9 <= c as int <= 13 }

  function SkipBlanks(s: string): string { if s != [] && Blank(s[0]) then SkipBlanks(s[1..]) else s }

  const LONG_MAX: int := 0x7fff_ffff

  /** strtol(s, NULL, 16) with a 32-bit long: blanks, a sign, a 0x prefix, digits, and
      saturation. */
  function StrToL(s: string): int {
    var t := SkipBlanks(s);
    var negative := t != [] && t[0] == '-';
    var u := if t != [] && (t[0] == '-' || t[0] == '+') then t[1..] else t;
    var digits := if |u| >= 2 && u[0] == '0' && (u[1] == 'x' || u[1] == 'X') then u[2..] else u;
    var v: int := HexValue(digits, 0);
    if negative then (if v > LONG_MAX + 1 then -LONG_MAX - 1 else -v) else if v > LONG_MAX then LONG_MAX else v
  }

  /** The low byte of strtol's result. */
  function TextByte(s: string): byte { StrToL(s) % 256 }

  /** "%02x". */
  function HexByte(b: byte): (s: string)
    ensures |s| == 2
  {
    [Digit(b / 16), Digit(b % 16)]
  }

  /** "%02x:%02x:...": the bytes in the order given. */
  function MacText(a: seq<byte>): string
    requires a != []
  {
    if |a| == 1 then HexByte(a[0]) else HexByte(a[0]) + ":" + MacText(a[1..])
  }

  /** strchr(s, ':'), with the end of the text for NULL. */
  function FirstColon(s: string): (p: nat)
    ensures p <= |s| && (p < |s| ==> s[p] == ':') && forall k :: 0 <= k < p ==> s[k] != ':'
  {
    if s == [] || s[0] == ':' then 0 else 1 + FirstColon(s[1..])
  }

  /** The first two characters, whatever they are, read as a number. */
  function FirstByte(s: string): byte { TextByte(s[..if |s| < 2 then |s| else 2]) }

  /** The bytes eng_diag_char2hex finds in a text. */
  function MacBytes(s: string): (a: seq<byte>)
    ensures a != []
    decreases |s|
  {
    var p := FirstColon(s);
    if p == |s| then [TextByte(s)] else [FirstByte(s)] + MacBytes(s[p + 1..])
  }

  lemma {:induction false} DigitsReadBack(n: nat)
    requires n < 16
    ensures DigitValue(Digit(n)) == n && Digit(n) != ':' && !Blank(Digit(n)) && Digit(n) !in "+-xX"
  {
  }

  lemma {:induction false} TwoDigits(s: string)
    requires |s| == 2 && DigitValue(s[0]) < 16 && DigitValue(s[1]) < 16
    ensures HexValue(s, 0) == 16 * DigitValue(s[0]) + DigitValue(s[1])
  {
    assert s[1..] == [s[1]] && s[1..][1..] == [];
    assert HexValue(s[1..][1..], 16 * DigitValue(s[0]) + DigitValue(s[1])) == 16 * DigitValue(s[0]) + DigitValue(s[1]);
    assert HexValue(s[1..], DigitValue(s[0])) == 16 * DigitValue(s[0]) + DigitValue(s[1]);
  }

  lemma {:induction false} HexByteReadsBack(b: byte)
    ensures TextByte(HexByte(b)) == b && forall k :: 0 <= k < 2 ==> HexByte(b)[k] != ':'
  {
    DigitsReadBack(b / 16);
    DigitsReadBack(b % 16);
    hide Digit, DigitValue;
    var s := HexByte(b);
    TwoDigits(s);
    hide HexValue;
    assert SkipBlanks(s) == s && s[0] !in "+-" && s[1] !in "xX";
  }

  lemma {:induction false} MacBytesCons(s: string)
    requires FirstColon(s) < |s|
    ensures MacBytes(s) == [FirstByte(s)] + MacBytes(s[FirstColon(s) + 1..])
  {
    hide FirstByte, FirstColon;
  }

  lemma {:induction false} MacBytesLast(s: string, v: byte)
    requires FirstColon(s) == |s| && v == TextByte(s)
    ensures MacBytes(s) == [v]
  {
    hide TextByte;
  }

  /** Reading a MAC text gives back the bytes it was written from. */
  lemma {:induction false} MacTextReadsBack(a: seq<byte>)
    requires a != []
    ensures MacBytes(MacText(a)) == a
    decreases |a|
  {
    hide HexByte, TextByte, MacBytes;
    var s := MacText(a);
    HexByteReadsBack(a[0]);
    if |a| == 1 {
      MacBytesLast(s, a[0]);
    } else {
      var rest := MacText(a[1..]);
      assert s[2] == ':' && s[..2] == HexByte(a[0]) && s[3..] == rest;
      assert forall k :: 0 <= k < 2 ==> s[k] == HexByte(a[0])[k];
      MacBytesCons(s);
      assert FirstColon(s) == 2 && FirstByte(s) == a[0];
      MacTextReadsBack(a[1..]);
    }
  }

  /** eng_diag_char2hex, writing at hexdata[at..]. */
  method Char2Hex(hexdata: array<byte>, at: nat, text: string) returns (index: nat)
    requires at + |MacBytes(text)| <= hexdata.Length
    modifies hexdata
    ensures index == |MacBytes(text)|
    ensures forall k :: at <= k < at + index ==> hexdata[k] == MacBytes(text)[k - at]
    ensures forall k :: 0 <= k < hexdata.Length && !(at <= k < at + index) ==> hexdata[k] == old(hexdata[k])
  {
    hide TextByte, MacBytes;
    index := 0;
    var chardata := text;
    ghost var done: seq<byte> := [];
    while FirstColon(chardata) < |chardata|
      invariant |done| == index && MacBytes(text) == done + MacBytes(chardata)
      invariant forall k :: at <= k < at + index ==> hexdata[k] == done[k - at]
      invariant forall k :: 0 <= k < hexdata.Length && !(at <= k < at + index) ==> hexdata[k] == old(hexdata[k])
      decreases |chardata|
    {
      var ptr := FirstColon(chardata);
      var v := FirstByte(chardata);
      MacBytesCons(chardata);
      assert done + MacBytes(chardata) == done + [v] + MacBytes(chardata[ptr + 1..]);
      hexdata[at + index] := v;
      done := done + [v];
      index := index + 1;
      chardata := chardata[ptr + 1..];
    }
    MacBytesLast(chardata, TextByte(chardata));
    hexdata[at + index] := TextByte(chardata);
    index := index + 1;
  }

  // ------------------------------------------------------------------- the files

  /** btmac.txt and wifimac.txt. */
  datatype MacFiles = MacFiles(bt: Option<string>, wifi: Option<string>)

  predicate IsMac(s: string) { |MacBytes(s)| == MAC }

  predicate Sound(f: MacFiles) {
    (f.bt.Some? ==> IsMac(f.bt.value)) && (f.wifi.Some? ==> IsMac(f.wifi.value))
  }

  function Reversed(a: seq<byte>): (r: seq<byte>)
    ensures |r| == |a| && forall k :: 0 <= k < |a| ==> r[k] == a[|a| - 1 - k]
  {
    seq(|a|, k requires 0 <= k < |a| => a[|a| - 1 - k])
  }

  function Bt(record: seq<byte>): seq<byte>
    requires |record| == RECORD
  {
    record[BT_AT..BT_AT + MAC]
  }

  function Wifi(record: seq<byte>): seq<byte>
    requires |record| == RECORD
  {
    record[WIFI_AT..WIFI_AT + MAC]
  }

  predicate Checks(m: seq<byte>, lo: byte, hi: byte) {
    lo == LowByte(Crc(Zeros(16), m)) && hi == HighByte(Crc(Zeros(16), m))
  }

  /** What the world outside supplies to a write: the random addresses used for an
      address neither sent nor stored, and whether each file can be opened. */
  datatype World = World(randomBt: string, randomWifi: string, btOpens: bool, wifiOpens: bool)

  predicate Usable(w: World) { IsMac(w.randomBt) && IsMac(w.randomWifi) }

  /** The write command: the files it leaves and whether it reports success. */
  function Write(f: MacFiles, subtype: byte, record: seq<byte>, lo: byte, hi: byte, w: World): (MacFiles, bool)
    requires |record| == RECORD
  {
    if !Checks(record, lo, hi) then (f, false)
    else
      var bt := if BtBit(subtype) then MacText(Reversed(Bt(record))) else if f.bt.Some? then f.bt.value else w.randomBt;
      var wifi := if WifiBit(subtype) then MacText(Wifi(record))
                  else if f.wifi.Some? then f.wifi.value else w.randomWifi;
      (MacFiles(if w.btOpens then Some(bt) else f.bt, if w.wifiOpens then Some(wifi) else f.wifi), w.btOpens)
  }

  /** What a read command finds of each address: zeros if it is not asked for or
      not stored. The Bluetooth text is the record's bytes backwards. */
  function BtField(f: MacFiles, asked: byte): (a: seq<byte>)
    requires Sound(f)
    ensures |a| == MAC
  {
    if BtBit(asked) && f.bt.Some? then Reversed(MacBytes(f.bt.value)) else [0, 0, 0, 0, 0, 0]
  }

  function WifiField(f: MacFiles, asked: byte): (a: seq<byte>)
    requires Sound(f)
    ensures |a| == MAC
  {
    if WifiBit(asked) && f.wifi.Some? then MacBytes(f.wifi.value) else [0, 0, 0, 0, 0, 0]
  }

  /** The record a read command answers with: zero but for the two addresses. */
  function ReadRecord(f: MacFiles, asked: byte): (record: seq<byte>)
    requires Sound(f)
    ensures |record| == RECORD && Bt(record) == BtField(f, asked) && Wifi(record) == WifiField(f, asked)
  {
    var bt, wifi := BtField(f, asked), WifiField(f, asked);
    seq(RECORD, k requires 0 <= k < RECORD =>
      if BT_AT <= k < BT_AT + MAC then bt[k - BT_AT]
      else if WIFI_AT <= k < WIFI_AT + MAC then wifi[k - WIFI_AT]
      else 0)
  }

  /** The unstuffed answer to a read command with the given header. */
  function Answer(f: MacFiles, head: seq<byte>): (p: seq<byte>)
    requires Sound(f) && |head| == HEAD
    ensures |p| == ANSWER
  {
    var record := ReadRecord(f, head[7]);
    head[..4] + [116, 0, head[6], 1] + record
      + [LowByte(Crc(Zeros(16), record)), HighByte(Crc(Zeros(16), record))]
  }

  /** The unstuffed answer to a write command: the header with its outcome, two zeros. */
  function Acknowledgement(head: seq<byte>, ok: bool): (p: seq<byte>)
    requires |head| == HEAD
    ensures |p| == HEAD + 2
  {
    head[..4] + [10, 0, head[6], if ok then 1 else 0, 0, 0]
  }

  /** The check in is_btwifi_addr_need_to_handle: the checksum found at the end of
      the length the header announces, against the one computed. */
  predicate ReceiverAccepts(buf: seq<byte>)
    requires |buf| > HEAD
  {
    var len := (buf[5] as int) + 256 * (buf[6] as int);
    HEAD + 2 <= len < |buf| && Checks(buf[1 + HEAD..len - 1], buf[len - 1], buf[len])
  }

  function RecordIn(answer: seq<byte>): seq<byte>
    requires |answer| == ANSWER
  {
    answer[HEAD..HEAD + RECORD]
  }

  // ---------------------------------------------------------------- the theorems

  lemma WriteKeepsSound(f: MacFiles, subtype: byte, record: seq<byte>, lo: byte, hi: byte, w: World)
    requires Sound(f) && Usable(w) && |record| == RECORD
    ensures Sound(Write(f, subtype, record, lo, hi, w).0)
  {
    hide MacText, MacBytes;
    MacTextReadsBack(Reversed(Bt(record)));
    MacTextReadsBack(Wifi(record));
  }

  /** Whatever is stored, the answer survives the link and passes the receiver's
      own checksum test. */
  lemma AnswerArrivesIntact(f: MacFiles, head: seq<byte>, noise: seq<byte>, flags: nat)
    requires Sound(f) && |head| == HEAD && FLAG !in noise
    ensures Untranslate(noise + Flags(flags) + Frame(Answer(f, head)), -1) == Answer(f, head)
    ensures ReceiverAccepts([FLAG] + Answer(f, head) + [FLAG])
    ensures RecordIn(Answer(f, head)) == ReadRecord(f, head[7])
  {
    var p := Answer(f, head);
    assert noise + Flags(flags) + Frame(p) == noise + Flags(flags) + Frame(p) + [];
    RoundTrip(noise, flags, p, [], -1);
    var buf := [FLAG] + p + [FLAG];
    var len := ANSWER;
    assert buf[5] == p[4] == len && buf[6] == p[5] == 0;
    assert buf[1 + HEAD..len - 1] == ReadRecord(f, head[7]);
    assert buf[len - 1] == p[len - 2] && buf[len] == p[len - 1];
  }

  /** The Bluetooth bytes a read finds after a write: those written, those stored, or
      random ones where there were none, unless the file does not open. */
  lemma {:induction false} BtCarried(f: MacFiles, subtype: byte, record: seq<byte>, lo: byte, hi: byte, w: World,
                                     asked: byte)
    requires Sound(f) && Usable(w) && |record| == RECORD && Checks(record, lo, hi) && BtBit(asked)
    requires Sound(Write(f, subtype, record, lo, hi, w).0)
    ensures BtField(Write(f, subtype, record, lo, hi, w).0, asked)
         == if !w.btOpens then BtField(f, asked)
            else if BtBit(subtype) then Bt(record)
            else if f.bt.Some? then BtField(f, asked) else Reversed(MacBytes(w.randomBt))
  {
    hide MacText, MacBytes, Checks;
    MacTextReadsBack(Reversed(Bt(record)));
    assert Reversed(Reversed(Bt(record))) == Bt(record);
  }

  lemma {:induction false} WifiCarried(f: MacFiles, subtype: byte, record: seq<byte>, lo: byte, hi: byte, w: World,
                                       asked: byte)
    requires Sound(f) && Usable(w) && |record| == RECORD && Checks(record, lo, hi) && WifiBit(asked)
    requires Sound(Write(f, subtype, record, lo, hi, w).0)
    ensures WifiField(Write(f, subtype, record, lo, hi, w).0, asked)
         == if !w.wifiOpens then WifiField(f, asked)
            else if WifiBit(subtype) then Wifi(record)
            else if f.wifi.Some? then WifiField(f, asked) else MacBytes(w.randomWifi)
  {
    hide MacText, MacBytes, Checks;
    MacTextReadsBack(Wifi(record));
  }

  /** A write followed by a read, for all addresses, whatever files open and through any
      noise on the line: the answer unstuffs and passes the receiver's check. An address
      written and asked for comes back if and only if its file opened, or already held
      it; one not written comes back as it was stored. */
  lemma {:induction false} WriteThenRead(f: MacFiles, subtype: byte, record: seq<byte>, lo: byte, hi: byte, w: World,
                                         head: seq<byte>, noise: seq<byte>, flags: nat)
    requires Sound(f) && Usable(w)
    requires |record| == RECORD && Checks(record, lo, hi)
    requires |head| == HEAD && FLAG !in noise
    ensures var f' := Write(f, subtype, record, lo, hi, w).0;
            && Sound(f') && (Write(f, subtype, record, lo, hi, w).1 <==> w.btOpens)
            && var answer := Untranslate(noise + Flags(flags) + Frame(Answer(f', head)), -1);
            && |answer| == ANSWER
            && ReceiverAccepts([FLAG] + answer + [FLAG])
            && (BtBit(head[7]) && BtBit(subtype) ==>
                 (Bt(RecordIn(answer)) == Bt(record) <==> w.btOpens || BtField(f, head[7]) == Bt(record)))
            && (WifiBit(head[7]) && WifiBit(subtype) ==>
                 (Wifi(RecordIn(answer)) == Wifi(record) <==> w.wifiOpens || WifiField(f, head[7]) == Wifi(record)))
            && (!BtBit(subtype) && (f.bt.Some? || !w.btOpens) ==> Bt(RecordIn(answer)) == BtField(f, head[7]))
            && (!WifiBit(subtype) && (f.wifi.Some? || !w.wifiOpens) ==> Wifi(RecordIn(answer)) == WifiField(f, head[7]))
  {
    var f' := Write(f, subtype, record, lo, hi, w).0;
    WriteKeepsSound(f, subtype, record, lo, hi, w);
    AnswerArrivesIntact(f', head, noise, flags);
    if BtBit(head[7]) {
      BtCarried(f, subtype, record, lo, hi, w, head[7]);
    }
    if WifiBit(head[7]) {
      WifiCarried(f, subtype, record, lo, hi, w, head[7]);
    }
    hide Untranslate, Frame, Answer, Checks, MacText, MacBytes;
  }

  lemma {:induction false} LowOfZero(n: nat)
    ensures Low(0, n) == Zeros(n)
  {
    if n > 0 {
      LowOfZero(n - 1);
    }
  }

  /** The answer to a write is accepted too: its two zeros are the checksum of nothing. */
  lemma {:induction false} AcknowledgementArrivesIntact(head: seq<byte>, ok: bool)
    requires |head| == HEAD
    ensures Untranslate(Frame(Acknowledgement(head, ok)), -1) == Acknowledgement(head, ok)
    ensures ReceiverAccepts([FLAG] + Acknowledgement(head, ok) + [FLAG])
  {
    hide Stuff, Receive;
    var p := Acknowledgement(head, ok);
    assert [] + Flags(0) + Frame(p) + [] == Frame(p);
    RoundTrip([], 0, p, [], -1);
    var buf := [FLAG] + p + [FLAG];
    assert buf[5] == 10 && buf[6] == 0 && buf[1 + HEAD..9] == [];
    assert Crc(Zeros(16), []) == Zeros(16);
    LowOfZero(8);
    assert Zeros(16) == ByteBits(0) + ByteBits(0);
    TwoBytes(Zeros(16), 0, 0);
  }

  /** A record and its checksum, damaged together within 16 consecutive bits anywhere or in
      an odd number of bits, are refused and leave both files alone. */
  lemma {:induction false} DamagedWriteRefused(f: MacFiles, subtype: byte, record: seq<byte>, lo: byte, hi: byte,
                                               record': seq<byte>, lo': byte, hi': byte, w: World, at: nat)
    requires |record| == RECORD == |record'| && Checks(record, lo, hi)
    requires Damaged(record + [lo, hi], record' + [lo', hi'], at)
    ensures Write(f, subtype, record', lo', hi', w) == (f, false)
  {
    hide Crc, Damaged;
    var zero, sent, received := Zeros(16), record + [lo, hi], record' + [lo', hi'];
    ResidueZeroIffChecksum(zero, record, lo, hi);
    ResidueZeroIffChecksum(zero, record', lo', hi');
    DamageDetected(sent, received, at);
  }

  /** The bits differ, but only inside 16 consecutive ones, or they differ in an odd number. */
  ghost predicate Damaged(m: seq<byte>, m': seq<byte>, at: nat)
    requires |m| == |m'|
  {
    || (m != m'
        && forall i :: 0 <= i < 8 * |m| && !(at <= i < at + 16) ==> MessageBits(m)[i] == MessageBits(m')[i])
    || Parity(Xor(MessageBits(m), MessageBits(m')))
  }

  lemma {:induction false} DamageDetected(m: seq<byte>, m': seq<byte>, at: nat)
    requires |m| == |m'| && Damaged(m, m', at)
    ensures Crc(Zeros(16), m) != Crc(Zeros(16), m')
  {
    hide Crc;
    if Parity(Xor(MessageBits(m), MessageBits(m'))) {
      OddErrorsDetected(Zeros(16), m, m');
    } else {
      BurstDetected(Zeros(16), m, m', at);
    }
  }

  /** The success reported covers the Bluetooth file only: the code of the WiFi file is
      overwritten before it is looked at. A write of the WiFi address is reported as
      done and yet not there if and only if that file alone does not open and did not
      hold the same bytes. */
  lemma {:induction false} FalseSuccessIff(f: MacFiles, subtype: byte, record: seq<byte>, lo: byte, hi: byte, w: World,
                                           asked: byte)
    requires Sound(f) && Usable(w) && |record| == RECORD && WifiBit(subtype) && WifiBit(asked)
    ensures var (f', ok) := Write(f, subtype, record, lo, hi, w);
            && Sound(f') && (ok <==> Checks(record, lo, hi) && w.btOpens)
            && (ok && WifiField(f', asked) != Wifi(record)
                <==> Checks(record, lo, hi) && w.btOpens && !w.wifiOpens && WifiField(f, asked) != Wifi(record))
  {
    WriteKeepsSound(f, subtype, record, lo, hi, w);
    hide WifiField, MacBytes, MacText, Checks;
    if Checks(record, lo, hi) {
      WifiCarried(f, subtype, record, lo, hi, w, asked);
    }
  }

  /** The address 01:00:00:00:00:00 sent to a handset that has none and cannot open its
      WiFi file: success, and six zeros come back. */
  lemma {:induction false} FalseSuccess(w: World)
    requires Usable(w) && w.btOpens && !w.wifiOpens
    ensures var f, record := MacFiles(None, None), seq(RECORD, k => if k == WIFI_AT then 1 else 0);
            var crc := Crc(Zeros(16), record);
            var (f', ok) := Write(f, 0x40, record, LowByte(crc), HighByte(crc), w);
            ok && Sound(f') && Wifi(ReadRecord(f', 0xc0)) == [0, 0, 0, 0, 0, 0] && Wifi(record) == [1, 0, 0, 0, 0, 0]
  {
    var record := seq(RECORD, k => if k == WIFI_AT then 1 else 0);
    var crc := Crc(Zeros(16), record);
    WriteKeepsSound(MacFiles(None, None), 0x40, record, LowByte(crc), HighByte(crc), w);
    hide Crc, MacText, MacBytes;
  }

  // ------------------------------------------------------------------ the handler

  class Handset {
    var files: MacFiles

    constructor ()
      ensures files == MacFiles(None, None)
    {
      files := MacFiles(None, None);
    }

    /** The write branch of eng_diag_btwifi, on a frame already unstuffed in place. */
    method HandleWrite(buf: array<byte>, w: World) returns (ok: bool)
      requires buf.Length >= 1 + ANSWER && Sound(files) && Usable(w)
      modifies this
      ensures Sound(files)
      ensures (files, ok)
              == Write(old(files), buf[8], buf[1 + HEAD..1 + HEAD + RECORD],
                       buf[1 + HEAD + RECORD], buf[1 + HEAD + RECORD + 1], w)
    {
      hide MacText, MacBytes, Crc;
      ghost var record := buf[1 + HEAD..1 + HEAD + RECORD];
      WriteKeepsSound(files, buf[8], record, buf[1 + HEAD + RECORD], buf[1 + HEAD + RECORD + 1], w);
      var direct := new byte[RECORD](i requires 0 <= i < RECORD reads buf => buf[1 + HEAD + i]);
      assert direct[..] == record;
      var crc := ComputeCrc(Zeros(16), direct, RECORD);
      assert direct[..RECORD] == record;
      ok := false;
      if buf[1 + HEAD + RECORD] == LowByte(crc) && buf[1 + HEAD + RECORD + 1] == HighByte(crc) {
        var bt := if BtBit(buf[8]) then MacText(Reversed(direct[BT_AT..BT_AT + MAC]))
                  else if files.bt.Some? then files.bt.value else w.randomBt;
        var wifi := if WifiBit(buf[8]) then MacText(direct[WIFI_AT..WIFI_AT + MAC])
                    else if files.wifi.Some? then files.wifi.value else w.randomWifi;
        if w.wifiOpens {
          files := files.(wifi := Some(wifi));
        }
        if w.btOpens {
          files := files.(bt := Some(bt));
        }
        ok := w.btOpens;
      }
    }

    /** The three exchanges that turn the Bluetooth bytes around. */
    static method SwapEnds(direct: array<byte>)
      requires direct.Length == RECORD
      modifies direct
      ensures forall k :: 0 <= k < RECORD ==>
                direct[k] == old(direct[if BT_AT <= k < BT_AT + MAC then 2 * BT_AT + MAC - 1 - k else k])
    {
      direct[BT_AT], direct[BT_AT + 5] := direct[BT_AT + 5], direct[BT_AT];
      direct[BT_AT + 1], direct[BT_AT + 4] := direct[BT_AT + 4], direct[BT_AT + 1];
      direct[BT_AT + 2], direct[BT_AT + 3] := direct[BT_AT + 3], direct[BT_AT + 2];
    }

    method FillRecord(subtype: byte) returns (direct: array<byte>)
      requires Sound(files)
      ensures fresh(direct) && direct[..] == ReadRecord(files, subtype)
    {
      hide MacBytes;
      ghost var bt, wifi := BtField(files, subtype), WifiField(files, subtype);
      direct := new byte[RECORD](_ => 0);
      if BtBit(subtype) && files.bt.Some? {
        var n := Char2Hex(direct, BT_AT, files.bt.value);
        SwapEnds(direct);
      }
      assert forall k :: BT_AT <= k < BT_AT + MAC ==> direct[k] == bt[k - BT_AT];
      assert forall k :: WIFI_AT <= k < WIFI_AT + MAC ==> direct[k] == 0;
      if WifiBit(subtype) && files.wifi.Some? {
        var n := Char2Hex(direct, WIFI_AT, files.wifi.value);
      }
      assert forall k :: WIFI_AT <= k < WIFI_AT + MAC ==> direct[k] == wifi[k - WIFI_AT];
    }

    /** The read branch of eng_diag_btwifi: the response is built in `tmprsp`. */
    method HandleRead(buf: array<byte>, rsp: array<byte>) returns (rlen: nat)
      requires buf.Length >= 1 + HEAD && rsp.Length >= 2 * ANSWER + 2 && buf != rsp && Sound(files)
      modifies buf, rsp
      ensures rlen <= rsp.Length && rsp[..rlen] == Frame(Answer(files, old(buf[1..1 + HEAD])))
    {
      hide ReadRecord, Crc, Stuff;
      ghost var head := buf[1..1 + HEAD];
      var direct := FillRecord(buf[8]);
      buf[8] := 1;
      var crc := ComputeCrc(Zeros(16), direct, RECORD);
      assert direct[..RECORD] == direct[..] == ReadRecord(files, head[7]);
      var tmprsp := new byte[ANSWER](_ => 0);
      FillResponse(buf, direct, crc, tmprsp);
      assert buf[1..5] == head[..4] && buf[7] == head[6];
      assert tmprsp[..ANSWER] == tmprsp[..] == Answer(files, head);
      rlen := TranslatePacket(rsp, tmprsp, ANSWER);
    }

    method SendAcknowledgement(buf: array<byte>, rsp: array<byte>, ok: bool) returns (rlen: nat)
      requires buf.Length >= 1 + HEAD && rsp.Length >= 2 * ANSWER + 2 && buf != rsp
      modifies buf, rsp
      ensures rlen <= rsp.Length && rsp[..rlen] == Frame(Acknowledgement(old(buf[1..1 + HEAD]), ok))
    {
      hide Stuff, Specials;
      ghost var head := buf[1..1 + HEAD];
      buf[8] := if ok then 1 else 0;
      var tmprsp := new byte[HEAD + 2](_ => 0);
      for k := 0 to HEAD
        modifies tmprsp
        invariant forall j :: 0 <= j < k ==> tmprsp[j] == buf[1 + j]
        invariant forall j :: k <= j < HEAD + 2 ==> tmprsp[j] == 0
      {
        tmprsp[k] := buf[1 + k];
      }
      tmprsp[4], tmprsp[5] := 10, 0;
      assert forall j :: 0 <= j < HEAD && j != 7 ==> buf[1 + j] == head[j];
      assert tmprsp[..HEAD + 2] == Acknowledgement(head, ok);
      rlen := TranslatePacket(rsp, tmprsp, HEAD + 2);
    }

    /** eng_diag_btwifi on a frame already unstuffed in place. `cpToo` is s_cp_ap_proc:
        the modem handles the command as well, and then it is the modem that answers a
        write. */
    method BtWifi(buf: array<byte>, rsp: array<byte>, w: World, cpToo: bool) returns (rlen: nat)
      requires buf.Length >= 1 + ANSWER && rsp.Length >= 2 * ANSWER + 2 && buf != rsp && Sound(files) && Usable(w)
      modifies this, buf, rsp
      ensures Sound(files) && rlen <= rsp.Length
      ensures old(buf[8]) >= 0x80 ==>
                files == old(files) && rsp[..rlen] == Frame(Answer(files, old(buf[1..1 + HEAD])))
      ensures old(buf[8]) < 0x80 ==>
                var r := Write(old(files), old(buf[8]), old(buf[1 + HEAD..1 + HEAD + RECORD]),
                               old(buf[1 + HEAD + RECORD]), old(buf[1 + HEAD + RECORD + 1]), w);
                && files == r.0
                && if cpToo then rlen == 0 else rsp[..rlen] == Frame(Acknowledgement(old(buf[1..1 + HEAD]), r.1))
      ensures old(buf[8]) < 0x80 && cpToo ==> buf[..] == old(buf[..])[8 := WithoutAddressBits(old(buf[8]))]
    {
      hide Write, Answer, Frame, Acknowledgement, WithoutAddressBits;
      if !ReadCommand(buf[8]) {
        var ok := HandleWrite(buf, w);
        if cpToo {
          buf[8] := WithoutAddressBits(buf[8]);
          rlen := 0;
        } else {
          rlen := SendAcknowledgement(buf, rsp, ok);
        }
      } else {
        rlen := HandleRead(buf, rsp);
      }
    }

    static method FillResponse(buf: array<byte>, direct: array<byte>, crc: Word, tmprsp: array<byte>)
      requires buf.Length >= 1 + HEAD && direct.Length == RECORD && tmprsp.Length == ANSWER
      requires tmprsp != buf && tmprsp != direct
      modifies tmprsp
      ensures tmprsp[..] == buf[1..5] + [116, 0, buf[7], buf[8]] + direct[..] + [LowByte(crc), HighByte(crc)]
    {
      for k := 0 to HEAD
        invariant forall j :: 0 <= j < k ==> tmprsp[j] == buf[1 + j]
      {
        tmprsp[k] := buf[1 + k];
      }
      for k := 0 to RECORD
        invariant forall j :: 0 <= j < HEAD ==> tmprsp[j] == buf[1 + j]
        invariant forall j :: 0 <= j < k ==> tmprsp[HEAD + j] == direct[j]
      {
        tmprsp[HEAD + k] := direct[k];
      }
      tmprsp[HEAD + RECORD] := LowByte(crc);
      tmprsp[HEAD + RECORD + 1] := HighByte(crc);
      tmprsp[4], tmprsp[5] := 116, 0;
      assert forall j :: 0 <= j < RECORD ==> tmprsp[HEAD + j] == direct[j];
    }
  }
}
