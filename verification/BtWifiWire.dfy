/** The address command of engmode/eng_diag.c as the tool sees it: which bits of the
    request ask for what, what the files then say, and every byte of the answer's header.

    A header is four bytes of sequence number, two of length, one of type, one of subtype.
 */
module BtWifiWire {
  import opened Bits
  import opened DiagFraming
  import opened BtWifiDiag

  const HEX := "0123456789abcdef"

  /** Six bytes in hexadecimal with colons between them. */
  lemma {:induction false} MacTextIs(a: seq<byte>, k: nat)
    requires a != [] && k < |a|
    ensures |MacText(a)| == 3 * |a| - 1
    ensures MacText(a)[3 * k] == HEX[a[k] / 16] && MacText(a)[3 * k + 1] == HEX[a[k] % 16]
    ensures k + 1 < |a| ==> MacText(a)[3 * k + 2] == ':'
    decreases |a|
  {
    hide HexByte;
    HexByteIs(a[k]);
    if |a| > 1 {
      if k > 0 {
        MacTextIs(a[1..], k - 1);
      } else {
        MacTextIs(a[1..], 0);
      }
    }
  }

  lemma {:induction false} HexByteIs(b: byte)
    ensures HexByte(b)[0] == HEX[b / 16] && HexByte(b)[1] == HEX[b % 16]
  {
    hide Digit;
    DigitIs(b / 16);
    DigitIs(b % 16);
  }

  lemma {:induction false} DigitIs(n: nat)
    requires n < 16
    ensures Digit(n) == HEX[n]
  {
  }

  /** A subtype with 0x80 set reads, one without writes; 0x04 is the Bluetooth address and
      0x40 the WiFi address. */
  predicate Asks(subtype: byte, bit: nat)
    requires bit > 0
  {
    subtype / bit % 2 == 1
  }

  /** What a write leaves in the two files: nothing new if its record does not check.
      Otherwise the Bluetooth address is the six bytes from 16 on, backwards, the WiFi
      address those from 66 on. */
  lemma {:induction false} WriteStores(f: MacFiles, subtype: byte, record: seq<byte>, lo: byte, hi: byte, w: World)
    requires |record| == RECORD
    ensures !Checks(record, lo, hi) ==> Write(f, subtype, record, lo, hi, w) == (f, false)
    ensures Checks(record, lo, hi) ==>
              var f' := Write(f, subtype, record, lo, hi, w).0;
              && (w.btOpens && Asks(subtype, 0x04) ==>
                   f'.bt == Some(MacText([record[21], record[20], record[19], record[18], record[17], record[16]])))
              && (w.wifiOpens && Asks(subtype, 0x40) ==>
                   f'.wifi == Some(MacText([record[66], record[67], record[68], record[69], record[70], record[71]])))
              && (w.btOpens && !Asks(subtype, 0x04) ==> f'.bt == if f.bt.Some? then f.bt else Some(w.randomBt))
              && (w.wifiOpens && !Asks(subtype, 0x40) ==>
                   f'.wifi == if f.wifi.Some? then f.wifi else Some(w.randomWifi))
              && (!w.btOpens ==> f'.bt == f.bt) && (!w.wifiOpens ==> f'.wifi == f.wifi)
  {
    hide MacText, Checks;
    assert Reversed(Bt(record)) == [record[21], record[20], record[19], record[18], record[17], record[16]];
    assert Wifi(record) == [record[66], record[67], record[68], record[69], record[70], record[71]];
  }

  /** The answer to a write: ten bytes, with sequence number and type of the request, and
      subtype 1 if and only if the record checked and the Bluetooth file opened, else 0. */
  lemma {:induction false} WriteAnswered(f: MacFiles, head: seq<byte>, record: seq<byte>, lo: byte, hi: byte, w: World)
    requires |head| == HEAD && |record| == RECORD
    ensures var answer := Untranslate(Frame(Acknowledgement(head, Write(f, head[7], record, lo, hi, w).1)), -1);
            && |answer| == 10 && answer[..4] == head[..4] && answer[4..6] == [10, 0] && answer[6] == head[6]
            && answer[7] == (if Checks(record, lo, hi) && w.btOpens then 1 else 0)
  {
    hide MacText, Checks, Untranslate, Frame, ReceiverAccepts;
    AcknowledgementArrivesIntact(head, Write(f, head[7], record, lo, hi, w).1);
  }

  const NONE: seq<byte> := [0, 0, 0, 0, 0, 0]

  predicate AllZero(s: seq<byte>) { forall k :: 0 <= k < |s| ==> s[k] == 0 }

  /** The answer to a read: 116 bytes, with sequence number and type of the request and
      subtype 1; the addresses asked for and stored are in it, the Bluetooth address
      backwards, and zeros for all else. */
  lemma {:induction false} ReadAnswered(f: MacFiles, head: seq<byte>)
    requires Sound(f) && |head| == HEAD
    ensures var answer := Untranslate(Frame(Answer(f, head)), -1);
            && |answer| == 116 && answer[..4] == head[..4] && answer[4..6] == [116, 0] && answer[6] == head[6]
            && answer[7] == 1
            && answer[24..30] == (if Asks(head[7], 0x04) && f.bt.Some? then Reversed(MacBytes(f.bt.value)) else NONE)
            && answer[74..80] == (if Asks(head[7], 0x40) && f.wifi.Some? then MacBytes(f.wifi.value) else NONE)
            && AllZero(answer[8..24]) && AllZero(answer[30..74]) && AllZero(answer[80..114])
  {
    hide Untranslate, Frame, ReceiverAccepts, MacBytes, ReadRecord, AllZero, Reversed, BtField, WifiField;
    assert [] + Flags(0) + Frame(Answer(f, head)) == Frame(Answer(f, head));
    AnswerArrivesIntact(f, head, [], 0);
    RecordIs(f, head[7]);
    AnswerBytes(f, head);
  }

  lemma {:induction false} RecordIs(f: MacFiles, asked: byte)
    requires Sound(f)
    ensures var record := ReadRecord(f, asked);
            && record[16..22] == (if Asks(asked, 0x04) && f.bt.Some? then Reversed(MacBytes(f.bt.value)) else NONE)
            && record[66..72] == (if Asks(asked, 0x40) && f.wifi.Some? then MacBytes(f.wifi.value) else NONE)
            && AllZero(record[0..16]) && AllZero(record[22..66]) && AllZero(record[72..106])
  {
    ReadZeros(f, asked);
    hide MacBytes, ReadRecord, Reversed;
    var record := ReadRecord(f, asked);
    assert record[16..22] == Bt(record) && record[66..72] == Wifi(record);
  }

  lemma {:induction false} ReadZeros(f: MacFiles, asked: byte)
    requires Sound(f)
    ensures var record := ReadRecord(f, asked);
            AllZero(record[0..16]) && AllZero(record[22..66]) && AllZero(record[72..106])
  {
    hide BtField, WifiField;
  }

  lemma {:induction false} AnswerBytes(f: MacFiles, head: seq<byte>)
    requires Sound(f) && |head| == HEAD
    ensures var answer, record := Answer(f, head), ReadRecord(f, head[7]);
            && answer[..4] == head[..4] && answer[4..6] == [116, 0] && answer[6] == head[6] && answer[7] == 1
            && answer[8..24] == record[0..16] && answer[24..30] == record[16..22] && answer[30..74] == record[22..66]
            && answer[74..80] == record[66..72] && answer[80..114] == record[72..106]
  {
    hide ReadRecord;
  }

  // -------------------------------------------------------------- reading any text

  predicate IsHex(c: char) { '0' <= c <= '9' || 'a' <= c <= 'f' || 'A' <= c <= 'F' }

  predicate AllHex(s: string) { forall k :: 0 <= k < |s| ==> IsHex(s[k]) }

  /** The number written in hexadecimal. */
  function Number(s: string): nat
    requires AllHex(s)
  {
    if s == [] then 0
    else
      var c := s[|s| - 1];
      16 * Number(s[..|s| - 1])
      + if c <= '9' then c as nat - 48 else if c <= 'F' then c as nat - 55 else c as nat - 87
  }

  lemma {:induction false} HexIffDigit(c: char)
    ensures IsHex(c) <==> DigitValue(c) < 16
    ensures IsHex(c) ==>
              DigitValue(c) == if c <= '9' then c as nat - 48 else if c <= 'F' then c as nat - 55 else c as nat - 87
  {
  }

  lemma {:induction false} HexValueAppend(s: string, c: char, rest: string, acc: nat)
    requires AllHex(s) && IsHex(c) && (rest != [] ==> !IsHex(rest[0]))
    ensures HexValue(s + [c] + rest, acc) == 16 * HexValue(s, acc) + DigitValue(c)
    decreases |s|
  {
    hide DigitValue, IsHex;
    HexIffDigit(c);
    var all := s + [c] + rest;
    if s == [] {
      assert all[0] == c && all[1..] == rest;
      if rest != [] {
        HexIffDigit(rest[0]);
      }
    } else {
      HexIffDigit(s[0]);
      assert all[0] == s[0] && all[1..] == s[1..] + [c] + rest;
      HexValueAppend(s[1..], c, rest, 16 * acc + DigitValue(s[0]));
    }
  }

  lemma {:induction false} HexValueIs(s: string, rest: string)
    requires AllHex(s) && (rest != [] ==> !IsHex(rest[0]))
    ensures HexValue(s + rest, 0) == Number(s)
    decreases |s|
  {
    hide DigitValue, IsHex;
    if s == [] {
      assert s + rest == rest;
      if rest != [] {
        HexIffDigit(rest[0]);
      }
    } else {
      var init, c := s[..|s| - 1], s[|s| - 1];
      assert s == init + [c];
      HexIffDigit(c);
      HexValueIs(init, []);
      assert init + [] == init;
      HexValueAppend(init, c, rest, 0);
    }
  }

  lemma {:induction false} BlanksSkipped(blanks: string, s: string)
    requires (forall k :: 0 <= k < |blanks| ==> Blank(blanks[k])) && s != [] && !Blank(s[0])
    ensures SkipBlanks(blanks + s) == s
    decreases |blanks|
  {
    if blanks == [] {
      assert blanks + s == s;
    } else {
      assert (blanks + s)[1..] == blanks[1..] + s;
      BlanksSkipped(blanks[1..], s);
    }
  }

  predicate Sign(s: string) { s == "" || s == "+" || s == "-" }

  predicate Prefix(s: string) { s == "" || s == "0x" || s == "0X" }

  function Limited(v: int): int {
    if v < -0x8000_0000 then -0x8000_0000 else if v > 0x7fff_ffff then 0x7fff_ffff else v
  }

  /** What strtol makes of a number with blanks, a sign and a prefix before it and anything
      behind it: its value, kept within 32 bits. */
  lemma {:induction false} StrToLReads(blanks: string, sign: string, prefix: string, digits: string, rest: string)
    requires (forall k :: 0 <= k < |blanks| ==> Blank(blanks[k])) && Sign(sign) && Prefix(prefix)
    requires digits != [] && AllHex(digits) && (rest != [] ==> !IsHex(rest[0]))
    requires prefix == "" && digits == "0" && rest != [] ==> rest[0] != 'x' && rest[0] != 'X'
    ensures var v: int := Number(digits);
            StrToL(blanks + (sign + (prefix + (digits + rest)))) == Limited(if sign == "-" then -v else v)
  {
    hide SkipBlanks, HexValue, Number, Limited;
    var t := sign + (prefix + (digits + rest));
    SignedStart(sign, prefix, digits, rest);
    BlanksSkipped(blanks, t);
    HexValueIs(digits, rest);
    LimitedIs(Number(digits));
    if sign != "" {
      assert t[1..] == prefix + (digits + rest);
    } else {
      assert t == prefix + (digits + rest);
    }
    PrefixDropped(prefix, digits, rest);
  }

  lemma {:induction false} SignedStart(sign: string, prefix: string, digits: string, rest: string)
    requires Sign(sign) && Prefix(prefix) && digits != [] && IsHex(digits[0])
    ensures var t := sign + (prefix + (digits + rest));
            t != [] && !Blank(t[0]) && (t[0] == '-' <==> sign == "-") && (t[0] == '+' <==> sign == "+")
  {
    var u := prefix + (digits + rest);
    assert u[0] == if prefix == "" then digits[0] else '0';
  }

  lemma {:induction false} PrefixDropped(prefix: string, digits: string, rest: string)
    requires Prefix(prefix) && digits != [] && AllHex(digits)
    requires prefix == "" && digits == "0" && rest != [] ==> rest[0] != 'x' && rest[0] != 'X'
    ensures var u := prefix + (digits + rest);
            (if |u| >= 2 && u[0] == '0' && (u[1] == 'x' || u[1] == 'X') then u[2..] else u) == digits + rest
  {
    var u := prefix + (digits + rest);
    if prefix == "" {
      assert u == digits + rest;
      if |digits| > 1 {
        assert u[1] == digits[1] && IsHex(digits[1]);
      } else if rest != [] {
        assert digits == [u[0]] && u[1] == rest[0];
      }
    } else {
      assert u[0] == '0' && u[1] == prefix[1] && u[2..] == digits + rest;
    }
  }

  lemma {:induction false} LimitedIs(v: nat)
    ensures Limited(v) == if v > LONG_MAX then LONG_MAX else v
    ensures Limited(-(v as int)) == if v > LONG_MAX + 1 then -LONG_MAX - 1 else -(v as int)
  {
  }

  /** Every part of an address text but the last is read from the first two characters that
      are left, the last part as a whole. */
  lemma {:induction false} PartsRead(part: string, rest: string)
    requires ':' !in part
    ensures MacBytes(part) == [StrToL(part) % 256]
    ensures var s := part + [':'] + rest;
            MacBytes(s) == [StrToL(if |s| < 2 then s else s[..2]) % 256] + MacBytes(rest)
  {
    hide StrToL;
    var s := part + [':'] + rest;
    assert FirstColon(part) == |part|;
    assert s[|part|] == ':' && forall k :: 0 <= k < |part| ==> s[k] == part[k];
    assert FirstColon(s) == |part| && s[|part| + 1..] == rest;
    assert s[..|s|] == s;
    MacBytesCons(s);
    MacBytesLast(part, TextByte(part));
  }
}
