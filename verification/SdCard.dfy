/**
 * sd_protocol.c and sd_lib.c: the identification sequence, against the card state machine of the
 * SD Physical Layer Simplified Specification 2.00, section 4.8.
 */
module SdCard {
  import opened Crc

  // ----- words on the CMD line -----

  /** A relative card address as a command argument. */
  function Address(rca: bv16): bv32 { (rca as bv32) << 16 }

  function Append(w: bv32, b: bv8): bv32 { (w << 8) | (b as bv32) }

  function WordOf(s: seq<bv8>): bv32 {
    if s == [] then 0 else Append(WordOf(s[..|s| - 1]), s[|s| - 1])
  }

  function BytesOf(w: bv32): (s: seq<bv8>)
    ensures |s| == 4
  {
    [(w >> 24) as bv8, ((w >> 16) & 0xFF) as bv8, ((w >> 8) & 0xFF) as bv8, (w & 0xFF) as bv8]
  }

  lemma WordOfFour(s: seq<bv8>)
    requires |s| == 4
    ensures WordOf(s) == ((s[0] as bv32) << 24) | ((s[1] as bv32) << 16) | ((s[2] as bv32) << 8) | (s[3] as bv32)
  {
    hide Append;
    assert WordOf(s[..0]) == 0;
    assert s[..1][..0] == s[..0] && s[..2][..1] == s[..1] && s[..3][..2] == s[..2] && s[..4][..3] == s[..3];
    assert WordOf(s[..1]) == Append(0, s[0]);
    assert WordOf(s[..2]) == Append(WordOf(s[..1]), s[1]);
    assert WordOf(s[..3]) == Append(WordOf(s[..2]), s[2]);
    assert WordOf(s[..4]) == Append(WordOf(s[..3]), s[3]);
    assert s[..4] == s;
    FourShifts(s[0], s[1], s[2], s[3]);
  }

  lemma FourShifts(a: bv8, b: bv8, c: bv8, d: bv8)
    ensures Append(Append(Append(Append(0, a), b), c), d)
            == ((a as bv32) << 24) | ((b as bv32) << 16) | ((c as bv32) << 8) | (d as bv32)
  {
  }

  /** A word sent byte by byte is read back. */
  lemma WordBytes(w: bv32)
    ensures WordOf(BytesOf(w)) == w
  {
    hide BytesOf, WordOf;
    WordOfFour(BytesOf(w));
    JoinBytes32(w);
  }

  lemma JoinBytes32(w: bv32)
    ensures var s := BytesOf(w);
            ((s[0] as bv32) << 24) | ((s[1] as bv32) << 16) | ((s[2] as bv32) << 8) | (s[3] as bv32) == w
  {
  }

  method ArrayToU32(szData: array<bv8>, start: nat) returns (Value32: bv32)
    requires start + 4 <= szData.Length
    ensures Value32 == WordOf(szData[start..start + 4])
  {
    Value32 := 0;
    for i := 0 to 4
      invariant Value32 == WordOf(szData[start..start + i])
    {
      assert szData[start..start + i + 1][..i] == szData[start..start + i];
      Value32 := Append(Value32, szData[start + i]);
    }
  }

  // ----- the card -----

  datatype Phase = Idle | Ready | Ident | Stby | Tran | Inactive

  type Register = s: seq<bv8> | |s| == 15 witness seq(15, _ => 0)

  /** What a card is: version, capacity, voltage window, polls it stays busy for, the address it will publish. */
  datatype Profile = Profile(v2: bool, hc: bool, window: bv32, busy: nat, rca: bv16, readLen: bv32,
                             cid: Register, csd: Register)

  datatype CardState = CardState(phase: Phase, appCmd: bool, illegal: bool, rca: bv16, busy: nat,
                                 blockLen: bv32, wide: bool, pullUp: bool)

  /** Idle, after CMD0. */
  function Reset(p: Profile): CardState {
    CardState(Idle, false, false, 0, p.busy, p.readLen, false, true)
  }

  /** The body with its checksum and end bit. */
  function Sealed(body: seq<bv8>): seq<bv8> {
    body + [(Checksum7(body) << 1) | 0x01]
  }

  function PhaseBits(phase: Phase): bv32 {
    match phase
    case Idle => 0x0000
    case Ready => 0x0200
    case Ident => 0x0400
    case Stby => 0x0600
    case Tran => 0x0800
    case Inactive => 0
  }

  /** Card status, section 4.10: the state is the one in which the command was received. */
  function Status(s: CardState, app: bool): bv32 {
    (if s.illegal then 0x00400000 else 0) | PhaseBits(s.phase) | 0x0100 | (if app then 0x20 else 0)
  }

  function R1(idx: bv8, status: bv32): seq<bv8> { Sealed([idx] + BytesOf(status)) }

  function R2(reg: Register): seq<bv8> { [0x3F] + Sealed(reg) }

  function R3(ocr: bv32): seq<bv8> { [0x3F] + BytesOf(ocr) + [0xFF] }

  /** The new address, then bits 23, 22, 19 and 12 to 0 of the status, of which 23 and 19 stay clear here. */
  function AddressAndStatus(rca: bv16, s: CardState): bv32 {
    Address(rca) | LowStatus(s)
  }

  function LowStatus(s: CardState): bv32 {
    (if s.illegal then 0x4000 else 0) | (Status(s, false) & 0x1FFF)
  }

  function R6(rca: bv16, s: CardState): seq<bv8> { Sealed([0x03] + BytesOf(AddressAndStatus(rca, s))) }

  function R7(arg: bv32): seq<bv8> { Sealed([0x08] + BytesOf(arg & 0x0FFF)) }

  datatype Reaction = Reaction(next: CardState, accepted: bool, reply: seq<bv8>)

  /** Whether the host offers a voltage the card takes. */
  predicate Takes(window: bv32, arg: bv32) { arg & window & 0x00FFFFFF != 0 }

  /** Whether the host supports high capacity cards. */
  predicate HighCapacity(arg: bv32) { arg & 0x40000000 != 0 }

  /** The operating conditions register while powering up. */
  function BusyOcr(window: bv32): bv32 { window & 0x00FFFFFF }

  function ReadyOcr(window: bv32, hc: bool): bv32 {
    (window & 0x00FFFFFF) | 0x80000000 | (if hc then 0x40000000 else 0)
  }

  function OpCond(p: Profile, s: CardState, arg: bv32): Reaction {
    var t := s.(appCmd := false, illegal := false);
    if !Takes(p.window, arg) then Reaction(t.(phase := Inactive), false, [])
    else if s.busy > 0 then Reaction(t.(busy := s.busy - 1), true, R3(BusyOcr(p.window)))
    else if p.hc && !HighCapacity(arg) then Reaction(t, true, R3(BusyOcr(p.window)))
    else Reaction(t.(phase := Ready), true, R3(ReadyOcr(p.window, p.hc)))
  }

  /** One command: the card changes state and answers, or stays silent and remembers an illegal command. */
  function React(p: Profile, s: CardState, idx: bv8, arg: bv32): Reaction {
    var t := s.(appCmd := false, illegal := false);
    var here := (arg >> 16) as bv16 == s.rca;
    if s.phase == Inactive then Reaction(s, false, [])
    else if idx == 0 then Reaction(Reset(p), true, [])
    else if idx == 55 && s.phase in {Idle, Stby, Tran} then
      if here then Reaction(t.(appCmd := true), true, R1(55, Status(s, true)))
      else Reaction(s.(appCmd := false), false, [])
    else if s.appCmd && idx == 41 && s.phase == Idle then OpCond(p, s, arg)
    else if s.appCmd && idx == 6 && s.phase == Tran then
      Reaction(t.(wide := arg & 0x03 == 0x02), true, R1(6, Status(s, true)))
    else if s.appCmd && idx == 42 && s.phase == Tran then
      Reaction(t.(pullUp := arg & 0x01 == 0x01), true, R1(42, Status(s, true)))
    else if idx == 8 && s.phase == Idle && p.v2 then
      if (arg >> 8) & 0x0F == 0x01 then Reaction(t, true, R7(arg)) else Reaction(t, false, [])
    else if idx == 2 && s.phase == Ready then Reaction(t.(phase := Ident), true, R2(p.cid))
    else if idx == 3 && s.phase in {Ident, Stby} then
      Reaction(t.(phase := Stby, rca := p.rca), true, R6(p.rca, s))
    else if idx in {9, 10} && s.phase == Stby then
      if here then Reaction(t, true, R2(if idx == 9 then p.csd else p.cid)) else Reaction(t, false, [])
    else if idx == 7 && s.phase == Stby then
      if here && s.rca != 0 then Reaction(t.(phase := Tran), true, R1(7, Status(s, false)))
      else Reaction(t, false, [])
    else if idx == 16 && s.phase == Tran then
      Reaction(t.(blockLen := if p.hc then 512 else arg), true, R1(16, Status(s, false)))
    else Reaction(s.(appCmd := false, illegal := true), false, [])
  }

  /** A frame the card takes for a command: start and transmitter bits, checksum, end bit. */
  predicate WellFramed(frame: seq<bv8>) {
    && |frame| == 6 && frame[0] & 0xC0 == 0x40
    && Checksum7(frame[..5]) == frame[5] >> 1 && frame[5] & 0x01 == 0x01
  }

  /** A command as it reached the card, and whether the card carried it out. */
  datatype Sent = Sent(idx: bv8, accepted: bool)

  class Card {
    const profile: Profile
    var s: CardState
    var reply: seq<bv8>
    ghost var log: seq<Sent>

    constructor (profile: Profile, s: CardState)
      ensures this.profile == profile && this.s == s && reply == [] && log == []
    {
      this.profile, this.s, this.reply, this.log := profile, s, [], [];
    }

    /** Commands that are not well framed are ignored. */
    method Receive(frame: seq<bv8>)
      modifies this
      ensures WellFramed(frame) ==>
        var r := React(profile, old(s), frame[0] & 0x3F, WordOf(frame[1..5]));
        s == r.next && reply == r.reply && log == old(log) + [Sent(frame[0] & 0x3F, r.accepted)]
      ensures !WellFramed(frame) ==> s == old(s) && reply == [] && log == old(log)
    {
      if WellFramed(frame) {
        var idx := frame[0] & 0x3F;
        var r := React(profile, s, idx, WordOf(frame[1..5]));
        s, reply, log := r.next, r.reply, log + [Sent(idx, r.accepted)];
      } else {
        reply := [];
      }
    }
  }

  /** The command reached the card and the card reacted to it. */
  twostate predicate Took(card: Card, idx: bv8, arg: bv32)
    reads card
  {
    var r := React(card.profile, old(card.s), idx, arg);
    card.s == r.next && card.reply == r.reply && card.log == old(card.log) + [Sent(idx, r.accepted)]
  }

  // ----- frames and checks of the host -----

  lemma SealBits(c: bv8)
    requires c < 0x80
    ensures ((c << 1) | 0x01) >> 1 == c && ((c << 1) | 0x01) & 0x01 == 0x01
  {
  }

  lemma CommandBits(cmd: bv8)
    requires cmd < 0x40
    ensures (0x40 | cmd) & 0xC0 == 0x40 && (0x40 | cmd) & 0x3F == cmd
  {
  }

  /** Builds and sends a command with four argument bytes. */
  method Command(card: Card, Cmd: bv8, a1: bv8, a2: bv8, a3: bv8, a4: bv8)
    requires Cmd < 0x40
    modifies card
    ensures Took(card, Cmd, WordOf([a1, a2, a3, a4]))
  {
    hide React, Checksum7, WordOf;
    var szCmd := new bv8[6][0x40 | Cmd, a1, a2, a3, a4, 0x00];
    var crc := Crc7(0, szCmd, 0, 5);
    szCmd[5] := (crc << 1) | 0x01;
    assert szCmd[..5] == [0x40 | Cmd, a1, a2, a3, a4];
    assert szCmd[..][..5] == szCmd[..5];
    assert szCmd[..][1..5] == [a1, a2, a3, a4];
    SevenFits(szCmd[..5]);
    SealBits(crc);
    CommandBits(Cmd);
    card.Receive(szCmd[..]);
  }

  /** The line idles high after a response. */
  function Padded(reply: seq<bv8>, n: nat): (s: seq<bv8>)
    ensures |s| == n
    ensures |reply| == n ==> s == reply
  {
    seq(n, k requires 0 <= k < n => if k < |reply| then reply[k] else 0xFF)
  }

  method GetResponse(card: Card, szResponse: array<bv8>) returns (ok: bool)
    modifies szResponse
    ensures ok <==> card.reply != []
    ensures ok ==> szResponse[..] == Padded(card.reply, szResponse.Length)
  {
    ok := card.reply != [];
    if ok {
      for k := 0 to szResponse.Length
        invariant szResponse[..k] == Padded(card.reply, szResponse.Length)[..k]
      {
        szResponse[k] := if k < |card.reply| then card.reply[k] else 0xFF;
      }
    }
  }

  predicate TailGood(r: seq<bv8>, start: nat, len: nat)
    requires start + len < |r|
  {
    Checksum7(r[start..start + len]) == r[start + len] >> 1 && r[start + len] & 0x01 == 0x01
  }

  /** The checksum and end bit after len bytes. */
  method CheckTail(szResponse: array<bv8>, start: nat, len: nat) returns (bSuccess: bool)
    requires start + len < szResponse.Length
    ensures bSuccess <==> TailGood(szResponse[..], start, len)
  {
    hide Checksum7;
    bSuccess := true;
    var crc := Crc7(0, szResponse, start, len);
    assert szResponse[..][start..start + len] == szResponse[start..start + len];
    if crc != szResponse[start + len] >> 1 {
      bSuccess := false;
    }
    if bSuccess && szResponse[start + len] & 0x01 != 0x01 {
      bSuccess := false;
    }
  }

  predicate R1Good(r: seq<bv8>, cmd: bv8, status: bv32)
    requires |r| == 6
  {
    r[0] == cmd && WordOf(r[1..5]) == status && TailGood(r, 0, 5)
  }

  method CheckR1(szResponse: array<bv8>, Cmd: bv8, ExpectedStatus: bv32) returns (bSuccess: bool)
    requires szResponse.Length == 6
    ensures bSuccess <==> R1Good(szResponse[..], Cmd, ExpectedStatus)
  {
    hide WordOf, TailGood;
    bSuccess := true;
    if szResponse[0] != Cmd {
      bSuccess := false;
    }
    var CardStatus := ArrayToU32(szResponse, 1);
    assert szResponse[..][1..5] == szResponse[1..5];
    if CardStatus != ExpectedStatus {
      bSuccess := false;
    }
    if bSuccess {
      bSuccess := CheckTail(szResponse, 0, 5);
    }
  }

  // ----- the commands -----

  const SD_BIT_APP_CMD: bv32 := 0x01 << 5
  const SD_BIT_READY_FOR_DATA: bv32 := 0x01 << 8

  function Encode(state: bv8): bv32 { ((state as bv32) & 0x0F) << 9 }

  /** The card status the host insists on. */
  function Expected(app: bool, state: bv8): bv32 {
    (if app then SD_BIT_APP_CMD else 0) | SD_BIT_READY_FOR_DATA | Encode(state)
  }

  method CMD0(card: Card)
    modifies card
    ensures Took(card, 0, 0)
  {
    hide React;
    ZeroWord();
    Command(card, 0, 0x00, 0x00, 0x00, 0x00);
  }

  predicate R7Good(r: seq<bv8>, vol: bv8, pattern: bv8)
    requires |r| == 6
  {
    r[0] == 8 && r[3] == vol && r[4] == pattern && TailGood(r, 0, 5)
  }

  method CMD8(card: Card, VolId: bv8, TestPattern: bv8) returns (bSuccess: bool)
    modifies card
    ensures Took(card, 8, WordOf([0x00, 0x00, VolId & 0x0F, TestPattern]))
    ensures bSuccess <==> card.reply != [] && R7Good(Padded(card.reply, 6), VolId, TestPattern)
  {
    hide React, WordOf, TailGood, Padded;
    Command(card, 8, 0x00, 0x00, VolId & 0x0F, TestPattern);
    var szResponse := new bv8[6];
    bSuccess := GetResponse(card, szResponse);
    if bSuccess {
      if szResponse[0] != 8 {
        bSuccess := false;
      }
      if bSuccess && szResponse[3] != VolId {
        bSuccess := false;
      }
      if bSuccess && szResponse[4] != TestPattern {
        bSuccess := false;
      }
      if bSuccess {
        bSuccess := CheckTail(szResponse, 0, 5);
      }
    }
  }

  method CMD55(card: Card, RCA16: bv16, ExpectedState: bv8) returns (bSuccess: bool)
    modifies card
    ensures Took(card, 55, Address(RCA16))
    ensures bSuccess <==> card.reply != []
                          && R1Good(Padded(card.reply, 6), 55, Expected(true, ExpectedState))
  {
    hide React, R1Good, Padded, WordOf;
    AddressWord(RCA16);
    Command(card, 55, HighByte(RCA16), LowByte(RCA16), 0x00, 0x00);
    var szResponse := new bv8[6];
    bSuccess := GetResponse(card, szResponse);
    if bSuccess {
      bSuccess := CheckR1(szResponse, 55, Expected(true, ExpectedState));
    }
  }

  predicate OcrGood(r: seq<bv8>)
    requires |r| == 6
  {
    r[0] == 0x3F && WordOf(r[1..5]) & 0x80000000 == 0x80000000 && r[5] == 0xFF
  }

  method ACMD41(card: Card, HostOCR32: bv32) returns (bSuccess: bool, OCR: bv32)
    modifies card
    ensures Took(card, 41, HostOCR32 & 0x40FFFFFF)
    ensures bSuccess <==> card.reply != [] && OcrGood(Padded(card.reply, 6))
    ensures bSuccess ==> OCR == WordOf(Padded(card.reply, 6)[1..5])
  {
    hide React, WordOf, Padded;
    OcrWord(HostOCR32);
    Command(card, 41, ((HostOCR32 >> 24) & 0x40) as bv8, ((HostOCR32 >> 16) & 0xFF) as bv8,
            ((HostOCR32 >> 8) & 0xFF) as bv8, (HostOCR32 & 0xFF) as bv8);
    OCR := 0;
    var szResponse := new bv8[6];
    bSuccess := GetResponse(card, szResponse);
    if bSuccess {
      if szResponse[0] != 0x3F {
        bSuccess := false;
      }
      OCR := ArrayToU32(szResponse, 1);
      assert szResponse[..][1..5] == szResponse[1..5];
      if OCR & 0x80000000 != 0x80000000 {
        bSuccess := false;
      }
      if bSuccess && szResponse[5] != 0xFF {
        bSuccess := false;
      }
    }
  }

  predicate R2Good(r: seq<bv8>)
    requires |r| == 17
  {
    r[0] == 0x3F && TailGood(r, 1, 15)
  }

  /** CMD2, CMD9 and CMD10 differ only in the index and in whether they carry the address. */
  method ReadRegister(card: Card, Cmd: bv8, RCA16: bv16) returns (bSuccess: bool)
    requires Cmd in {2, 9, 10}
    modifies card
    ensures Took(card, Cmd, Address(RCA16))
    ensures bSuccess <==> card.reply != [] && R2Good(Padded(card.reply, 17))
  {
    hide React, WordOf, TailGood, Padded;
    AddressWord(RCA16);
    Command(card, Cmd, HighByte(RCA16), LowByte(RCA16), 0x00, 0x00);
    var szResponse := new bv8[17];
    bSuccess := GetResponse(card, szResponse);
    if bSuccess {
      if szResponse[0] != 0x3F {
        bSuccess := false;
      }
      if bSuccess {
        bSuccess := CheckTail(szResponse, 1, 15);
      }
    }
  }

  function Word16(high: bv8, low: bv8): bv16 { ((high as bv16) << 8) | (low as bv16) }

  /** The state field of a 16-bit status says identification. */
  predicate IdentStatus(status: bv16) { (status >> 9) & 0x0F == 2 }

  predicate R6Good(r: seq<bv8>)
    requires |r| == 6
  {
    r[0] == 3 && IdentStatus(Word16(r[3], r[4])) && TailGood(r, 0, 5)
  }

  method CMD3(card: Card) returns (bSuccess: bool, RCA16: bv16)
    modifies card
    ensures Took(card, 3, 0)
    ensures bSuccess <==> card.reply != [] && R6Good(Padded(card.reply, 6))
    ensures bSuccess ==> RCA16 == Word16(Padded(card.reply, 6)[1], Padded(card.reply, 6)[2])
  {
    hide React, TailGood, Padded;
    ZeroWord();
    Command(card, 3, 0x00, 0x00, 0x00, 0x00);
    RCA16 := 0;
    var szResponse := new bv8[6];
    bSuccess := GetResponse(card, szResponse);
    if bSuccess {
      if szResponse[0] != 3 {
        bSuccess := false;
      }
      RCA16 := Word16(szResponse[1], szResponse[2]);
      var Status16 := Word16(szResponse[3], szResponse[4]);
      if (Status16 >> 9) & 0x0F != 2 {
        bSuccess := false;
      }
      if bSuccess {
        bSuccess := CheckTail(szResponse, 0, 5);
      }
    }
  }

  method CMD7(card: Card, RCA16: bv16) returns (bSuccess: bool)
    modifies card
    ensures Took(card, 7, Address(RCA16))
    ensures bSuccess <==> card.reply != [] && R1Good(Padded(card.reply, 6), 7, Expected(false, 3))
  {
    hide React, R1Good, Padded, WordOf;
    AddressWord(RCA16);
    Command(card, 7, HighByte(RCA16), LowByte(RCA16), 0x00, 0x00);
    var szResponse := new bv8[6];
    bSuccess := GetResponse(card, szResponse);
    if bSuccess {
      bSuccess := CheckR1(szResponse, 7, Expected(false, 3));
    }
  }

  method CMD16(card: Card, BlockSize: bv32) returns (bSuccess: bool)
    modifies card
    ensures Took(card, 16, BlockSize)
    ensures bSuccess <==> card.reply != [] && R1Good(Padded(card.reply, 6), 16, Expected(false, 4))
  {
    hide React, R1Good, Padded, WordOf;
    WordBytes(BlockSize);
    Command(card, 16, (BlockSize >> 24) as bv8, ((BlockSize >> 16) & 0xFF) as bv8,
            ((BlockSize >> 8) & 0xFF) as bv8, (BlockSize & 0xFF) as bv8);
    var szResponse := new bv8[6];
    bSuccess := GetResponse(card, szResponse);
    if bSuccess {
      bSuccess := CheckR1(szResponse, 16, Expected(false, 4));
    }
  }

  /** ACMD6 and ACMD42: one argument byte, and the status of an application command. */
  method AppCommand(card: Card, Cmd: bv8, arg: bv8, ExpectedState: bv8) returns (bSuccess: bool)
    requires Cmd in {6, 42}
    modifies card
    ensures Took(card, Cmd, arg as bv32)
    ensures bSuccess <==> card.reply != []
                          && R1Good(Padded(card.reply, 6), Cmd, Expected(true, ExpectedState))
  {
    hide React, R1Good, Padded, WordOf;
    LowWord(arg);
    Command(card, Cmd, 0x00, 0x00, 0x00, arg);
    var szResponse := new bv8[6];
    bSuccess := GetResponse(card, szResponse);
    if bSuccess {
      bSuccess := CheckR1(szResponse, Cmd, Expected(true, ExpectedState));
    }
  }

  lemma ZeroWord()
    ensures WordOf([0x00, 0x00, 0x00, 0x00]) == 0
  {
    WordOfFour([0x00, 0x00, 0x00, 0x00]);
  }

  lemma LowWord(b: bv8)
    ensures WordOf([0x00, 0x00, 0x00, b]) == b as bv32
  {
    hide WordOf;
    WordOfFour([0x00, 0x00, 0x00, b]);
  }

  lemma AddressWord(rca: bv16)
    ensures WordOf([HighByte(rca), LowByte(rca), 0x00, 0x00]) == Address(rca)
  {
    hide WordOf;
    WordOfFour([HighByte(rca), LowByte(rca), 0x00, 0x00]);
    AddressBits(rca);
  }

  lemma AddressBits(rca: bv16)
    ensures ((HighByte(rca) as bv32) << 24) | ((LowByte(rca) as bv32) << 16) | (0 << 8) | 0 == Address(rca)
  {
  }

  lemma OcrWord(ocr: bv32)
    ensures WordOf([((ocr >> 24) & 0x40) as bv8, ((ocr >> 16) & 0xFF) as bv8, ((ocr >> 8) & 0xFF) as bv8, (ocr & 0xFF) as bv8])
            == ocr & 0x40FFFFFF
  {
    hide WordOf;
    WordOfFour([((ocr >> 24) & 0x40) as bv8, ((ocr >> 16) & 0xFF) as bv8, ((ocr >> 8) & 0xFF) as bv8, (ocr & 0xFF) as bv8]);
  }

  // ----- what the checks accept -----

  lemma SealedIsGood(body: seq<bv8>)
    ensures |Sealed(body)| == |body| + 1 && Sealed(body)[..|body|] == body
    ensures TailGood(Sealed(body), 0, |body|)
  {
    hide Checksum7;
    SevenFits(body);
    SealBits(Checksum7(body));
    assert Sealed(body)[0..|body|] == body;
  }

  /** A status response passes exactly when its status word is the expected one. */
  lemma R1IsGood(idx: bv8, status: bv32, expected: bv32)
    ensures |R1(idx, status)| == 6
    ensures R1Good(R1(idx, status), idx, expected) <==> status == expected
  {
    hide TailGood, BytesOf, Sealed, WordOf;
    var body := [idx] + BytesOf(status);
    SealedIsGood(body);
    var r := R1(idx, status);
    assert r[0] == r[..5][0] == idx;
    assert r[1..5] == r[..5][1..] == BytesOf(status);
    WordBytes(status);
  }

  lemma R2IsGood(reg: Register)
    ensures |R2(reg)| == 17 && R2Good(R2(reg))
  {
    hide Checksum7, Sealed;
    SealedIsGood(reg);
    assert R2(reg)[1..16] == Sealed(reg)[0..15];
  }

  lemma R3IsGood(ocr: bv32)
    ensures |R3(ocr)| == 6 && WordOf(R3(ocr)[1..5]) == ocr
    ensures OcrGood(R3(ocr)) <==> ocr & 0x80000000 == 0x80000000
  {
    hide WordOf, BytesOf;
    assert R3(ocr)[1..5] == BytesOf(ocr);
    WordBytes(ocr);
  }

  lemma AddressLayout(rca: bv16, low: bv32)
    requires low & 0xFFFF0000 == 0
    ensures var w := BytesOf(Address(rca) | low);
            Word16(w[0], w[1]) == rca && Widened(Word16(w[2], w[3])) == low
  {
  }

  lemma LowStatusBits(s: CardState)
    ensures LowStatus(s) & 0xFFFF0000 == 0
    ensures IdentWord(LowStatus(s)) <==> s.phase == Ident
  {
  }

  /** The state field of a status word says identification. */
  predicate IdentWord(low: bv32) { (low >> 9) & 0x0F == 2 }

  function Widened(low: bv16): bv32 { low as bv32 }

  lemma StateField(low: bv16)
    ensures IdentStatus(low) <==> IdentWord(Widened(low))
  {
  }

  lemma R6Bits(rca: bv16, s: CardState)
    ensures var w := BytesOf(AddressAndStatus(rca, s));
            Word16(w[0], w[1]) == rca && (IdentStatus(Word16(w[2], w[3])) <==> s.phase == Ident)
  {
    hide BytesOf, Word16, LowStatus, Address, IdentWord, IdentStatus, Widened;
    LowStatusBits(s);
    AddressLayout(rca, LowStatus(s));
    var w := BytesOf(AddressAndStatus(rca, s));
    StateField(Word16(w[2], w[3]));
  }

  /** The published address passes exactly when the card was in the identification state. */
  lemma R6IsGood(rca: bv16, s: CardState)
    ensures |R6(rca, s)| == 6
    ensures R6Good(R6(rca, s)) <==> s.phase == Ident
    ensures Word16(R6(rca, s)[1], R6(rca, s)[2]) == rca
  {
    hide TailGood, BytesOf, Sealed, Word16, AddressAndStatus, IdentStatus;
    var w := BytesOf(AddressAndStatus(rca, s));
    SealedIsGood([0x03] + w);
    var r := R6(rca, s);
    assert r[..5] == [0x03] + w;
    assert r[0] == r[..5][0] && r[1] == r[..5][1] && r[2] == r[..5][2] && r[3] == r[..5][3] && r[4] == r[..5][4];
    R6Bits(rca, s);
  }

  lemma R7IsGood()
    ensures WordOf([0x00, 0x00, 0x01, 0xAA]) == 0x000001AA
    ensures |R7(0x000001AA)| == 6 && R7Good(R7(0x000001AA), 0x01, 0xAA)
  {
    hide TailGood, Sealed, WordOf;
    WordOfFour([0x00, 0x00, 0x01, 0xAA]);
    var body := [0x08] + BytesOf(0x000001AA);
    SealedIsGood(body);
    var r := R7(0x000001AA);
    assert r[..5] == body;
    assert r[0] == r[..5][0] && r[3] == r[..5][3] && r[4] == r[..5][4];
  }

  lemma StatusExpected(s: CardState, app: bool, state: bv8)
    requires state <= 4
    ensures Status(s, app) == Expected(app, state)
            <==> !s.illegal && PhaseBits(s.phase) == Encode(state)
  {
  }

  // ----- single steps of the sequence -----

  /** CMD8, after a reset: the version 2 card echoes the pattern, the older one stays silent. */
  lemma Step8(p: Profile)
    ensures var r := React(p, Reset(p), 8, 0x000001AA);
            if p.v2 then r == Reaction(Reset(p), true, R7(0x000001AA)) else !r.accepted && r.reply == [] && r.next.phase == Idle
  {
  }

  lemma StepReset(p: Profile, s: CardState)
    requires s.phase != Inactive
    ensures React(p, s, 0, 0) == Reaction(Reset(p), true, [])
  {
  }

  lemma StepInactive(p: Profile, s: CardState, idx: bv8, arg: bv32)
    requires s.phase == Inactive
    ensures React(p, s, idx, arg) == Reaction(s, false, [])
  {
  }

  lemma UpperHalf(rca: bv16)
    ensures (Address(rca) >> 16) as bv16 == rca
  {
  }

  lemma Step55(p: Profile, s: CardState, rca: bv16, state: bv8)
    requires s.phase in {Idle, Stby, Tran} && s.rca == rca && state <= 4
    ensures var r := React(p, s, 55, Address(rca));
            && r.next == s.(appCmd := true, illegal := false) && r.accepted && |r.reply| == 6
            && (R1Good(r.reply, 55, Expected(true, state))
                <==> !s.illegal && PhaseBits(s.phase) == Encode(state))
  {
    hide R1, R1Good;
    UpperHalf(rca);
    R1IsGood(55, Status(s, true), Expected(true, state));
    StatusExpected(s, true, state);
  }

  lemma Reach41(p: Profile, s: CardState, arg: bv32)
    requires s.phase == Idle && s.appCmd
    ensures React(p, s, 41, arg) == OpCond(p, s, arg)
  {
    hide OpCond;
  }

  lemma Step41(p: Profile, s: CardState, arg: bv32)
    ensures var r, t := OpCond(p, s, arg), s.(appCmd := false, illegal := false);
            if !Takes(p.window, arg) then r == Reaction(t.(phase := Inactive), false, [])
            else if s.busy > 0 then Answered(r, t.(busy := s.busy - 1), false, false)
            else if p.hc && !HighCapacity(arg) then Answered(r, t, false, false)
            else Answered(r, t.(phase := Ready), true, p.hc)
  {
    hide R3, OcrGood, WordOf, Takes, HighCapacity, BusyOcr, ReadyOcr;
    OcrBits(p.window);
    R3IsGood(BusyOcr(p.window));
    R3IsGood(ReadyOcr(p.window, p.hc));
  }

  /** The card answered the poll, ready or not, and if ready with this capacity bit. */
  ghost predicate Answered(r: Reaction, next: CardState, ready: bool, high: bool) {
    && r.next == next && r.accepted && |r.reply| == 6
    && (OcrGood(r.reply) <==> ready)
    && (ready ==> (WordOf(r.reply[1..5]) & 0x40000000 != 0 <==> high))
  }

  lemma OcrBits(window: bv32)
    ensures BusyOcr(window) & 0x80000000 != 0x80000000
    ensures forall hc :: ReadyOcr(window, hc) & 0x80000000 == 0x80000000
    ensures forall hc :: ReadyOcr(window, hc) & 0x40000000 != 0 <==> hc
  {
  }

  lemma Step2(p: Profile, s: CardState)
    requires s.phase == Ready
    ensures var r := React(p, s, 2, 0);
            && r.next == s.(appCmd := false, illegal := false, phase := Ident) && r.accepted
            && |r.reply| == 17 && R2Good(r.reply)
  {
    hide R2, R2Good;
    R2IsGood(p.cid);
  }

  lemma Step3(p: Profile, s: CardState)
    requires s.phase == Ident
    ensures var r := React(p, s, 3, 0);
            && r.next == s.(appCmd := false, illegal := false, phase := Stby, rca := p.rca) && r.accepted
            && |r.reply| == 6 && R6Good(r.reply) && Word16(r.reply[1], r.reply[2]) == p.rca
  {
    hide R6, R6Good, Word16;
    R6IsGood(p.rca, s);
  }

  lemma StepRegister(p: Profile, s: CardState, idx: bv8)
    requires s.phase == Stby && idx in {9, 10}
    ensures var r := React(p, s, idx, Address(s.rca));
            && r.next == s.(appCmd := false, illegal := false) && r.accepted
            && |r.reply| == 17 && R2Good(r.reply)
  {
    hide R2, R2Good;
    UpperHalf(s.rca);
    R2IsGood(p.cid);
    R2IsGood(p.csd);
  }

  lemma Step7(p: Profile, s: CardState)
    requires s.phase == Stby && !s.illegal
    ensures var r := React(p, s, 7, Address(s.rca));
            if s.rca == 0 then r.reply == []
            else
              && r.next == s.(appCmd := false, illegal := false, phase := Tran) && r.accepted
              && |r.reply| == 6 && R1Good(r.reply, 7, Expected(false, 3))
  {
    hide R1, R1Good;
    UpperHalf(s.rca);
    R1IsGood(7, Status(s, false), Expected(false, 3));
    StatusStby(s);
  }

  lemma StatusStby(s: CardState)
    requires s.phase == Stby && !s.illegal
    ensures Status(s, false) == Expected(false, 3)
  {
  }

  lemma StatusTran(s: CardState)
    requires s.phase == Tran && !s.illegal
    ensures Status(s, false) == Expected(false, 4)
    ensures Status(s, true) == Expected(true, 4)
    ensures PhaseBits(Tran) == Encode(4)
  {
  }

  lemma Step16(p: Profile, s: CardState)
    requires s.phase == Tran && !s.illegal
    ensures var r := React(p, s, 16, 512);
            && r.next == s.(appCmd := false, illegal := false, blockLen := 512) && r.accepted
            && |r.reply| == 6 && R1Good(r.reply, 16, Expected(false, 4))
  {
    hide R1, R1Good;
    R1IsGood(16, Status(s, false), Expected(false, 4));
    StatusTran(s);
  }

  lemma Step6(p: Profile, s: CardState)
    requires s.phase == Tran && !s.illegal && s.appCmd
    ensures var r := React(p, s, 6, 2);
            && r.next == s.(appCmd := false, illegal := false, wide := true) && r.accepted
            && |r.reply| == 6 && R1Good(r.reply, 6, Expected(true, 4))
  {
    hide R1, R1Good;
    R1IsGood(6, Status(s, true), Expected(true, 4));
    StatusTran(s);
  }

  lemma Step42(p: Profile, s: CardState)
    requires s.phase == Tran && !s.illegal && s.appCmd
    ensures var r := React(p, s, 42, 1);
            && r.next == s.(appCmd := false, illegal := false, pullUp := true) && r.accepted
            && |r.reply| == 6 && R1Good(r.reply, 42, Expected(true, 4))
  {
    hide R1, R1Good;
    R1IsGood(42, Status(s, true), Expected(true, 4));
    StatusTran(s);
  }

  // ----- the whole sequence -----

  /** The operating condition sent after a CMD8 that was answered, or was not. */
  function HostOcr(v2: bool): bv32 { if v2 then 0x40FF8000 else 0x00040000 }

  /** Which cards power up: those that take the voltage, that the host can address, and that are ready in time. */
  ghost predicate PowersUp(p: Profile, arg: bv32, elapsed: nat -> nat, nTimeout: nat) {
    && Takes(p.window, arg)
    && (p.hc ==> HighCapacity(arg))
    && forall k: nat :: k < p.busy ==> elapsed(k) <= nTimeout
  }

  /**
   * The cards the sequence should bring up, by what they are: of version 2 those of either capacity that take some
   * voltage from 2.7 V on (bits 15 to 23 of the window), of the older ones those of standard capacity that take
   * the voltage of bit 18; ready in time, and with an address other than 0.
   */
  ghost predicate Supported(p: Profile, elapsed: nat -> nat, nTimeout: nat) {
    && (if p.v2 then p.window & 0x00FF8000 != 0 else p.window & 0x00040000 != 0 && !p.hc)
    && (forall k: nat :: k < p.busy ==> elapsed(k) <= nTimeout)
    && p.rca != 0
  }

  lemma SupportedPowersUp(p: Profile, elapsed: nat -> nat, nTimeout: nat)
    ensures PowersUp(p, HostOcr(p.v2), elapsed, nTimeout) && p.rca != 0 <==> Supported(p, elapsed, nTimeout)
    ensures Supported(p, elapsed, nTimeout) && !p.v2 ==> !p.hc
  {
    hide Takes, HighCapacity, HostOcr;
    Offered(p.window);
  }

  lemma Offered(window: bv32)
    ensures Takes(window, HostOcr(true)) <==> window & 0x00FF8000 != 0
    ensures Takes(window, HostOcr(false)) <==> window & 0x00040000 != 0
    ensures HighCapacity(HostOcr(true)) && !HighCapacity(HostOcr(false))
  {
  }

  /** From command number start, a reset, on, the card carried out every command, and none was another reset. */
  ghost predicate AllLegal(log: seq<Sent>, start: nat) {
    && start < |log| && log[start] == Sent(0, true)
    && forall k: nat :: start < k < |log| ==> log[k].accepted && log[k].idx != 0
  }

  /** After k polls that all found the card busy, none of them late. */
  ghost predicate Polled(p: Profile, arg: bv32, s: CardState, k: nat, elapsed: nat -> nat, nTimeout: nat) {
    && s == Reset(p).(busy := if k < p.busy then p.busy - k else 0)
    && (k > 0 ==> Takes(p.window, arg))
    && (k > p.busy ==> p.hc && !HighCapacity(arg))
    && forall j: nat :: j < k ==> elapsed(j) <= nTimeout
  }

  lemma PolledIdle(p: Profile, arg: bv32, s: CardState, k: nat, elapsed: nat -> nat, nTimeout: nat)
    requires Polled(p, arg, s, k, elapsed, nTimeout)
    ensures s.phase == Idle && s.rca == 0 && !s.illegal
  {
  }

  /** What the next poll finds, and what that says about the card. */
  lemma OnePoll(p: Profile, arg: bv32, s: CardState, k: nat, elapsed: nat -> nat, nTimeout: nat)
    requires Polled(p, arg, s, k, elapsed, nTimeout)
    ensures var r, up := React(p, s.(appCmd := true, illegal := false), 41, arg), PowersUp(p, arg, elapsed, nTimeout);
            if r.next.phase == Inactive then !up && r.reply == []
            else if r.next.phase == Ready then
              up && Answered(r, Reset(p).(phase := Ready, busy := 0), true, p.hc)
            else
              && Answered(r, r.next, false, false)
              && if elapsed(k) > nTimeout then !up else Polled(p, arg, r.next, k + 1, elapsed, nTimeout)
  {
    hide OcrGood, WordOf, OpCond, React, Takes, HighCapacity;
    var s1 := s.(appCmd := true, illegal := false);
    Reach41(p, s1, arg);
    Step41(p, s1, arg);
  }

  lemma StillLegal(log: seq<Sent>, start: nat, sent: Sent)
    requires AllLegal(log, start) && sent.accepted && sent.idx != 0
    ensures AllLegal(log + [sent], start)
  {
  }

  /**
   * The ACMD41 loop: poll number k ends at elapsed(k) ticks. Some poll ends after the timeout, as the clock
   * goes on; whether the card is ready before that is up to the card.
   */
  method WaitReady(card: Card, HostOCR32: bv32, elapsed: nat -> nat, nTimeout: nat, ghost last: nat, ghost start: nat)
    returns (bSuccess: bool, OCR: bv32)
    requires card.s == Reset(card.profile) && elapsed(last) > nTimeout && AllLegal(card.log, start)
    modifies card
    ensures bSuccess <==> PowersUp(card.profile, HostOCR32 & 0x40FFFFFF, elapsed, nTimeout)
    ensures bSuccess ==>
      && card.s == Reset(card.profile).(phase := Ready, busy := 0)
      && AllLegal(card.log, start)
      && (OCR & 0x40000000 != 0 <==> card.profile.hc)
  {
    hide React, R1Good, OcrGood, WordOf, PowersUp, Polled, AllLegal;
    ghost var p, arg := card.profile, HostOCR32 & 0x40FFFFFF;
    FirstPoll(p, arg, elapsed, nTimeout);
    var bTimeout := false;
    bSuccess, OCR := false, 0;
    var k: nat := 0;
    while !bSuccess && !bTimeout
      invariant bSuccess ==>
        && PowersUp(p, arg, elapsed, nTimeout) && card.s == Reset(p).(phase := Ready, busy := 0)
        && (OCR & 0x40000000 != 0 <==> p.hc)
      invariant bTimeout ==> !bSuccess && !PowersUp(p, arg, elapsed, nTimeout)
      invariant !bSuccess && !bTimeout ==>
        if card.s.phase == Inactive then !PowersUp(p, arg, elapsed, nTimeout)
        else Polled(p, arg, card.s, k, elapsed, nTimeout)
      invariant !bTimeout ==> k <= last + 1
      invariant card.s.phase != Inactive && !bTimeout ==> AllLegal(card.log, start)
      decreases !bSuccess && !bTimeout, last + 1 - k
    {
      ghost var s0, log0 := card.s, card.log;
      if s0.phase == Inactive {
        StepInactive(p, s0, 55, 0);
      } else {
        PolledIdle(p, arg, s0, k, elapsed, nTimeout);
        Step55(p, s0, 0, 0);
        OnePoll(p, arg, s0, k, elapsed, nTimeout);
        StillLegal(log0, start, Sent(55, true));
        StillLegal(log0 + [Sent(55, true)], start, Sent(41, true));
        NotYetLast(p, arg, s0, k, elapsed, nTimeout, last);
      }
      var selected := CMD55(card, 0, 0);
      if !selected {
        return false, OCR;
      }
      bSuccess, OCR := ACMD41(card, HostOCR32);
      if !bSuccess {
        if elapsed(k) > nTimeout {
          bTimeout := true;
        }
      }
      k := k + 1;
    }
  }

  lemma FirstPoll(p: Profile, arg: bv32, elapsed: nat -> nat, nTimeout: nat)
    ensures Polled(p, arg, Reset(p), 0, elapsed, nTimeout)
  {
  }

  lemma NotYetLast(p: Profile, arg: bv32, s: CardState, k: nat, elapsed: nat -> nat, nTimeout: nat, last: nat)
    requires Polled(p, arg, s, k, elapsed, nTimeout) && elapsed(last) > nTimeout
    ensures k <= last
  {
  }

  datatype SdInfo = SdInfo(bSupport4Bits: bool, bVer2: bool, bSDHC: bool, HostOCR32: bv32, OCR32: bv32, RCA16: bv16)

  /**
   * SDLIB_Init succeeds on exactly the cards that power up in time and publish an address other than 0, which are
   * those it should support, and leaves them in the transfer state; every command since the last CMD0 was one the
   * card carried out.
   */
  method Init(card: Card, bSupport4Bits: bool, elapsed: nat -> nat, nTimeout: nat, ghost last: nat)
    returns (ok: bool, info: SdInfo, ghost start: nat)
    requires card.s.phase != Inactive && elapsed(last) > nTimeout
    modifies card
    ensures ok <==> PowersUp(card.profile, HostOcr(card.profile.v2), elapsed, nTimeout) && card.profile.rca != 0
    ensures ok <==> Supported(card.profile, elapsed, nTimeout)
    ensures ok ==>
      && card.s.phase == Tran && card.s.blockLen == 512 && card.s.wide == bSupport4Bits
      && card.s.rca == info.RCA16 == card.profile.rca
      && !card.s.illegal && !card.s.appCmd
    ensures ok ==> info.bVer2 == card.profile.v2 && info.bSDHC == card.profile.hc
    ensures ok ==> |old(card.log)| <= start && AllLegal(card.log, start)
  {
    hide React, R7Good, WordOf, PowersUp, AllLegal, Supported;
    ghost var p := card.profile;
    SupportedPowersUp(p, elapsed, nTimeout);
    ok := false;
    info := SdInfo(bSupport4Bits, false, false, 0, 0, 0);
    StepReset(p, card.s);
    start := |card.log|;
    CMD0(card);
    R7IsGood();
    Step8(p);
    FreshLog(card.log, start);
    if p.v2 {
      StillLegal(card.log, start, Sent(8, true));
    }
    var ver2 := CMD8(card, 0x01, 0xAA);
    if ver2 {
      info := info.(HostOCR32 := 0x40FF8000, bVer2 := true, bSDHC := true);
    } else {
      info := info.(HostOCR32 := 0x00040000);
      StepReset(p, card.s);
      start := |card.log|;
      CMD0(card);
      FreshLog(card.log, start);
    }
    OcrMasks();
    var ready, ocr := WaitReady(card, info.HostOCR32, elapsed, nTimeout, last, start);
    if !ready {
      return;
    }
    info := info.(OCR32 := ocr, bSDHC := info.bSDHC && ocr & 0x40000000 != 0);
    var published, rca := Identify(card, start);
    if !published {
      return;
    }
    info := info.(RCA16 := rca);
    var chosen := Select(card, rca, start);
    if !chosen {
      return;
    }
    if info.bSupport4Bits {
      ok := WidenBus(card, info.RCA16, start);
    } else {
      ok := true;
    }
  }

  /** Identification: from the ready state to stand-by, with a published address. */
  method Identify(card: Card, ghost start: nat) returns (ok: bool, RCA16: bv16)
    requires card.s.phase == Ready && AllLegal(card.log, start)
    modifies card
    ensures ok && RCA16 == card.profile.rca && AllLegal(card.log, start)
    ensures card.s == old(card.s).(appCmd := false, illegal := false, phase := Stby, rca := RCA16)
  {
    hide React, R2Good, R6Good, WordOf, Word16, AllLegal, Padded;
    ghost var p, log0 := card.profile, card.log;
    RCA16 := 0;
    Step2(p, card.s);
    ok := ReadRegister(card, 2, 0);
    if !ok {
      return;
    }
    StillLegal(log0, start, Sent(2, true));
    log0 := card.log;
    Step3(p, card.s);
    ok, RCA16 := CMD3(card);
    StillLegal(log0, start, Sent(3, true));
  }

  /** Data transfer mode: read the registers, select the card, set the block length. */
  method Select(card: Card, RCA16: bv16, ghost start: nat) returns (ok: bool)
    requires card.s.phase == Stby && !card.s.illegal && card.s.rca == RCA16 && AllLegal(card.log, start)
    modifies card
    ensures ok <==> RCA16 != 0
    ensures ok ==> AllLegal(card.log, start)
    ensures ok ==> card.s == old(card.s).(appCmd := false, phase := Tran, blockLen := 512)
  {
    hide React, R1Good, R2Good, WordOf, AllLegal, Padded, Expected, Address;
    ghost var p, log0 := card.profile, card.log;
    StepRegister(p, card.s, 9);
    ok := ReadRegister(card, 9, RCA16);
    if !ok {
      return;
    }
    StillLegal(log0, start, Sent(9, true));
    log0 := card.log;
    StepRegister(p, card.s, 10);
    ok := ReadRegister(card, 10, RCA16);
    if !ok {
      return;
    }
    StillLegal(log0, start, Sent(10, true));
    log0 := card.log;
    Step7(p, card.s);
    ok := CMD7(card, RCA16);
    if !ok {
      return;
    }
    StillLegal(log0, start, Sent(7, true));
    log0 := card.log;
    Step16(p, card.s);
    ok := CMD16(card, 512);
    StillLegal(log0, start, Sent(16, true));
  }

  lemma FreshLog(log: seq<Sent>, start: nat)
    requires |log| == start + 1 && log[start] == Sent(0, true)
    ensures AllLegal(log, start)
  {
  }

  lemma OcrMasks()
    ensures 0x40FF8000 as bv32 & 0x40FFFFFF == 0x40FF8000 && 0x00040000 as bv32 & 0x40FFFFFF == 0x00040000
  {
  }

  /** The four-bit part of the sequence. */
  method WidenBus(card: Card, RCA16: bv16, ghost start: nat) returns (ok: bool)
    requires card.s.phase == Tran && !card.s.illegal && card.s.rca == RCA16 && AllLegal(card.log, start)
    modifies card
    ensures ok && AllLegal(card.log, start)
    ensures card.s == old(card.s).(appCmd := false, wide := true, pullUp := true)
  {
    hide React, R1Good, WordOf, AllLegal;
    ghost var p, log0 := card.profile, card.log;
    StatusTran(card.s);
    Step55(p, card.s, RCA16, 4);
    var selected := CMD55(card, RCA16, 4);
    if !selected {
      return false;
    }
    StillLegal(log0, start, Sent(55, true));
    log0 := card.log;
    Step6(p, card.s);
    var set6 := AppCommand(card, 6, 2, 4);
    if !set6 {
      return false;
    }
    StillLegal(log0, start, Sent(6, true));
    log0 := card.log;
    Step55(p, card.s, RCA16, 4);
    selected := CMD55(card, RCA16, 4);
    if !selected {
      return false;
    }
    StillLegal(log0, start, Sent(55, true));
    log0 := card.log;
    Step42(p, card.s);
    var set42 := AppCommand(card, 42, 1, 4);
    if !set42 {
      return false;
    }
    StillLegal(log0, start, Sent(42, true));
    ok := true;
  }
}
