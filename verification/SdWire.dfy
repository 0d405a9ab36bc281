/** sd_hal.c: command frames, responses and data blocks, bit by bit on the lines of the card. */
module SdWire {
  import opened BitSerial
  import opened Polynomial
  import opened Crc

  // ----- what a line carries -----

  ghost predicate AllHigh(line: nat -> bool, t: nat, n: nat) {
    forall k: nat :: t <= k < t + n ==> line(k)
  }

  /** How many samples from the t-th on are high before the first low one, counting no further than max. */
  function Highs(line: nat -> bool, t: nat, max: nat): (n: nat)
    ensures n <= max
    ensures AllHigh(line, t, n)
    ensures n < max ==> !line(t + n)
    decreases max
  {
    if max == 0 || !line(t) then 0 else 1 + Highs(line, t + 1, max - 1)
  }

  lemma HighsUnique(line: nat -> bool, t: nat, max: nat, n: nat)
    requires n <= max && (n < max ==> !line(t + n))
    requires AllHigh(line, t, n)
    ensures Highs(line, t, max) == n
  {
    var h: nat := Highs(line, t, max);
  }

  /** Whether any of the masked data lines is high. */
  function Masked(dat: nat -> bv8, mask: bv8): nat -> bool {
    (k: nat) => dat(k) & mask != 0
  }

  function Dat0(dat: nat -> bv8): nat -> bool { Masked(dat, 0x01) }

  function AnyDat(dat: nat -> bv8): nat -> bool { Masked(dat, 0x0F) }

  function Dat0Low(dat: nat -> bv8): nat -> bool {
    (k: nat) => dat(k) & 0x01 == 0
  }

  /** The clock once DAT0 has been polled from time t on until it is high, 32 times at most. */
  function Polled(dat: nat -> bv8, t: nat): nat {
    var low := Highs(Dat0Low(dat), t, 32);
    if low < 32 then t + low + 1 else t + 32
  }

  // ----- bytes and words from shifted-in bits -----

  lemma OrMask(d: bv8, k: nat)
    requires k < 8
    ensures Bits(d | MaskAt(k)) == Bits(d)[k := true]
  {
  }

  function Push16(v: bv16, b: bool): bv16 { (v << 1) | (if b then 1 else 0) }

  /** Two nibbles shifted in. */
  function Joined(high: bv8, low: bv8): bv8 { (((0 << 4) | (high & 0x0F)) << 4) | (low & 0x0F) }

  function In16(s: seq<bool>): bv16 {
    if s == [] then 0 else Push16(In16(s[..|s| - 1]), s[|s| - 1])
  }

  lemma PushHalves(v: bv16, b: bool)
    ensures HighByte(Push16(v, b)) == Push8(HighByte(v), Bits(LowByte(v))[0])
    ensures LowByte(Push16(v, b)) == Push8(LowByte(v), b)
  {
  }

  lemma PushBits16(v: bv16, b: bool)
    ensures Bits16(Push16(v, b)) == Bits16(v)[1..] + [b]
  {
    hide Bits, HighByte, LowByte, Push8, Push16;
    PushHalves(v, b);
    PushBits8(HighByte(v), Bits(LowByte(v))[0]);
    PushBits8(LowByte(v), b);
  }

  lemma Clear16()
    ensures Bits16(0) == Zeros(16)
  {
  }

  lemma {:induction false} In16Bits(s: seq<bool>)
    requires |s| <= 16
    ensures Bits16(In16(s)) == Zeros(16 - |s|) + s
  {
    hide Bits16, Push16, Zeros;
    if s == [] {
      Clear16();
    } else {
      var front, b := s[..|s| - 1], s[|s| - 1];
      In16Bits(front);
      PushBits16(In16(front), b);
      ShiftedZeros(16 - |s|, front, b);
      assert s == front + [b];
    }
  }

  lemma ShiftBits16(v: bv16)
    ensures Bits16(v << 1) == Bits16(v)[1..] + [false]
    ensures Bits16(v)[0] == (v & 0x8000 != 0)
  {
    hide Bits16;
    PushBits16(v, false);
    assert Push16(v, false) == v << 1;
    FirstBit16(v);
  }

  lemma FirstBit16(v: bv16)
    ensures Bits16(v)[0] == (v & 0x8000 != 0)
  {
  }

  lemma Bits16Injective(a: bv16, b: bv16)
    requires Bits16(a) == Bits16(b)
    ensures a == b
  {
    hide Bits, HighByte, LowByte;
    var x, y := Bits16(a), Bits16(b);
    assert Bits(HighByte(a)) == x[..8] == y[..8] == Bits(HighByte(b));
    assert Bits(LowByte(a)) == x[8..] == y[8..] == Bits(LowByte(b));
    BitsInjective(HighByte(a), HighByte(b));
    BitsInjective(LowByte(a), LowByte(b));
    SameBytes(a, b);
  }

  lemma SameBytes(a: bv16, b: bv16)
    requires HighByte(a) == HighByte(b) && LowByte(a) == LowByte(b)
    ensures a == b
  {
  }

  // ----- frames -----

  /** A block in one-bit mode: start bit, data, checksum, end bit. */
  function Frame1(bytes: seq<bv8>): (s: seq<bool>)
    ensures |s| == 8 * |bytes| + 18
  {
    [false] + BitsOf(bytes) + Bits16(Checksum16(bytes)) + [true]
  }

  /** The levels written to the data register for single bits. */
  function Levels(bits: seq<bool>): (s: seq<bv8>)
    ensures |s| == |bits|
  {
    seq(|bits|, k requires 0 <= k < |bits| => if bits[k] then 0x01 else 0x00)
  }

  lemma LevelsAppend(a: seq<bool>, b: seq<bool>)
    ensures Levels(a + b) == Levels(a) + Levels(b)
  {
  }

  function Pair(d: bv8): (s: seq<bv8>)
    ensures |s| == 2
  {
    [d >> 4, d & 0x0F]
  }

  /** The high and low halves of each byte, in order. */
  function Nibbles(bytes: seq<bv8>): (s: seq<bv8>)
    ensures |s| == 2 * |bytes|
  {
    if bytes == [] then []
    else Nibbles(bytes[..|bytes| - 1]) + Pair(bytes[|bytes| - 1])
  }

  /** A block in four-bit mode, which carries no checksum. */
  function Frame4(bytes: seq<bv8>): (s: seq<bv8>)
    ensures |s| == 2 * |bytes| + 2
  {
    [0x00] + Nibbles(bytes) + [0x0F]
  }

  /** In one-bit mode the frame is low at first and high at last, with the bits of each byte, most significant first,
      and then those of the checksum in between. */
  lemma Frame1Levels(bytes: seq<bv8>, i: nat, j: nat)
    requires i < |bytes| && j < 8
    ensures var f := Frame1(bytes);
            && !f[0] && f[8 * |bytes| + 17]
            && f[1 + 8 * i + j] == (bytes[i] & ((0x80 as bv8) >> j) != 0)
            && f[1 + 8 * |bytes|..17 + 8 * |bytes|] == Bits16(Checksum16(bytes))
  {
    hide BitsOf, Bits16, Checksum16;
    BitOfByte(bytes, i, j);
  }

  /** In four-bit mode all lines are low at first and high at last, with the high and the low half of each byte in
      between. */
  lemma Frame4Levels(bytes: seq<bv8>, i: nat)
    requires i < |bytes|
    ensures var f := Frame4(bytes);
            && f[0] == 0x00 && f[2 * |bytes| + 1] == 0x0F
            && f[1 + 2 * i] == bytes[i] >> 4 && f[2 + 2 * i] == bytes[i] & 0x0F
  {
    NibbleOfByte(bytes, i);
    hide Nibbles;
  }

  lemma {:induction false} NibbleOfByte(bytes: seq<bv8>, i: nat)
    requires i < |bytes|
    ensures Nibbles(bytes)[2 * i] == bytes[i] >> 4 && Nibbles(bytes)[2 * i + 1] == bytes[i] & 0x0F
  {
    if i < |bytes| - 1 {
      NibbleOfByte(bytes[..|bytes| - 1], i);
    }
  }

  /** The card's answer is awaited until DAT0 is high, through 32 samples at most. */
  lemma ReadyPoll(dat: nat -> bv8, t: nat, k: nat)
    requires k <= 32 && (forall i: nat :: t <= i < t + k ==> dat(i) & 0x01 == 0)
    requires k < 32 ==> dat(t + k) & 0x01 == 1
    ensures Polled(dat, t) == if k < 32 then t + k + 1 else t + 32
    ensures Highs(Dat0Low(dat), t, 32) == k
  {
    hide Highs;
    var low := Dat0Low(dat);
    HighsUnique(low, t, 32, k);
  }

  /** The four lines at n consecutive samples. */
  function Samples4(dat: nat -> bv8, t: nat, n: nat): (s: seq<bv8>)
    ensures |s| == n
  {
    seq(n, k requires 0 <= k < n => dat(t + k) & 0x0F)
  }

  /** A checked block: its checksum field is the checksum of its data, and the end bit is there. */
  predicate Accepts(bits: seq<bool>, n: nat)
    requires |bits| == 8 * n + 17
  {
    bits[8 * n..8 * n + 16] == Bits16(Run(G16, 0, bits[..8 * n])) && bits[8 * n + 16]
  }

  /** What a one-bit read from sample t on must deliver. */
  ghost predicate Reads1(line: nat -> bool, t: nat, n: nat, ok: bool, got: seq<bv8>) {
    var h := Highs(line, t, 9002);
    && (ok <==> h < 9002 && Accepts(Samples(line, t + h + 1, 8 * n + 17), n))
    && (h < 9002 ==> BitsOf(got) == Samples(line, t + h + 1, 8 * n))
  }

  /** What a four-bit read from sample t on must deliver. */
  ghost predicate Reads4(dat: nat -> bv8, t: nat, n: nat, ok: bool, got: seq<bv8>) {
    var h := Highs(AnyDat(dat), t, 9002);
    && (ok <==> h < 9002)
    && (ok ==> Nibbles(got) == Samples4(dat, t + h + 1, 2 * n))
  }

  lemma {:induction false} NibblesInjective(a: seq<bv8>, b: seq<bv8>)
    requires Nibbles(a) == Nibbles(b)
    ensures a == b
  {
    assert |a| == |b|;
    if a != [] {
      var n := |a| - 1;
      hide Pair;
      SameTails(Nibbles(a[..n]), Pair(a[n]), Nibbles(b[..n]), Pair(b[n]));
      NibblesInjective(a[..n], b[..n]);
      SameHalves(a[n], b[n]);
      assert a == a[..n] + [a[n]];
      assert b == b[..n] + [b[n]];
    }
  }

  lemma SameHalves(a: bv8, b: bv8)
    requires Pair(a) == Pair(b)
    ensures a == b
  {
    assert Pair(a)[0] == Pair(b)[0] && Pair(a)[1] == Pair(b)[1];
  }

  // ----- the two directions together -----

  lemma SameParts<T>(x: T, a: seq<T>, y: T, z: T, b: seq<T>, w: T)
    requires [x] + a + [y] == [z] + b + [w]
    ensures x == z && a == b && y == w
  {
    var s, t := [x] + a + [y], [z] + b + [w];
    assert |s| == |a| + 2 && |t| == |b| + 2;
    assert x == s[0] && z == t[0] && y == s[|a| + 1] && w == t[|b| + 1];
    assert a == s[1..|a| + 1] && b == t[1..|b| + 1];
  }

  lemma FrameParts(bytes: seq<bv8>, first: bool, body: seq<bool>, last: bool)
    requires [first] + body + [last] == Frame1(bytes)
    ensures !first && last && body == BitsOf(bytes) + Bits16(Checksum16(bytes))
  {
    hide BitsOf, Bits16, Checksum16;
    var b := BitsOf(bytes) + Bits16(Checksum16(bytes));
    assert Frame1(bytes) == [false] + b + [true];
    SameParts(first, body, last, false, b, true);
  }

  lemma GoodBlock(bytes: seq<bv8>, rest: seq<bool>)
    requires rest == BitsOf(bytes) + Bits16(Checksum16(bytes)) + [true]
    ensures |rest| == 8 * |bytes| + 17 && Accepts(rest, |bytes|) && rest[..8 * |bytes|] == BitsOf(bytes)
  {
    hide BitsOf, Bits16, Run, Checksum16;
    ChecksumIsRun(bytes);
    Slices(BitsOf(bytes), Bits16(Checksum16(bytes)), [true], rest);
  }

  lemma Slices<T>(a: seq<T>, b: seq<T>, c: seq<T>, whole: seq<T>)
    requires whole == a + b + c
    ensures whole[..|a|] == a && whole[|a|..|a| + |b|] == b && whole[|a| + |b|..] == c
  {
  }

  lemma OneSample(line: nat -> bool, t: nat)
    ensures Samples(line, t, 1) == [line(t)]
  {
  }

  /** A block that arrives as it was sent, after at most 9001 idle samples, is read back, and read as good. */
  lemma RoundTrip1(line: nat -> bool, t: nat, idle: nat, bytes: seq<bv8>, ok: bool, got: seq<bv8>)
    requires idle <= 9001 && AllHigh(line, t, idle)
    requires Samples(line, t + idle, 8 * |bytes| + 18) == Frame1(bytes)
    requires Reads1(line, t, |bytes|, ok, got)
    ensures ok && got == bytes
  {
    hide BitsOf, Samples, Frame1, AllHigh, Accepts, Highs;
    var n, u := |bytes|, t + idle + 1;
    JoinSamples(line, t + idle, 1, 8 * n + 17);
    OneSample(line, t + idle);
    JoinSamples(line, u, 8 * n + 16, 1);
    OneSample(line, u + 8 * n + 16);
    FrameParts(bytes, line(t + idle), Samples(line, u, 8 * n + 16), line(u + 8 * n + 16));
    GoodBlock(bytes, Samples(line, u, 8 * n + 17));
    HighsUnique(line, t, 9002, idle);
    JoinSamples(line, u, 8 * n, 17);
    BitsOfInjective(got, bytes);
  }

  lemma ChecksumIsRun(bytes: seq<bv8>)
    ensures Checksum16(bytes) == Run(G16, 0, BitsOf(bytes))
  {
  }

  lemma ReadFails(line: nat -> bool, t: nat, idle: nat, n: nat, ok: bool, got: seq<bv8>)
    requires idle <= 9001 && AllHigh(line, t, idle) && !line(t + idle)
    requires Reads1(line, t, n, ok, got)
    requires !Accepts(Samples(line, t + idle + 1, 8 * n + 17), n)
    ensures !ok
  {
    hide BitsOf, Samples, AllHigh, Accepts, Highs;
    HighsUnique(line, t, 9002, idle);
  }

  /** From sample u on come the data and checksum of the bytes, except that a burst of sixteen bits at most is wrong. */
  ghost predicate Corrupted(line: nat -> bool, u: nat, bytes: seq<bv8>, e: seq<bool>) {
    && |e| == 8 * |bytes| + 16 && Burst(e)
    && Samples(line, u, 8 * |bytes| + 16) == Xor(BitsOf(bytes) + Bits16(Checksum16(bytes)), e)
  }

  /** Such a burst makes the read fail, whatever follows it. */
  lemma BurstRejected(line: nat -> bool, t: nat, idle: nat, bytes: seq<bv8>, e: seq<bool>, ok: bool, got: seq<bv8>)
    requires idle <= 9001 && AllHigh(line, t, idle) && !line(t + idle)
    requires Corrupted(line, t + idle + 1, bytes, e)
    requires Reads1(line, t, |bytes|, ok, got)
    ensures !ok
  {
    hide Corrupted, Samples, AllHigh, Accepts, Highs, Reads1;
    CorruptedBlock(line, t + idle + 1, bytes, e);
    ReadFails(line, t, idle, |bytes|, ok, got);
  }

  lemma CorruptedBlock(line: nat -> bool, u: nat, bytes: seq<bv8>, e: seq<bool>)
    requires Corrupted(line, u, bytes, e)
    ensures !Accepts(Samples(line, u, 8 * |bytes| + 17), |bytes|)
  {
    hide BitsOf, Bits16, Checksum16, Burst, Xor, Samples, Accepts;
    JoinSamples(line, u, 8 * |bytes| + 16, 1);
    var rest := Samples(line, u, 8 * |bytes| + 17);
    assert rest[..8 * |bytes| + 16] == Samples(line, u, 8 * |bytes| + 16);
    BlockRejected(rest, bytes, e);
  }

  lemma BlockRejected(bits: seq<bool>, bytes: seq<bv8>, e: seq<bool>)
    requires |bits| == 8 * |bytes| + 17 && |e| == 8 * |bytes| + 16 && Burst(e)
    requires bits[..8 * |bytes| + 16] == Xor(BitsOf(bytes) + Bits16(Checksum16(bytes)), e)
    ensures !Accepts(bits, |bytes|)
  {
    hide BitsOf, Bits16, Run, Burst, Xor;
    var n := |bytes|;
    if Accepts(bits, n) {
      HeadOfBlock(bits, n);
      BurstDetected(BitsOf(bytes), bits[..8 * n], Run(G16, 0, bits[..8 * n]), e);
    }
  }

  lemma HeadOfBlock(bits: seq<bool>, n: nat)
    requires |bits| == 8 * n + 17 && Accepts(bits, n)
    ensures bits[..8 * n + 16] == bits[..8 * n] + Bits16(Run(G16, 0, bits[..8 * n]))
  {
    hide Bits16, Run;
    assert bits[..8 * n + 16] == bits[..8 * n] + bits[8 * n..8 * n + 16];
  }

  lemma FirstBits(frame: seq<bv8>)
    requires |frame| > 0 && frame[0] & 0xC0 == 0
    ensures !BitsOf(frame)[0] && !BitsOf(frame)[1]
  {
    assert frame == [frame[0]] + frame[1..];
    BitsOfAppend([frame[0]], frame[1..]);
    OneMoreOfBits([], frame[0], [frame[0]]);
  }

  /** A response that begins within 22 samples is taken, and what is shifted in is the response. */
  lemma ResponseArrives(line: nat -> bool, t: nat, h: nat, frame: seq<bv8>, n: nat, got: seq<bv8>)
    requires h <= 21 && AllHigh(line, t, h)
    requires |frame| > 0 && frame[0] & 0xC0 == 0 && n == 8 * |frame|
    requires Samples(line, t + h, n) == BitsOf(frame)
    ensures Answers(line, t) && Highs(line, t, 22) == h
    ensures BitsOf(got) == Samples(line, t + h, n) ==> got == frame
  {
    hide Highs, AllHigh, BitsOf;
    FirstBits(frame);
    assert Samples(line, t + h, n)[0] == line(t + h) && Samples(line, t + h, n)[1] == line(t + h + 1);
    HighsUnique(line, t, 22, h);
    if BitsOf(got) == BitsOf(frame) {
      BitsOfInjective(got, frame);
    }
  }

  ghost predicate Carries4(dat: nat -> bv8, u: nat, bytes: seq<bv8>) {
    Samples4(dat, u, 2 * |bytes| + 2) == Frame4(bytes)
  }

  /** In four-bit mode every block that arrives as it was sent is read back. */
  lemma RoundTrip4(dat: nat -> bv8, t: nat, idle: nat, bytes: seq<bv8>, ok: bool, got: seq<bv8>)
    requires idle <= 9001 && AllHigh(AnyDat(dat), t, idle)
    requires Carries4(dat, t + idle, bytes)
    requires Reads4(dat, t, |bytes|, ok, got)
    ensures ok && got == bytes
  {
    hide Highs, AllHigh, Samples4, Carries4;
    TailOfFrame4(dat, t + idle, bytes, 2 * |bytes|);
    HighsUnique(AnyDat(dat), t, 9002, idle);
    NibblesInjective(got, bytes);
  }

  lemma TailOfFrame4(dat: nat -> bv8, u: nat, bytes: seq<bv8>, n: nat)
    requires Carries4(dat, u, bytes) && n == 2 * |bytes|
    ensures dat(u) & 0x0F == 0 && Samples4(dat, u + 1, n) == Nibbles(bytes)
  {
    hide Nibbles, Samples4;
    var last := EdgesOfSamples4(dat, u, n);
    SameParts(dat(u) & 0x0F, Samples4(dat, u + 1, n), last, 0x00, Nibbles(bytes), 0x0F);
  }

  lemma EdgesOfSamples4(dat: nat -> bv8, u: nat, n: nat) returns (last: bv8)
    ensures Samples4(dat, u, n + 2) == [dat(u) & 0x0F] + Samples4(dat, u + 1, n) + [last]
  {
    last := dat(u + n + 1) & 0x0F;
  }

  // ----- the driver -----

  method Store(buf: array<bv8>, i: nat, v: bv8)
    requires i < buf.Length
    modifies buf
    ensures buf[..i] == old(buf[..i]) && buf[..i + 1] == old(buf[..i]) + [v]
    ensures forall k :: i < k < buf.Length ==> buf[k] == old(buf[k])
  {
    buf[i] := v;
  }

  class Host {
    const cmdIn: nat -> bool  // CMD at each rising clock while the card drives it
    const datIn: nat -> bv8   // the data lines at each rising clock while the card drives them
    var clock: nat            // rising clocks so far
    var cmd: seq<bool>        // levels the host clocked out on CMD
    var dat: seq<bv8>         // values the host clocked out on the data lines

    constructor (cmdIn: nat -> bool, datIn: nat -> bv8)
      ensures this.cmdIn == cmdIn && this.datIn == datIn && clock == 0 && cmd == [] && dat == []
    {
      this.cmdIn, this.datIn := cmdIn, datIn;
      clock, cmd, dat := 0, [], [];
    }

    method DummyClock(n: nat)
      modifies this`clock
      ensures clock == old(clock) + n
    {
      for i := 0 to n
        invariant clock == old(clock) + i
      {
        clock := clock + 1;
      }
    }

    method PutCmd(high: bool)
      modifies this`clock, this`cmd
      ensures clock == old(clock) + 1 && cmd == old(cmd) + [high]
    {
      cmd := cmd + [high];
      clock := clock + 1;
    }

    method PutDat(level: bv8)
      modifies this`clock, this`dat
      ensures clock == old(clock) + 1 && dat == old(dat) + [level]
    {
      dat := dat + [level];
      clock := clock + 1;
    }

    method TestCmd() returns (high: bool)
      modifies this`clock
      ensures clock == old(clock) + 1 && high == cmdIn(old(clock))
    {
      high := cmdIn(clock);
      clock := clock + 1;
    }

    method TestDat() returns (level: bv8)
      modifies this`clock
      ensures clock == old(clock) + 1 && level == datIn(old(clock))
    {
      level := datIn(clock);
      clock := clock + 1;
    }

    /** Clocks out a command, most significant bit first. */
    method SendCmd(szCommand: array<bv8>, nCmdLen: nat)
      requires nCmdLen <= szCommand.Length
      modifies this`clock, this`cmd
      ensures cmd == old(cmd) + BitsOf(szCommand[..nCmdLen])
      ensures clock == old(clock) + 8 * nCmdLen
    {
      hide Bits, BitsOf;
      NoBitsOf(szCommand[..0]);
      for i := 0 to nCmdLen
        invariant cmd == old(cmd) + BitsOf(szCommand[..i])
        invariant clock == old(clock) + 8 * i
      {
        assert szCommand[..i + 1] == szCommand[..i] + [szCommand[i]];
        OneMoreOfBits(szCommand[..i], szCommand[i], szCommand[..i + 1]);
        SendByte(szCommand[i]);
      }
    }

    method SendByte(Data: bv8)
      modifies this`clock, this`cmd
      ensures cmd == old(cmd) + Bits(Data) && clock == old(clock) + 8
    {
      hide Bits, MaskAt;
      FirstMask();
      var Mask := 0x80;
      ghost var bits := Bits(Data);
      for k := 0 to 8
        invariant Mask == MaskAt(k)
        invariant cmd == old(cmd) + bits[..k]
        invariant clock == old(clock) + k
      {
        MaskBit(Data, k);
        if Data & Mask != 0 {
          PutCmd(true);
        } else {
          PutCmd(false);
        }
        Mask := Mask >> 1;
        TakeOneMore(bits, k);
      }
      assert bits[..8] == bits;
    }

    /** Waits for a start bit, up to 22 samples, and reads the transmitter bit after it. */
    method WaitResponse() returns (ok: bool, ghost high: nat)
      modifies this`clock
      ensures high == Highs(cmdIn, old(clock), 22)
      ensures ok <==> Answers(cmdIn, old(clock))
      ensures ok ==> clock == old(clock) + high + 2 && !cmdIn(old(clock) + high) && !cmdIn(old(clock) + high + 1)
    {
      hide AllHigh, Highs;
      ghost var t := clock;
      NothingHigh(cmdIn, t);
      var nMaxCnt := 20;
      var nCnt: nat := 0;
      var bDone, bTimeout := false, false;
      while !bDone && !bTimeout
        invariant !bDone ==> clock == t + nCnt && (bTimeout <==> nCnt == 22)
        invariant bDone ==> !bTimeout && clock == t + nCnt + 1 && !cmdIn(t + nCnt) && nCnt < 22
        invariant nCnt <= 22
        invariant AllHigh(cmdIn, t, nCnt)
        decreases !bDone && !bTimeout, 22 - nCnt
      {
        var level := TestCmd();
        if !level {
          bDone := true;
        } else {
          OneMoreHigh(cmdIn, t, nCnt);
          if nCnt > nMaxCnt {
            bTimeout := true;
          }
          nCnt := nCnt + 1;
        }
      }
      HighsUnique(cmdIn, t, 22, nCnt);
      high := nCnt;
      if !bDone || bTimeout {
        return false, high;
      }
      var transmitter := TestCmd();
      ok := !transmitter;
    }

    /** One bit of a response: into the byte being built, and that into the buffer when it is complete. */
    method ResponseBit(szResponse: array<bv8>, was: bv8, nIndex: nat, ghost s: nat) returns (Value: bv8)
      requires nIndex / 8 < szResponse.Length && clock == s + nIndex
      requires Received(cmdIn, s, nIndex, szResponse[..nIndex / 8], was)
      modifies this`clock, szResponse
      ensures clock == s + nIndex + 1
      ensures Received(cmdIn, s, nIndex + 1, szResponse[..(nIndex + 1) / 8], Value)
    {
      hide BitsOf, Bits, MaskAt, Samples, LowBitsClear;
      ghost var q, r := nIndex / 8, nIndex % 8;
      ghost var front := szResponse[..q];
      var level := TestCmd();
      Value := was;
      if level {
        Value := Value | MaskAt(nIndex % 8);
      }
      NextBit(was, r, level, Value);
      OneMoreSample(cmdIn, s, nIndex);
      ShiftedIn(BitsOf(front), Bits(was)[..r], Bits(Value)[..r + 1], level, Samples(cmdIn, s, nIndex));
      if nIndex % 8 == 7 {
        Store(szResponse, nIndex / 8, Value);
        OneMoreOfBits(front, Value, szResponse[..q + 1]);
        assert Bits(Value)[..8] == Bits(Value);
        Value := 0;
        StartByte(BitsOf(szResponse[..q + 1]));
      }
    }

    /** Waits for the start bit of a response and shifts in the rest of its nLen bytes. */
    method GetResponse(szResponse: array<bv8>, nLen: nat) returns (ok: bool)
      requires nLen <= szResponse.Length
      modifies this`clock, szResponse
      ensures ok <==> Answers(cmdIn, old(clock))
      ensures ok && nLen > 0 ==>
        && BitsOf(szResponse[..nLen]) == Samples(cmdIn, old(clock) + Highs(cmdIn, old(clock), 22), 8 * nLen)
        && clock == old(clock) + Highs(cmdIn, old(clock), 22) + 8 * nLen + 8
      ensures !ok ==> szResponse[..] == old(szResponse[..])
    {
      hide Received, Highs, Answers, Samples, BitsOf;
      ghost var high;
      ghost var s := clock;
      ok, high := WaitResponse();
      if !ok {
        return;
      }
      s := s + high;
      var nIndex: nat := 2;
      var nBitCnt := nLen * 8;
      var Value: bv8 := 0;
      FirstTwo(cmdIn, s, szResponse[..0]);
      while nIndex < nBitCnt
        invariant nIndex <= nBitCnt || nBitCnt == 0
        invariant clock == s + nIndex && nIndex / 8 <= szResponse.Length
        invariant Received(cmdIn, s, nIndex, szResponse[..nIndex / 8], Value)
      {
        Value := ResponseBit(szResponse, Value, nIndex, s);
        nIndex := nIndex + 1;
      }
      if nLen > 0 {
        WholeBytes(cmdIn, s, nIndex, szResponse[..nLen], Value);
      }
      DummyClock(8);
    }

    /** One-bit mode: start bit, nBufLen bytes, checksum, end bit. */
    method ReadData1(szBuf: array<bv8>, nBufLen: nat) returns (ok: bool)
      requires nBufLen <= szBuf.Length
      modifies this`clock, szBuf
      ensures Reads1(Dat0(datIn), old(clock), nBufLen, ok, szBuf[..nBufLen])
      ensures ok ==> clock == old(clock) + Highs(Dat0(datIn), old(clock), 9002) + 8 * nBufLen + 26
      ensures forall k :: nBufLen <= k < szBuf.Length ==> szBuf[k] == old(szBuf[k])
    {
      hide BitsOf, Bits, Bits16, Samples, Run, In8, In16, Highs, AllHigh, Checksum16;
      ghost var t := clock;
      ghost var line := Dat0(datIn);
      var started, tries := WaitStart(0x01);
      HighsUnique(line, t, 9002, tries);
      if !started {
        return false;
      }
      ghost var s := clock;
      NoSamples(line, s, szBuf[..0]);
      for i := 0 to nBufLen
        invariant clock == s + 8 * i
        invariant BitsOf(szBuf[..i]) == Samples(line, s, 8 * i)
        invariant forall k :: nBufLen <= k < szBuf.Length ==> szBuf[k] == old(szBuf[k])
      {
        ghost var front := szBuf[..i];
        var Data8 := ShiftIn8();
        Store(szBuf, i, Data8);
        OneMoreOfBits(front, Data8, szBuf[..i + 1]);
        JoinSamples(line, s, 8 * i, 8);
      }
      var DataCrc16 := ShiftIn16();
      var end := TestDat();
      ok := end & 0x01 == 0x01;
      DummyClock(8);
      if ok {
        var MyCrc16 := Crc16(szBuf, nBufLen);
        if MyCrc16 != DataCrc16 {
          ok := false;
        }
      }
      ChecksumIsRun(szBuf[..nBufLen]);
      if Bits16(DataCrc16) == Bits16(Checksum16(szBuf[..nBufLen])) {
        Bits16Injective(DataCrc16, Checksum16(szBuf[..nBufLen]));
      }
      OddIsOne(end);
      SplitBlock(line, s, nBufLen);
    }

    /** Four-bit mode: a start nibble and two nibbles for each byte; checksum and end bit go unread. */
    method ReadData4(szBuf: array<bv8>, nBufLen: nat) returns (ok: bool)
      requires nBufLen <= szBuf.Length
      modifies this`clock, szBuf
      ensures Reads4(datIn, old(clock), nBufLen, ok, szBuf[..nBufLen])
      ensures ok ==> clock == old(clock) + Highs(AnyDat(datIn), old(clock), 9002) + 2 * nBufLen + 1
      ensures forall k :: nBufLen <= k < szBuf.Length ==> szBuf[k] == old(szBuf[k])
    {
      hide Nibbles, Samples4, AllHigh, Masked, Joined, Highs;
      ghost var t := clock;
      var started, tries := WaitStart(0x0F);
      HighsUnique(AnyDat(datIn), t, 9002, tries);
      if !started {
        return false;
      }
      ghost var s := clock;
      NoNibbles(datIn, s, szBuf[..0]);
      for i := 0 to nBufLen
        invariant clock == s + 2 * i
        invariant Nibbles(szBuf[..i]) == Samples4(datIn, s, 2 * i)
        invariant forall k :: nBufLen <= k < szBuf.Length ==> szBuf[k] == old(szBuf[k])
      {
        ghost var front := szBuf[..i];
        var high := TestDat();
        var low := TestDat();
        Store(szBuf, i, Joined(high, low));
        OneMoreOfNibbles(front, Joined(high, low), szBuf[..i + 1]);
        HalvesOf(high, low);
        TwoMoreSamples(datIn, s, 2 * i);
      }
      ok := true;
    }

    /** Polls for all the masked lines low, up to 9002 samples. */
    method WaitStart(mask: bv8) returns (started: bool, tries: nat)
      modifies this`clock
      ensures started <==> tries < 9002
      ensures tries <= 9002
      ensures AllHigh(Masked(datIn, mask), old(clock), tries)
      ensures started ==> !Masked(datIn, mask)(old(clock) + tries) && clock == old(clock) + tries + 1
    {
      hide AllHigh;
      ghost var line := Masked(datIn, mask);
      NothingHigh(line, clock);
      var nMaxTry := 9000;
      tries := 0;
      while true
        invariant tries <= 9001 && clock == old(clock) + tries
        invariant AllHigh(Masked(datIn, mask), old(clock), tries)
        decreases 9001 - tries
      {
        var level := TestDat();
        if level & mask == 0 {
          return true, tries;
        }
        OneMoreHigh(line, old(clock), tries);
        tries := tries + 1;
        if tries - 1 > nMaxTry {
          return false, tries;
        }
      }
    }

    method ShiftIn8() returns (Data8: bv8)
      modifies this`clock
      ensures clock == old(clock) + 8
      ensures Bits(Data8) == Samples(Dat0(datIn), old(clock), 8)
    {
      hide Samples, Bits, In8, Push8;
      ghost var line, s := Dat0(datIn), clock;
      Data8 := 0;
      NoneIn(line, s);
      for j := 0 to 8
        invariant clock == s + j && Data8 == In8(Samples(line, s, j))
      {
        In8Step(line, s, j);
        var level := TestDat();
        Data8 := Push8(Data8, level & 0x01 != 0);
      }
      In8Bits(Samples(line, s, 8));
    }

    method ShiftIn16() returns (DataCrc16: bv16)
      modifies this`clock
      ensures clock == old(clock) + 16
      ensures Bits16(DataCrc16) == Samples(Dat0(datIn), old(clock), 16)
    {
      hide Samples, Bits16, In16, Push16;
      ghost var line, s := Dat0(datIn), clock;
      DataCrc16 := 0;
      NoneIn(line, s);
      for i := 0 to 16
        invariant clock == s + i && DataCrc16 == In16(Samples(line, s, i))
      {
        In16Step(line, s, i);
        var level := TestDat();
        DataCrc16 := Push16(DataCrc16, level & 0x01 != 0);
      }
      In16Bits(Samples(line, s, 16));
    }

    /** One-bit mode. The answer is whether DAT0 shows the card ready within 32 samples. */
    method WriteData1(szDataWrite: array<bv8>, nDataLen: nat) returns (ok: bool)
      requires nDataLen <= szDataWrite.Length
      modifies this`clock, this`dat
      ensures dat == old(dat) + Levels(Frame1(szDataWrite[..nDataLen]))
      ensures ok <==> Highs(Dat0Low(datIn), old(clock) + 8 * nDataLen + 18, 32) < 32
      ensures clock == Polled(datIn, old(clock) + 8 * nDataLen + 18) + 8
    {
      hide BitsOf, Bits, Bits16, Levels, Checksum16, Highs;
      ghost var t := clock;
      var DataCrc16 := Crc16(szDataWrite, nDataLen);
      PutDat(0x00);
      NoBitsOf(szDataWrite[..0]);
      StartLevel();
      ghost var head := [false];
      for i := 0 to nDataLen
        invariant clock == t + 1 + 8 * i
        invariant head == [false] + BitsOf(szDataWrite[..i])
        invariant dat == old(dat) + Levels(head)
      {
        PutByte(szDataWrite[i]);
        MoreLevels(old(dat), head, Bits(szDataWrite[i]));
        assert szDataWrite[..i + 1] == szDataWrite[..i] + [szDataWrite[i]];
        OneMoreOfBits(szDataWrite[..i], szDataWrite[i], szDataWrite[..i + 1]);
        head := head + Bits(szDataWrite[i]);
      }
      PutCrc(DataCrc16);
      MoreLevels(old(dat), head, Bits16(DataCrc16));
      head := head + Bits16(DataCrc16);
      PutDat(0x01);
      EndLevel();
      MoreLevels(old(dat), head, [true]);
      ok := PollReady();
      DummyClock(8);
    }

    method PutByte(data: bv8)
      modifies this`clock, this`dat
      ensures dat == old(dat) + Levels(Bits(data)) && clock == old(clock) + 8
    {
      hide Bits, Levels;
      var Data8 := data;
      NoLevels(Bits(data)[..0]);
      for j := 0 to 8
        invariant clock == old(clock) + j
        invariant Bits(Data8) == Bits(data)[j..] + Zeros(j)
        invariant dat == old(dat) + Levels(Bits(data)[..j])
      {
        ShiftBits8(Data8);
        ShiftedOut(Bits(data), j);
        if Data8 & 0x80 != 0 {
          PutDat(0x01);
        } else {
          PutDat(0x00);
        }
        OneMoreLevel(Bits(data), j);
        Data8 := Data8 << 1;
      }
      assert Bits(data)[..8] == Bits(data);
    }

    method PutCrc(crc: bv16)
      modifies this`clock, this`dat
      ensures dat == old(dat) + Levels(Bits16(crc)) && clock == old(clock) + 16
    {
      hide Bits16, Levels, Bits;
      var DataCrc16 := crc;
      NoLevels(Bits16(crc)[..0]);
      for i := 0 to 16
        invariant clock == old(clock) + i
        invariant Bits16(DataCrc16) == Bits16(crc)[i..] + Zeros(i)
        invariant dat == old(dat) + Levels(Bits16(crc)[..i])
      {
        ShiftBits16(DataCrc16);
        ShiftedOut(Bits16(crc), i);
        if DataCrc16 & 0x8000 != 0 {
          PutDat(0x01);
        } else {
          PutDat(0x00);
        }
        OneMoreLevel(Bits16(crc), i);
        DataCrc16 := DataCrc16 << 1;
      }
      assert Bits16(crc)[..16] == Bits16(crc);
    }

    /** Four-bit mode. */
    method WriteData4(szDataWrite: array<bv8>, nDataLen: nat) returns (ok: bool)
      requires nDataLen <= szDataWrite.Length
      modifies this`clock, this`dat
      ensures dat == old(dat) + Frame4(szDataWrite[..nDataLen])
      ensures ok <==> Highs(Dat0Low(datIn), old(clock) + 2 * nDataLen + 2, 32) < 32
      ensures clock == Polled(datIn, old(clock) + 2 * nDataLen + 2) + 8
    {
      hide Nibbles, Highs;
      ghost var t := clock;
      PutDat(0x00);
      NoNibbles(datIn, t, szDataWrite[..0]);
      for i := 0 to nDataLen
        invariant clock == t + 1 + 2 * i
        invariant dat == old(dat) + ([0x00] + Nibbles(szDataWrite[..i]))
      {
        var Data8 := szDataWrite[i];
        LowHalf(Data8);
        PutDat((Data8 >> 4) & 0x0F);
        PutDat(((Data8 << 4) >> 4) & 0x0F);
        assert szDataWrite[..i + 1] == szDataWrite[..i] + [Data8];
        OneMoreOfNibbles(szDataWrite[..i], Data8, szDataWrite[..i + 1]);
      }
      PutDat(0x0F);
      ok := PollReady();
      DummyClock(8);
    }

    /** Up to 32 samples of DAT0, until one is high. */
    method PollReady() returns (ready: bool)
      modifies this`clock
      ensures ready <==> Highs(Dat0Low(datIn), old(clock), 32) < 32
      ensures clock == Polled(datIn, old(clock))
    {
      hide Highs;
      ghost var t, low := clock, Dat0Low(datIn);
      ready := false;
      var i: nat := 0;
      while i < 32 && !ready
        invariant i <= 32 && clock == t + i
        invariant !ready ==> AllHigh(low, t, i)
        invariant ready ==> i > 0 && !low(t + (i - 1)) && AllHigh(low, t, i - 1)
      {
        var level := TestDat();
        if level & 0x01 == 0x01 {
          ready := true;
        }
        OddIsOne(level);
        i := i + 1;
      }
      HighsUnique(low, t, 32, if ready then i - 1 else i);
    }
  }

  // ----- steps of the loops -----

  /** A start bit within 22 samples of time t, and a low bit after it. */
  predicate Answers(line: nat -> bool, t: nat) {
    var h := Highs(line, t, 22);
    h < 22 && !line(t + h + 1)
  }

  lemma NoSamples(line: nat -> bool, s: nat, none: seq<bv8>)
    requires none == []
    ensures BitsOf(none) == Samples(line, s, 0)
  {
  }

  lemma NoneIn(line: nat -> bool, s: nat)
    ensures In8(Samples(line, s, 0)) == 0 && In16(Samples(line, s, 0)) == 0
  {
  }

  lemma In16Step(line: nat -> bool, s: nat, j: nat)
    ensures In16(Samples(line, s, j + 1)) == Push16(In16(Samples(line, s, j)), line(s + j))
  {
    hide Samples, Push16;
    OneMoreSample(line, s, j);
  }

  lemma ZeroBits()
    ensures forall j: nat :: j < 8 ==> !Bits(0)[j]
  {
  }

  lemma FirstTwo(line: nat -> bool, s: nat, none: seq<bv8>)
    requires !line(s) && !line(s + 1) && none == []
    ensures Received(line, s, 2, none, 0)
  {
    ZeroBits();
  }

  lemma ShiftedIn(front: seq<bool>, was: seq<bool>, now: seq<bool>, high: bool, s: seq<bool>)
    requires front + was == s && now == was + [high]
    ensures front + now == s + [high]
  {
  }

  predicate LowBitsClear(v: bv8, r: nat)
    requires r < 8
  {
    forall j: nat :: r <= j < 8 ==> !Bits(v)[j]
  }

  /** After n samples of a response: the complete bytes, and the next one so far, its other bits clear. */
  ghost predicate Received(line: nat -> bool, s: nat, n: nat, bytes: seq<bv8>, next: bv8) {
    LowBitsClear(next, n % 8) && BitsOf(bytes) + Bits(next)[..n % 8] == Samples(line, s, n)
  }

  lemma WholeBytes(line: nat -> bool, s: nat, n: nat, bytes: seq<bv8>, next: bv8)
    requires Received(line, s, n, bytes, next) && n % 8 == 0
    ensures BitsOf(bytes) == Samples(line, s, n)
  {
  }

  lemma NextBit(was: bv8, r: nat, high: bool, now: bv8)
    requires r < 8 && LowBitsClear(was, r)
    requires now == if high then was | MaskAt(r) else was
    ensures Bits(now)[..r + 1] == Bits(was)[..r] + [high]
    ensures r < 7 ==> LowBitsClear(now, r + 1)
  {
    hide Bits, MaskAt;
    OrMask(was, r);
  }

  lemma StartByte(front: seq<bool>)
    ensures front + Bits(0)[..0] == front
    ensures LowBitsClear(0, 0)
  {
    ZeroBits();
  }

  lemma TakeOneMore(s: seq<bool>, k: nat)
    requires k < |s|
    ensures s[..k + 1] == s[..k] + [s[k]]
  {
  }

  lemma ShiftedOut(bits: seq<bool>, j: nat)
    requires j < |bits|
    ensures (bits[j..] + Zeros(j))[0] == bits[j]
    ensures (bits[j..] + Zeros(j))[1..] + [false] == bits[j + 1..] + Zeros(j + 1)
  {
  }

  lemma NothingHigh(line: nat -> bool, t: nat)
    ensures AllHigh(line, t, 0)
  {
  }

  lemma OneMoreHigh(line: nat -> bool, t: nat, n: nat)
    requires AllHigh(line, t, n) && line(t + n)
    ensures AllHigh(line, t, n + 1)
  {
  }

  lemma OddIsOne(level: bv8)
    ensures level & 0x01 == 0x01 <==> level & 0x01 != 0
  {
  }

  lemma SplitBlock(line: nat -> bool, s: nat, n: nat)
    ensures var bits := Samples(line, s, 8 * n + 17);
            && bits[..8 * n] == Samples(line, s, 8 * n)
            && bits[8 * n..8 * n + 16] == Samples(line, s + 8 * n, 16)
            && bits[8 * n + 16] == line(s + 8 * n + 16)
  {
  }

  lemma HalvesOf(high: bv8, low: bv8)
    ensures Joined(high, low) >> 4 == high & 0x0F && Joined(high, low) & 0x0F == low & 0x0F
  {
  }

  lemma NoNibbles(dat: nat -> bv8, s: nat, none: seq<bv8>)
    requires none == []
    ensures Nibbles(none) == Samples4(dat, s, 0)
    ensures Nibbles(none) == []
  {
  }

  lemma OneMoreOfNibbles(bytes: seq<bv8>, d: bv8, whole: seq<bv8>)
    requires whole == bytes + [d]
    ensures Nibbles(whole) == Nibbles(bytes) + [d >> 4, d & 0x0F]
  {
    assert whole[..|whole| - 1] == bytes;
  }

  lemma TwoMoreSamples(dat: nat -> bv8, s: nat, n: nat)
    ensures Samples4(dat, s, n + 2) == Samples4(dat, s, n) + [dat(s + n) & 0x0F, dat(s + n + 1) & 0x0F]
  {
  }

  lemma LowHalf(d: bv8)
    ensures (d >> 4) & 0x0F == d >> 4 && ((d << 4) >> 4) & 0x0F == d & 0x0F
  {
  }

  lemma MoreLevels(before: seq<bv8>, a: seq<bool>, b: seq<bool>)
    ensures before + Levels(a) + Levels(b) == before + Levels(a + b)
  {
    LevelsAppend(a, b);
  }

  lemma StartLevel()
    ensures Levels([false]) == [0x00]
  {
  }

  lemma EndLevel()
    ensures Levels([true]) == [0x01]
  {
  }

  lemma NoLevels(none: seq<bool>)
    requires none == []
    ensures Levels(none) == []
  {
  }

  lemma OneMoreLevel(bits: seq<bool>, j: nat)
    requires j < |bits|
    ensures Levels(bits[..j + 1]) == Levels(bits[..j]) + [if bits[j] then 0x01 else 0x00]
  {
  }
}
