/**
 * I2C.c: the bit-banged master, as the levels it puts on SDA and SCL, read back by a bus monitor that
 * follows UM10204, sections 3.1.3 to 3.1.6, and knows nothing of the master.
 */
module I2c {
  import opened BitSerial

  // ----- the monitor -----

  datatype Level = Level(sda: bool, scl: bool)

  datatype Event = Start | Stop | Bit(level: bool)

  /**
   * The last levels, whether SDA has been still since SCL rose, and what was seen so far. SDA falling or
   * rising while SCL stays high is a START or a STOP; a bit is a whole high period of SCL with SDA still.
   */
  datatype Monitor = Monitor(sda: bool, scl: bool, still: bool, events: seq<Event>)

  function Step(m: Monitor, l: Level): Monitor {
    if m.scl && l.scl && m.sda && !l.sda then Monitor(l.sda, l.scl, false, m.events + [Start])
    else if m.scl && l.scl && !m.sda && l.sda then Monitor(l.sda, l.scl, false, m.events + [Stop])
    else if m.scl && !l.scl && m.still then Monitor(l.sda, l.scl, false, m.events + [Bit(m.sda)])
    else Monitor(l.sda, l.scl, if m.scl == l.scl then m.still else l.scl, m.events)
  }

  function Watch(trace: seq<Level>): Monitor
    requires trace != []
  {
    if |trace| == 1 then Monitor(trace[0].sda, trace[0].scl, false, [])
    else Step(Watch(trace[..|trace| - 1]), trace[|trace| - 1])
  }

  /** How often SDA changed while SCL stayed high. */
  function Changes(trace: seq<Level>): nat
    requires trace != []
  {
    if |trace| == 1 then 0
    else
      var a, b := trace[|trace| - 2], trace[|trace| - 1];
      Changes(trace[..|trace| - 1]) + (if a.scl && b.scl && a.sda != b.sda then 1 else 0)
  }

  function Marks(events: seq<Event>): nat {
    if events == [] then 0 else Marks(events[..|events| - 1]) + (if events[|events| - 1].Bit? then 0 else 1)
  }

  lemma MarksOneMore(events: seq<Event>, e: Event)
    ensures Marks(events + [e]) == Marks(events) + (if e.Bit? then 0 else 1)
  {
    assert (events + [e])[..|events|] == events;
  }

  /** SDA changes under a high clock exactly once for every START and STOP seen, and never else. */
  lemma {:induction false} ChangesAreMarks(trace: seq<Level>)
    requires trace != []
    ensures Watch(trace).sda == trace[|trace| - 1].sda && Watch(trace).scl == trace[|trace| - 1].scl
    ensures Marks(Watch(trace).events) == Changes(trace)
  {
    if |trace| > 1 {
      var front, l := trace[..|trace| - 1], trace[|trace| - 1];
      ChangesAreMarks(front);
      var m := Watch(front);
      assert front[|front| - 1] == trace[|trace| - 2];
      MarksOneMore(m.events, Start);
      MarksOneMore(m.events, Stop);
      MarksOneMore(m.events, Bit(m.sda));
    }
  }

  // ----- transfers -----

  /** A START, a byte with its acknowledge bit, or a STOP. */
  datatype Item = S | Byte(value: bv8, ack: bool) | P

  function EventsOf(item: Item): seq<Event> {
    match item
    case S => [Start]
    case P => [Stop]
    case Byte(value, ack) => BitEvents(Bits(value)) + [Bit(!ack)]
  }

  function BitEvents(bits: seq<bool>): (s: seq<Event>)
    ensures |s| == |bits|
  {
    seq(|bits|, k requires 0 <= k < |bits| => Bit(bits[k]))
  }

  function Encode(items: seq<Item>): seq<Event> {
    if items == [] then [] else EventsOf(items[0]) + Encode(items[1..])
  }

  lemma {:induction false} EncodeAppend(a: seq<Item>, b: seq<Item>)
    ensures Encode(a + b) == Encode(a) + Encode(b)
  {
    hide EventsOf;
    if a == [] {
      assert a + b == b;
    } else {
      EncodeAppend(a[1..], b);
      assert (a + b)[0] == a[0] && (a + b)[1..] == a[1..] + b;
      Associate(EventsOf(a[0]), Encode(a[1..]), Encode(b));
    }
  }

  lemma EncodeOne(item: Item)
    ensures Encode([item]) == EventsOf(item)
  {
    hide EventsOf;
    assert Encode([item][1..]) == [];
  }

  /** How a receiver groups what the monitor saw: nine bits to a byte; anything else is no transfer. */
  function Decode(events: seq<Event>): seq<Item>
    decreases |events|
  {
    if events == [] then []
    else if events[0] == Start then [S] + Decode(events[1..])
    else if events[0] == Stop then [P] + Decode(events[1..])
    else if |events| >= 9 && forall k :: 0 <= k < 9 ==> events[k].Bit? then
      [Byte(In8(seq(8, k requires 0 <= k < 8 => events[k].level)), !events[8].level)] + Decode(events[9..])
    else []
  }

  /** The receiver recovers the transfers, whatever they were. */
  lemma {:induction false} DecodeEncode(items: seq<Item>)
    ensures Decode(Encode(items)) == items
  {
    hide Bits, In8;
    if items != [] {
      var first, rest := EventsOf(items[0]), Encode(items[1..]);
      var events := first + rest;
      assert Encode(items) == events;
      DecodeEncode(items[1..]);
      assert items == [items[0]] + items[1..];
      match items[0]
      case S => assert events[1..] == rest;
      case P => assert events[1..] == rest;
      case Byte(value, ack) =>
        assert |first| == 9 && events[9..] == rest;
        assert forall k :: 0 <= k < 8 ==> events[k] == first[k] == Bit(Bits(value)[k]);
        assert events[8] == first[8] == Bit(!ack);
        var bits := seq(8, k requires 0 <= k < 8 => events[k].level);
        assert bits == Bits(value);
        ByteBack(value, bits);
    }
  }

  lemma ByteBack(value: bv8, bits: seq<bool>)
    requires bits == Bits(value)
    ensures In8(bits) == value
  {
    hide Bits, In8;
    In8Bits(bits);
    assert Zeros(0) + bits == bits;
    BitsInjective(In8(bits), value);
  }

  // ----- what the other end does -----

  /** The bytes written, up to the first one not acknowledged; the clock has fallen f times before the first. */
  function Written(slave: nat -> bool, f: nat, bytes: seq<bv8>): seq<Item>
    decreases |bytes|
  {
    if bytes == [] then []
    else
      var ack := !slave(f + 8);
      [Byte(bytes[0], ack)] + (if ack then Written(slave, f + 9, bytes[1..]) else [])
  }

  /** Whether all of them were acknowledged. */
  predicate AllAcked(slave: nat -> bool, f: nat, bytes: seq<bv8>)
    decreases |bytes|
  {
    bytes == [] || (!slave(f + 8) && AllAcked(slave, f + 9, bytes[1..]))
  }

  /** What the slave shifts out from the f-th fall of the clock on. */
  function Sent(slave: nat -> bool, f: nat): bv8 {
    In8(Samples(slave, f, 8))
  }

  /** The bytes read: all acknowledged but the last. */
  function ReadBack(slave: nat -> bool, f: nat, n: nat, len: nat): seq<Item>
    requires n <= len
  {
    if n == 0 then [] else ReadBack(slave, f, n - 1, len) + [Byte(Sent(slave, f + 9 * (n - 1)), n != len)]
  }

  /** Byte i of those read is what the slave shifted out nine clocks apart, and is acknowledged if and only if it is
      not the last. */
  lemma {:induction false} LastNotAcked(slave: nat -> bool, f: nat, n: nat, len: nat, i: nat)
    requires i < n <= len
    ensures |ReadBack(slave, f, n, len)| == n
    ensures ReadBack(slave, f, n, len)[i] == Byte(Sent(slave, f + 9 * i), i < len - 1)
    decreases n
  {
    hide Sent;
    ReadLength(slave, f, n - 1, len);
    if i < n - 1 {
      LastNotAcked(slave, f, n - 1, len, i);
    }
  }

  lemma {:induction false} ReadLength(slave: nat -> bool, f: nat, n: nat, len: nat)
    requires n <= len
    ensures |ReadBack(slave, f, n, len)| == n
  {
    hide Sent;
    if n > 0 {
      ReadLength(slave, f, n - 1, len);
    }
  }

  /** On the wire: the ninth bit of each byte read is low, but high after the last one. */
  lemma {:induction false} AckBits(slave: nat -> bool, f: nat, n: nat, len: nat, i: nat)
    requires i < n <= len
    ensures |Encode(ReadBack(slave, f, n, len))| == 9 * n
    ensures Encode(ReadBack(slave, f, n, len))[9 * i + 8] == Bit(i == len - 1)
    decreases n
  {
    hide Sent, Encode, Bits;
    var front, last := ReadBack(slave, f, n - 1, len), Byte(Sent(slave, f + 9 * (n - 1)), n != len);
    EncodeAppend(front, [last]);
    EncodeOne(last);
    if n > 1 {
      AckBits(slave, f, n - 1, len, if i < n - 1 then i else 0);
    } else {
      NothingEncoded();
    }
  }

  lemma NothingEncoded()
    ensures Encode([]) == []
  {
  }

  lemma {:induction false} WrittenAppend(slave: nat -> bool, f: nat, a: seq<bv8>, b: bv8, g: nat)
    requires AllAcked(slave, f, a) && g == f + 9 * |a|
    ensures Written(slave, f, a + [b]) == Written(slave, f, a) + [Byte(b, !slave(g + 8))]
    ensures AllAcked(slave, f, a + [b]) <==> !slave(g + 8)
    decreases |a|
  {
    if a == [] {
      assert a + [b] == [b];
      WrittenOne(slave, f, b);
    } else {
      WrittenAppend(slave, f + 9, a[1..], b, g);
      assert (a + [b])[1..] == a[1..] + [b];
      var first := [Byte(a[0], true)];
      assert first + (Written(slave, f + 9, a[1..]) + [Byte(b, !slave(g + 8))])
          == first + Written(slave, f + 9, a[1..]) + [Byte(b, !slave(g + 8))];
    }
  }

  lemma {:induction false} WrittenStops(slave: nat -> bool, f: nat, a: seq<bv8>, b: seq<bv8>)
    requires !AllAcked(slave, f, a)
    ensures Written(slave, f, a + b) == Written(slave, f, a) && !AllAcked(slave, f, a + b)
    decreases |a|
  {
    assert (a + b)[1..] == a[1..] + b;
    if !slave(f + 8) {
      WrittenStops(slave, f + 9, a[1..], b);
    }
  }

  // ----- the master -----

  class Bus {
    /** What the slave and the pull-up make of SDA when the master lets go, after each fall of the clock. */
    const slave: nat -> bool
    var sda: bool       // the data register of the SDA pin
    var out: bool       // its direction
    var scl: bool
    var falls: nat      // falling edges of the clock so far
    ghost var trace: seq<Level>

    ghost function Line(): bool
      reads this
    {
      if out then sda else slave(falls)
    }

    ghost predicate Valid()
      reads this
    {
      trace != [] && Watch(trace).sda == Line() && Watch(trace).scl == scl
    }

    ghost function Events(): seq<Event>
      requires trace != []
      reads this
    {
      Watch(trace).events
    }

    /** Between transfers: both lines high. */
    ghost predicate Free()
      reads this
    {
      Valid() && scl && out && sda
    }

    constructor (slave: nat -> bool)
      ensures this.slave == slave && Valid() && !scl && Events() == [] && falls == 0
    {
      this.slave := slave;
      sda, out, scl := false, false, false;
      falls := 0;
      trace := [Level(slave(0), false)];
    }

    /** After every action the lines are seen by the monitor. */
    ghost method See()
      requires trace != []
      modifies this`trace
      ensures trace != [] && Watch(trace) == Step(old(Watch(trace)), Level(Line(), scl))
    {
      ghost var l := Level(Line(), scl);
      assert (trace + [l])[..|trace| + 1 - 1] == trace;
      trace := trace + [l];
    }

    method SetSda(high: bool)
      requires Valid()
      modifies this`sda, this`trace
      ensures Valid() && sda == high
      ensures Watch(trace) == Step(old(Watch(trace)), Level(Line(), scl))
    {
      hide Watch;
      sda := high;
      See();
    }

    method SetDirection(out: bool)
      requires Valid()
      modifies this`out, this`trace
      ensures Valid() && this.out == out
      ensures Watch(trace) == Step(old(Watch(trace)), Level(Line(), scl))
    {
      hide Watch;
      this.out := out;
      See();
    }

    /** SCL is always driven by the master; the slave may change SDA when it falls. */
    method SetScl(high: bool)
      requires Valid()
      modifies this`scl, this`falls, this`trace
      ensures Valid() && scl == high
      ensures falls == old(falls) + (if old(scl) && !high then 1 else 0)
      ensures Watch(trace) == Step(old(Watch(trace)), Level(Line(), scl))
    {
      hide Watch;
      if scl && !high {
        falls := falls + 1;
      }
      scl := high;
      See();
    }

    method SdaRead() returns (level: bool)
      ensures level == Line()
    {
      level := if out then sda else slave(falls);
    }

    /** SDA falls while SCL is high. */
    method StartCondition()
      requires Valid() && (!scl || Free())
      modifies this
      ensures Valid() && !scl && out && falls == old(falls) + 1
      ensures Events() == old(Events()) + [Start]
    {
      hide Watch;
      SetDirection(true);
      SetSda(true);
      SetScl(true);
      SetSda(false);
      SetScl(false);
    }

    /** SDA rises while SCL is high. */
    method StopCondition()
      requires Valid() && !scl
      modifies this
      ensures Free() && falls == old(falls)
      ensures Events() == old(Events()) + [Stop]
    {
      hide Watch;
      SetDirection(true);
      SetSda(false);
      SetScl(true);
      SetSda(true);
    }

    method WriteBit(high: bool)
      requires Valid() && !scl && out
      modifies this
      ensures Valid() && !scl && out && falls == old(falls) + 1
      ensures Events() == old(Events()) + [Bit(high)]
    {
      hide Watch;
      SetScl(false);
      if high {
        SetSda(true);
      } else {
        SetSda(false);
      }
      SetScl(true);
      SetScl(false);
    }

    method ReadBit() returns (level: bool)
      requires Valid() && !scl && !out
      modifies this
      ensures Valid() && !scl && !out && falls == old(falls) + 1
      ensures level == slave(old(falls))
      ensures Events() == old(Events()) + [Bit(level)]
    {
      hide Watch;
      SetScl(true);
      level := SdaRead();
      SetScl(false);
    }

    method LetGo()
      requires Valid() && !scl
      modifies this
      ensures Valid() && !scl && !out && falls == old(falls) && Events() == old(Events())
    {
      hide Watch;
      SetDirection(false);
      SetScl(false);
    }

    method TakeOver()
      requires Valid() && !scl
      modifies this
      ensures Valid() && !scl && out && falls == old(falls) && Events() == old(Events())
    {
      hide Watch;
      SetScl(false);
      SetDirection(true);
    }

    method Lower()
      requires Valid() && !scl
      modifies this
      ensures Valid() && !scl && falls == old(falls) && Events() == old(Events())
    {
      hide Watch;
      SetSda(false);
    }

    /** Eight bits, most significant first, and the slave's acknowledge bit. */
    method WriteByte(Data: bv8) returns (bAck: bool)
      requires Valid() && !scl
      modifies this
      ensures Valid() && !scl && falls == old(falls) + 9
      ensures bAck == !slave(old(falls) + 8)
      ensures Events() == old(Events()) + EventsOf(Byte(Data, bAck))
    {
      hide Watch, Bits, MaskAt, BitEvents;
      FirstMask();
      var Mask: bv8 := 0x80;
      TakeOver();
      ghost var base := Events();
      NoEvents(base, Bits(Data)[..0]);
      for i := 0 to 8
        invariant Valid() && !scl && out && falls == old(falls) + i
        invariant Mask == MaskAt(i)
        invariant Events() == base + BitEvents(Bits(Data)[..i])
      {
        MaskBit(Data, i);
        WriteBit(Data & Mask != 0);
        Mask := Mask >> 1;
        OneMoreEvent(base, Bits(Data)[..i], Bits(Data)[i], Bits(Data)[..i + 1]);
      }
      assert Bits(Data)[..8] == Bits(Data);
      LetGo();
      var level := ReadBit();
      bAck := if level then false else true;
    }

    /** Eight bits from the slave, and the acknowledge bit of the master. */
    method ReadByte(bAck: bool) returns (data: bv8)
      requires Valid() && !scl
      modifies this
      ensures Valid() && !scl && falls == old(falls) + 9
      ensures data == Sent(slave, old(falls))
      ensures Events() == old(Events()) + EventsOf(Byte(data, bAck))
    {
      hide Watch, Bits, In8, Samples, Push8, BitEvents;
      data := 0;
      LetGo();
      ghost var f, base := falls, Events();
      NothingRead(slave, f);
      NoEvents(base, Samples(slave, f, 0));
      for i := 0 to 8
        invariant Valid() && !scl && !out && falls == f + i
        invariant data == In8(Samples(slave, f, i))
        invariant Events() == base + BitEvents(Samples(slave, f, i))
      {
        var level := ReadBit();
        data := Push8(data, level);
        In8Step(slave, f, i);
        OneMoreSample(slave, f, i);
        OneMoreEvent(base, Samples(slave, f, i), level, Samples(slave, f, i + 1));
      }
      SentBits(slave, f);
      TakeOver();
      WriteBit(!bAck);
      Lower();
    }

    /** START, then two bytes, the second only if the first was acknowledged. */
    method SelectRegister(DeviceAddr: bv8, ControlAddr: bv8) returns (bSuccess: bool)
      requires Valid() && (!scl || Free())
      modifies this
      ensures Valid() && !scl
      ensures Events() == old(Events()) + Encode([S] + Written(slave, old(falls) + 1, [DeviceAddr, ControlAddr]))
      ensures bSuccess <==> AllAcked(slave, old(falls) + 1, [DeviceAddr, ControlAddr])
      ensures falls == old(falls) + 1 + 9 * |Written(slave, old(falls) + 1, [DeviceAddr, ControlAddr])|
    {
      hide Watch, EventsOf, Encode;
      ghost var base, f := Events(), falls + 1;
      StartCondition();
      FirstItem(base, S);
      bSuccess := WriteByte(DeviceAddr);
      Extend(base, [S], Byte(DeviceAddr, bSuccess));
      if bSuccess {
        bSuccess := WriteByte(ControlAddr);
        Extend(base, [S, Byte(DeviceAddr, true)], Byte(ControlAddr, bSuccess));
      }
      WrittenTwo(slave, f, DeviceAddr, ControlAddr);
      assert [S] + [Byte(DeviceAddr, false)] == [S, Byte(DeviceAddr, false)];
      assert [S] + [Byte(DeviceAddr, true)] == [S, Byte(DeviceAddr, true)];
      assert forall x: Item, y: Item :: [S, x] + [y] == [S] + [x, y];
    }

    /** A register write: the monitor sees a START, the bytes up to the first one refused, and a STOP. */
    method Write(DeviceAddr: bv8, ControlAddr: bv8, ControlData: bv8) returns (bSuccess: bool)
      requires Valid() && (!scl || Free())
      modifies this
      ensures Free()
      ensures Events() == old(Events())
                          + Encode([S] + Written(slave, old(falls) + 1, [DeviceAddr, ControlAddr, ControlData]) + [P])
      ensures bSuccess <==> AllAcked(slave, old(falls) + 1, [DeviceAddr, ControlAddr, ControlData])
    {
      hide Watch, EventsOf, Encode, Written, AllAcked;
      ghost var base, f, two := Events(), falls + 1, [DeviceAddr, ControlAddr];
      ghost var items := [S] + Written(slave, f, two);
      bSuccess := SelectRegister(DeviceAddr, ControlAddr);
      ghost var three := two + [ControlData];
      if bSuccess {
        AllWritten(slave, f, two);
        WrittenAppend(slave, f, two, ControlData, falls);
        bSuccess := WriteByte(ControlData);
        Extend(base, items, Byte(ControlData, bSuccess));
        items := items + [Byte(ControlData, bSuccess)];
      } else {
        WrittenStops(slave, f, two, [ControlData]);
      }
      assert items == [S] + Written(slave, f, three);
      StopCondition();
      Extend(base, items, P);
      assert three == [DeviceAddr, ControlAddr, ControlData];
    }

    /** A register read; the START is repeated even when the register could not be selected. */
    method Read(DeviceAddr: bv8, ControlAddr: bv8) returns (bSuccess: bool, ControlData: bv8)
      requires Valid() && (!scl || Free())
      modifies this
      ensures Free()
      ensures var two, f := [DeviceAddr, ControlAddr], old(falls) + 1;
              var g := f + 9 * |Written(slave, f, two)| + 1;
              && (bSuccess <==> AllAcked(slave, f, two) && AllAcked(slave, g, [DeviceAddr | 1]))
              && (bSuccess ==> ControlData == Sent(slave, g + 9))
              && Events() == old(Events())
                             + Encode([S] + Written(slave, f, two) + [S]
                                      + (if AllAcked(slave, f, two) then Written(slave, g, [DeviceAddr | 1]) else [])
                                      + (if bSuccess then [Byte(ControlData, false)] else []) + [P])
    {
      hide Watch, EventsOf, Encode, AllAcked, Written, Sent;
      ghost var base, f, two := Events(), falls + 1, [DeviceAddr, ControlAddr];
      ghost var items := [S] + Written(slave, f, two);
      ControlData := 0;
      bSuccess := SelectRegister(DeviceAddr, ControlAddr);
      StartCondition();
      Extend(base, items, S);
      items := items + [S];
      ghost var g := falls;
      WrittenOne(slave, g, DeviceAddr | 1);
      if bSuccess {
        bSuccess := WriteByte(DeviceAddr | 1);
        Extend(base, items, Byte(DeviceAddr | 1, bSuccess));
        items := items + [Byte(DeviceAddr | 1, bSuccess)];
      }
      if bSuccess {
        ControlData := ReadByte(false);
        Extend(base, items, Byte(ControlData, false));
        items := items + [Byte(ControlData, false)];
      }
      assert items == [S] + Written(slave, f, two) + [S]
                      + (if AllAcked(slave, f, two) then Written(slave, g, [DeviceAddr | 1]) else [])
                      + (if bSuccess then [Byte(ControlData, false)] else []);
      StopCondition();
      Extend(base, items, P);
    }

    /** Reads len bytes from register 0, acknowledging all but the last. */
    method MultipleRead(DeviceAddr: bv8, szData: array<bv8>, len: nat) returns (bSuccess: bool)
      requires Valid() && (!scl || Free()) && len <= szData.Length
      modifies this, szData
      ensures Free()
      ensures var two, f := [DeviceAddr, 0], old(falls) + 1;
              var g := f + 9 * |Written(slave, f, two)| + 1;
              && (bSuccess <==> AllAcked(slave, f, two) && AllAcked(slave, g, [DeviceAddr | 1]))
              && (bSuccess ==> forall i :: 0 <= i < len ==> szData[i] == Sent(slave, g + 9 + 9 * i))
              && Events() == old(Events())
                             + Encode([S] + Written(slave, f, two)
                                      + (if AllAcked(slave, f, two) then [S] + Written(slave, g, [DeviceAddr | 1]) else [])
                                      + (if bSuccess then ReadBack(slave, g + 9, len, len) else []) + [P])
    {
      hide Watch, EventsOf, Encode, AllAcked, Written, Sent, ReadBack;
      ghost var base, f, two := Events(), falls + 1, [DeviceAddr, 0];
      ghost var items := [S] + Written(slave, f, two);
      bSuccess := SelectRegister(DeviceAddr, 0);
      ghost var g := falls + 1;
      if bSuccess {
        StartCondition();
        Extend(base, items, S);
        items := items + [S];
        WrittenOne(slave, g, DeviceAddr | 1);
        bSuccess := WriteByte(DeviceAddr | 1);
        Extend(base, items, Byte(DeviceAddr | 1, bSuccess));
        items := items + [Byte(DeviceAddr | 1, bSuccess)];
      }
      if bSuccess {
        ReadMany(szData, len, base, items);
        items := items + ReadBack(slave, g + 9, len, len);
      }
      assert items == [S] + Written(slave, f, two)
                      + (if AllAcked(slave, f, two) then [S] + Written(slave, g, [DeviceAddr | 1]) else [])
                      + (if bSuccess then ReadBack(slave, g + 9, len, len) else []);
      StopCondition();
      Extend(base, items, P);
    }

    method ReadMany(szData: array<bv8>, len: nat, ghost base: seq<Event>, ghost items: seq<Item>)
      requires Valid() && !scl && len <= szData.Length && Events() == base + Encode(items)
      modifies this, szData
      ensures Valid() && !scl
      ensures forall i :: 0 <= i < len ==> szData[i] == Sent(slave, old(falls) + 9 * i)
      ensures Events() == base + Encode(items + ReadBack(slave, old(falls), len, len))
    {
      hide Watch, EventsOf, Encode, Sent;
      ghost var f := falls;
      assert items + ReadBack(slave, f, 0, len) == items;
      for i := 0 to len
        invariant Valid() && !scl && falls == f + 9 * i
        invariant forall j :: 0 <= j < i ==> szData[j] == Sent(slave, f + 9 * j)
        invariant Events() == base + Encode(items + ReadBack(slave, f, i, len))
      {
        szData[i] := ReadByte(if i == len - 1 then false else true);
        Extend(base, items + ReadBack(slave, f, i, len), Byte(szData[i], i + 1 != len));
        assert items + ReadBack(slave, f, i, len) + [Byte(szData[i], i + 1 != len)]
            == items + ReadBack(slave, f, i + 1, len);
      }
    }
  }

  // ----- steps -----

  lemma NoEvents(base: seq<Event>, none: seq<bool>)
    requires none == []
    ensures base + BitEvents(none) == base
  {
  }

  lemma OneMoreEvent(base: seq<Event>, bits: seq<bool>, b: bool, more: seq<bool>)
    requires more == bits + [b]
    ensures base + BitEvents(bits) + [Bit(b)] == base + BitEvents(more)
  {
  }

  lemma NothingRead(slave: nat -> bool, f: nat)
    ensures In8(Samples(slave, f, 0)) == 0 && Samples(slave, f, 0) == []
  {
  }

  lemma SentBits(slave: nat -> bool, f: nat)
    ensures Bits(Sent(slave, f)) == Samples(slave, f, 8)
  {
    hide Bits, In8, Samples;
    In8Bits(Samples(slave, f, 8));
    assert Zeros(0) + Samples(slave, f, 8) == Samples(slave, f, 8);
  }

  lemma FirstItem(base: seq<Event>, item: Item)
    ensures base + EventsOf(item) == base + Encode([item])
    ensures item == S ==> base + [Start] == base + Encode([item])
  {
    EncodeOne(item);
  }

  lemma Extend(base: seq<Event>, items: seq<Item>, item: Item)
    ensures base + Encode(items) + EventsOf(item) == base + Encode(items + [item])
    ensures item == S ==> EventsOf(item) == [Start]
    ensures item == P ==> EventsOf(item) == [Stop]
  {
    hide Encode;
    EncodeAppend(items, [item]);
    EncodeOne(item);
    Associate(base, Encode(items), EventsOf(item));
  }

  lemma Associate(a: seq<Event>, b: seq<Event>, c: seq<Event>)
    ensures a + b + c == a + (b + c)
  {
  }

  lemma WrittenOne(slave: nat -> bool, f: nat, a: bv8)
    ensures Written(slave, f, [a]) == [Byte(a, !slave(f + 8))] && (AllAcked(slave, f, [a]) <==> !slave(f + 8))
  {
    assert [a][1..] == [];
  }

  lemma WrittenTwo(slave: nat -> bool, f: nat, a: bv8, b: bv8)
    ensures Written(slave, f, [a, b])
            == if slave(f + 8) then [Byte(a, false)] else [Byte(a, true), Byte(b, !slave(f + 17))]
    ensures AllAcked(slave, f, [a, b]) <==> !slave(f + 8) && !slave(f + 17)
  {
    assert [a, b][1..] == [b];
    WrittenOne(slave, f + 9, b);
  }

  /** Every byte went out when all were acknowledged. */
  lemma {:induction false} AllWritten(slave: nat -> bool, f: nat, a: seq<bv8>)
    requires AllAcked(slave, f, a)
    ensures |Written(slave, f, a)| == |a|
    decreases |a|
  {
    if a != [] {
      AllWritten(slave, f + 9, a[1..]);
    }
  }
}
