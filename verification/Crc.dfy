/** The table-driven checksums of the SD protocol, against polynomial division. */
module Crc {
  import opened BitSerial
  import opened Polynomial

  // ----- the tables of crc16.c and crc7.c, entry i in the row of the high half of i -----

  /** Select by the low four bits of the index. */
  function Pick16(i: bv8, a0: bv16, a1: bv16, a2: bv16, a3: bv16, a4: bv16, a5: bv16, a6: bv16, a7: bv16,
                  a8: bv16, a9: bv16, a10: bv16, a11: bv16, a12: bv16, a13: bv16, a14: bv16, a15: bv16): bv16 {
    if i & 0x08 == 0 then
      if i & 0x04 == 0 then
        if i & 0x02 == 0 then
          if i & 0x01 == 0 then a0 else a1
        else
          if i & 0x01 == 0 then a2 else a3
      else
        if i & 0x02 == 0 then
          if i & 0x01 == 0 then a4 else a5
        else
          if i & 0x01 == 0 then a6 else a7
    else
      if i & 0x04 == 0 then
        if i & 0x02 == 0 then
          if i & 0x01 == 0 then a8 else a9
        else
          if i & 0x01 == 0 then a10 else a11
      else
        if i & 0x02 == 0 then
          if i & 0x01 == 0 then a12 else a13
        else
          if i & 0x01 == 0 then a14 else a15
  }

  function Crc16Tab(i: bv8): bv16 {
    if i & 0x80 == 0 then
      if i & 0x40 == 0 then
        if i & 0x20 == 0 then
          if i & 0x10 == 0 then
            Pick16(i, 0x0000, 0x1021, 0x2042, 0x3063, 0x4084, 0x50a5, 0x60c6, 0x70e7,
                   0x8108, 0x9129, 0xa14a, 0xb16b, 0xc18c, 0xd1ad, 0xe1ce, 0xf1ef)
          else
            Pick16(i, 0x1231, 0x0210, 0x3273, 0x2252, 0x52b5, 0x4294, 0x72f7, 0x62d6,
                   0x9339, 0x8318, 0xb37b, 0xa35a, 0xd3bd, 0xc39c, 0xf3ff, 0xe3de)
        else
          if i & 0x10 == 0 then
            Pick16(i, 0x2462, 0x3443, 0x0420, 0x1401, 0x64e6, 0x74c7, 0x44a4, 0x5485,
                   0xa56a, 0xb54b, 0x8528, 0x9509, 0xe5ee, 0xf5cf, 0xc5ac, 0xd58d)
          else
            Pick16(i, 0x3653, 0x2672, 0x1611, 0x0630, 0x76d7, 0x66f6, 0x5695, 0x46b4,
                   0xb75b, 0xa77a, 0x9719, 0x8738, 0xf7df, 0xe7fe, 0xd79d, 0xc7bc)
      else
        if i & 0x20 == 0 then
          if i & 0x10 == 0 then
            Pick16(i, 0x48c4, 0x58e5, 0x6886, 0x78a7, 0x0840, 0x1861, 0x2802, 0x3823,
                   0xc9cc, 0xd9ed, 0xe98e, 0xf9af, 0x8948, 0x9969, 0xa90a, 0xb92b)
          else
            Pick16(i, 0x5af5, 0x4ad4, 0x7ab7, 0x6a96, 0x1a71, 0x0a50, 0x3a33, 0x2a12,
                   0xdbfd, 0xcbdc, 0xfbbf, 0xeb9e, 0x9b79, 0x8b58, 0xbb3b, 0xab1a)
        else
          if i & 0x10 == 0 then
            Pick16(i, 0x6ca6, 0x7c87, 0x4ce4, 0x5cc5, 0x2c22, 0x3c03, 0x0c60, 0x1c41,
                   0xedae, 0xfd8f, 0xcdec, 0xddcd, 0xad2a, 0xbd0b, 0x8d68, 0x9d49)
          else
            Pick16(i, 0x7e97, 0x6eb6, 0x5ed5, 0x4ef4, 0x3e13, 0x2e32, 0x1e51, 0x0e70,
                   0xff9f, 0xefbe, 0xdfdd, 0xcffc, 0xbf1b, 0xaf3a, 0x9f59, 0x8f78)
    else
      if i & 0x40 == 0 then
        if i & 0x20 == 0 then
          if i & 0x10 == 0 then
            Pick16(i, 0x9188, 0x81a9, 0xb1ca, 0xa1eb, 0xd10c, 0xc12d, 0xf14e, 0xe16f,
                   0x1080, 0x00a1, 0x30c2, 0x20e3, 0x5004, 0x4025, 0x7046, 0x6067)
          else
            Pick16(i, 0x83b9, 0x9398, 0xa3fb, 0xb3da, 0xc33d, 0xd31c, 0xe37f, 0xf35e,
                   0x02b1, 0x1290, 0x22f3, 0x32d2, 0x4235, 0x5214, 0x6277, 0x7256)
        else
          if i & 0x10 == 0 then
            Pick16(i, 0xb5ea, 0xa5cb, 0x95a8, 0x8589, 0xf56e, 0xe54f, 0xd52c, 0xc50d,
                   0x34e2, 0x24c3, 0x14a0, 0x0481, 0x7466, 0x6447, 0x5424, 0x4405)
          else
            Pick16(i, 0xa7db, 0xb7fa, 0x8799, 0x97b8, 0xe75f, 0xf77e, 0xc71d, 0xd73c,
                   0x26d3, 0x36f2, 0x0691, 0x16b0, 0x6657, 0x7676, 0x4615, 0x5634)
      else
        if i & 0x20 == 0 then
          if i & 0x10 == 0 then
            Pick16(i, 0xd94c, 0xc96d, 0xf90e, 0xe92f, 0x99c8, 0x89e9, 0xb98a, 0xa9ab,
                   0x5844, 0x4865, 0x7806, 0x6827, 0x18c0, 0x08e1, 0x3882, 0x28a3)
          else
            Pick16(i, 0xcb7d, 0xdb5c, 0xeb3f, 0xfb1e, 0x8bf9, 0x9bd8, 0xabbb, 0xbb9a,
                   0x4a75, 0x5a54, 0x6a37, 0x7a16, 0x0af1, 0x1ad0, 0x2ab3, 0x3a92)
        else
          if i & 0x10 == 0 then
            Pick16(i, 0xfd2e, 0xed0f, 0xdd6c, 0xcd4d, 0xbdaa, 0xad8b, 0x9de8, 0x8dc9,
                   0x7c26, 0x6c07, 0x5c64, 0x4c45, 0x3ca2, 0x2c83, 0x1ce0, 0x0cc1)
          else
            Pick16(i, 0xef1f, 0xff3e, 0xcf5d, 0xdf7c, 0xaf9b, 0xbfba, 0x8fd9, 0x9ff8,
                   0x6e17, 0x7e36, 0x4e55, 0x5e74, 0x2e93, 0x3eb2, 0x0ed1, 0x1ef0)
  }

  /** Select by the low four bits of the index. */
  function Pick8(i: bv8, a0: bv8, a1: bv8, a2: bv8, a3: bv8, a4: bv8, a5: bv8, a6: bv8, a7: bv8,
                  a8: bv8, a9: bv8, a10: bv8, a11: bv8, a12: bv8, a13: bv8, a14: bv8, a15: bv8): bv8 {
    if i & 0x08 == 0 then
      if i & 0x04 == 0 then
        if i & 0x02 == 0 then
          if i & 0x01 == 0 then a0 else a1
        else
          if i & 0x01 == 0 then a2 else a3
      else
        if i & 0x02 == 0 then
          if i & 0x01 == 0 then a4 else a5
        else
          if i & 0x01 == 0 then a6 else a7
    else
      if i & 0x04 == 0 then
        if i & 0x02 == 0 then
          if i & 0x01 == 0 then a8 else a9
        else
          if i & 0x01 == 0 then a10 else a11
      else
        if i & 0x02 == 0 then
          if i & 0x01 == 0 then a12 else a13
        else
          if i & 0x01 == 0 then a14 else a15
  }

  function Crc7Tab(i: bv8): bv8 {
    if i & 0x80 == 0 then
      if i & 0x40 == 0 then
        if i & 0x20 == 0 then
          if i & 0x10 == 0 then
            Pick8(i, 0x00, 0x09, 0x12, 0x1b, 0x24, 0x2d, 0x36, 0x3f,
                   0x48, 0x41, 0x5a, 0x53, 0x6c, 0x65, 0x7e, 0x77)
          else
            Pick8(i, 0x19, 0x10, 0x0b, 0x02, 0x3d, 0x34, 0x2f, 0x26,
                   0x51, 0x58, 0x43, 0x4a, 0x75, 0x7c, 0x67, 0x6e)
        else
          if i & 0x10 == 0 then
            Pick8(i, 0x32, 0x3b, 0x20, 0x29, 0x16, 0x1f, 0x04, 0x0d,
                   0x7a, 0x73, 0x68, 0x61, 0x5e, 0x57, 0x4c, 0x45)
          else
            Pick8(i, 0x2b, 0x22, 0x39, 0x30, 0x0f, 0x06, 0x1d, 0x14,
                   0x63, 0x6a, 0x71, 0x78, 0x47, 0x4e, 0x55, 0x5c)
      else
        if i & 0x20 == 0 then
          if i & 0x10 == 0 then
            Pick8(i, 0x64, 0x6d, 0x76, 0x7f, 0x40, 0x49, 0x52, 0x5b,
                   0x2c, 0x25, 0x3e, 0x37, 0x08, 0x01, 0x1a, 0x13)
          else
            Pick8(i, 0x7d, 0x74, 0x6f, 0x66, 0x59, 0x50, 0x4b, 0x42,
                   0x35, 0x3c, 0x27, 0x2e, 0x11, 0x18, 0x03, 0x0a)
        else
          if i & 0x10 == 0 then
            Pick8(i, 0x56, 0x5f, 0x44, 0x4d, 0x72, 0x7b, 0x60, 0x69,
                   0x1e, 0x17, 0x0c, 0x05, 0x3a, 0x33, 0x28, 0x21)
          else
            Pick8(i, 0x4f, 0x46, 0x5d, 0x54, 0x6b, 0x62, 0x79, 0x70,
                   0x07, 0x0e, 0x15, 0x1c, 0x23, 0x2a, 0x31, 0x38)
    else
      if i & 0x40 == 0 then
        if i & 0x20 == 0 then
          if i & 0x10 == 0 then
            Pick8(i, 0x41, 0x48, 0x53, 0x5a, 0x65, 0x6c, 0x77, 0x7e,
                   0x09, 0x00, 0x1b, 0x12, 0x2d, 0x24, 0x3f, 0x36)
          else
            Pick8(i, 0x58, 0x51, 0x4a, 0x43, 0x7c, 0x75, 0x6e, 0x67,
                   0x10, 0x19, 0x02, 0x0b, 0x34, 0x3d, 0x26, 0x2f)
        else
          if i & 0x10 == 0 then
            Pick8(i, 0x73, 0x7a, 0x61, 0x68, 0x57, 0x5e, 0x45, 0x4c,
                   0x3b, 0x32, 0x29, 0x20, 0x1f, 0x16, 0x0d, 0x04)
          else
            Pick8(i, 0x6a, 0x63, 0x78, 0x71, 0x4e, 0x47, 0x5c, 0x55,
                   0x22, 0x2b, 0x30, 0x39, 0x06, 0x0f, 0x14, 0x1d)
      else
        if i & 0x20 == 0 then
          if i & 0x10 == 0 then
            Pick8(i, 0x25, 0x2c, 0x37, 0x3e, 0x01, 0x08, 0x13, 0x1a,
                   0x6d, 0x64, 0x7f, 0x76, 0x49, 0x40, 0x5b, 0x52)
          else
            Pick8(i, 0x3c, 0x35, 0x2e, 0x27, 0x18, 0x11, 0x0a, 0x03,
                   0x74, 0x7d, 0x66, 0x6f, 0x50, 0x59, 0x42, 0x4b)
        else
          if i & 0x10 == 0 then
            Pick8(i, 0x17, 0x1e, 0x05, 0x0c, 0x33, 0x3a, 0x21, 0x28,
                   0x5f, 0x56, 0x4d, 0x44, 0x7b, 0x72, 0x69, 0x60)
          else
            Pick8(i, 0x0e, 0x07, 0x1c, 0x15, 0x2a, 0x23, 0x38, 0x31,
                   0x46, 0x4f, 0x54, 0x5d, 0x62, 0x6b, 0x70, 0x79)
  }

  // ----- the tables hold the eight-step multiples of their indices -----

  /** Eight shifts of a sum of top coefficients, given the eight shifts of each. */
  lemma PowerOfByte(g: bv16, i: bv8, p: seq<bv16>)
    requires |p| == 8 && forall k: nat :: k < 8 ==> p[k] == TimesXPower(g, FromTop(k), 8)
    ensures TimesXPower(g, Wide(i), 8) == Sum(p, Bits(i))
  {
    hide Add, Term, FromTop, TimesXPower, Wide, Bits;
    PackedByte(i);
    var b := Bits(i);
    assert b[..8] == b;
    PowerOfPacked(g, b, 8, p);
  }

  /** The sum of the values whose bit is set. */
  function Sum(p: seq<bv16>, b: seq<bool>): bv16
    requires |b| <= |p|
  {
    if b == [] then 0 else Add(Sum(p, b[..|b| - 1]), Term(p[|b| - 1], b[|b| - 1]))
  }

  lemma PowerOfTerm(g: bv16, s: bv16, b: bool, n: nat)
    ensures TimesXPower(g, Term(s, b), n) == Term(TimesXPower(g, s, n), b)
  {
    if !b {
      PowerOfZero(g, n);
    }
  }

  lemma {:induction false} PowerOfPacked(g: bv16, b: seq<bool>, n: nat, p: seq<bv16>)
    requires n <= |b| <= 8 == |p| && forall k: nat :: k < 8 ==> p[k] == TimesXPower(g, FromTop(k), 8)
    ensures TimesXPower(g, Packed(b[..n]), 8) == Sum(p, b[..n])
  {
    hide Add, Term, FromTop, TimesXPower;
    if n == 0 {
      PowerOfZero(g, 8);
    } else {
      assert b[..n][..n - 1] == b[..n - 1];
      PowerOfPacked(g, b, n - 1, p);
      TimesXPowerLinear(g, Packed(b[..n - 1]), Term(FromTop(n - 1), b[n - 1]), 8);
      PowerOfTerm(g, FromTop(n - 1), b[n - 1], 8);
    }
  }

  lemma SumOfEight(p: seq<bv16>, b: seq<bool>)
    requires |p| == 8 == |b|
    ensures Sum(p, b) == Add(Add(Add(Add(Add(Add(Add(Term(p[0], b[0]), Term(p[1], b[1])), Term(p[2], b[2])),
                         Term(p[3], b[3])), Term(p[4], b[4])), Term(p[5], b[5])), Term(p[6], b[6])), Term(p[7], b[7]))
  {
    hide Add, Term;
    assert Sum(p, b[..0]) == 0;
    assert b[..1][..0] == b[..0];
    assert Sum(p, b[..1]) == Add(Sum(p, b[..0]), Term(p[0], b[0]));
    assert b[..2][..1] == b[..1];
    assert Sum(p, b[..2]) == Add(Sum(p, b[..1]), Term(p[1], b[1]));
    assert b[..3][..2] == b[..2];
    assert Sum(p, b[..3]) == Add(Sum(p, b[..2]), Term(p[2], b[2]));
    assert b[..4][..3] == b[..3];
    assert Sum(p, b[..4]) == Add(Sum(p, b[..3]), Term(p[3], b[3]));
    assert b[..5][..4] == b[..4];
    assert Sum(p, b[..5]) == Add(Sum(p, b[..4]), Term(p[4], b[4]));
    assert b[..6][..5] == b[..5];
    assert Sum(p, b[..6]) == Add(Sum(p, b[..5]), Term(p[5], b[5]));
    assert b[..7][..6] == b[..6];
    assert Sum(p, b[..7]) == Add(Sum(p, b[..6]), Term(p[6], b[6]));
    assert b[..8][..7] == b[..7];
    assert Sum(p, b[..8]) == Add(Sum(p, b[..7]), Term(p[7], b[7]));
    assert b[..8] == b;
    AddZero(Term(p[0], b[0]));
  }

  /** The coefficient below the top eight has been shifted out after eight steps. */
  lemma LowestPower(g: bv16)
    ensures TimesXPower(g, FromTop(7), 8) == TimesX(g, 0x8000)
  {
    hide TimesX, FromTop;
    UpToTop(g, 7, true);
  }

  /** The eight-step multiple of a coefficient is one step on from that of the one below it. */
  lemma NextPower(g: bv16, k: nat)
    requires k < 15
    ensures TimesXPower(g, FromTop(k), 8) == TimesX(g, TimesXPower(g, FromTop(k + 1), 8))
  {
    hide TimesX, TimesXPower, FromTop;
    OneUp(g, k + 1);
    PowerShift(g, FromTop(k + 1), 8);
  }

  lemma SixteenPowers()
    ensures TimesXPower(G16, 0x8000, 8) == 0x9188
    ensures TimesXPower(G16, 0x4000, 8) == 0x48c4
    ensures TimesXPower(G16, 0x2000, 8) == 0x2462
    ensures TimesXPower(G16, 0x1000, 8) == 0x1231
    ensures TimesXPower(G16, 0x0800, 8) == 0x8108
    ensures TimesXPower(G16, 0x0400, 8) == 0x4084
    ensures TimesXPower(G16, 0x0200, 8) == 0x2042
    ensures TimesXPower(G16, 0x0100, 8) == 0x1021
  {
    hide TimesXPower;
    TopCoefficients();
    LowestPower(G16);
    NextPower(G16, 6);
    NextPower(G16, 5);
    NextPower(G16, 4);
    NextPower(G16, 3);
    NextPower(G16, 2);
    NextPower(G16, 1);
    NextPower(G16, 0);
  }

  lemma SevenPowers()
    ensures TimesXPower(G7, 0x8000, 8) == 0x8200
    ensures TimesXPower(G7, 0x4000, 8) == 0xc800
    ensures TimesXPower(G7, 0x2000, 8) == 0x6400
    ensures TimesXPower(G7, 0x1000, 8) == 0x3200
    ensures TimesXPower(G7, 0x0800, 8) == 0x9000
    ensures TimesXPower(G7, 0x0400, 8) == 0x4800
    ensures TimesXPower(G7, 0x0200, 8) == 0x2400
    ensures TimesXPower(G7, 0x0100, 8) == 0x1200
  {
    hide TimesXPower;
    TopCoefficients();
    LowestPower(G7);
    NextPower(G7, 6);
    NextPower(G7, 5);
    NextPower(G7, 4);
    NextPower(G7, 3);
    NextPower(G7, 2);
    NextPower(G7, 1);
    NextPower(G7, 0);
  }

  lemma Half16At0(i: bv8)
    requires i >> 7 == 0
    ensures Crc16Tab(i)
            == Add(Add(Add(Add(Add(Add(Add(Term(0x9188, Bits(i)[0]), Term(0x48c4, Bits(i)[1])),
            Term(0x2462, Bits(i)[2])), Term(0x1231, Bits(i)[3])),
            Term(0x8108, Bits(i)[4])), Term(0x4084, Bits(i)[5])), Term(0x2042, Bits(i)[6])), Term(0x1021, Bits(i)[7]))
  {
  }

  lemma Half16At1(i: bv8)
    requires i >> 7 == 1
    ensures Crc16Tab(i)
            == Add(Add(Add(Add(Add(Add(Add(Term(0x9188, Bits(i)[0]), Term(0x48c4, Bits(i)[1])),
            Term(0x2462, Bits(i)[2])), Term(0x1231, Bits(i)[3])),
            Term(0x8108, Bits(i)[4])), Term(0x4084, Bits(i)[5])), Term(0x2042, Bits(i)[6])), Term(0x1021, Bits(i)[7]))
  {
  }

  lemma Half7At0(i: bv8)
    requires i >> 7 == 0
    ensures Crc7Tab(i) < 0x80
    ensures (Crc7Tab(i) as bv16) << 9
            == Add(Add(Add(Add(Add(Add(Add(Term(0x8200, Bits(i)[0]), Term(0xc800, Bits(i)[1])),
            Term(0x6400, Bits(i)[2])), Term(0x3200, Bits(i)[3])),
            Term(0x9000, Bits(i)[4])), Term(0x4800, Bits(i)[5])), Term(0x2400, Bits(i)[6])), Term(0x1200, Bits(i)[7]))
  {
  }

  lemma Half7At1(i: bv8)
    requires i >> 7 == 1
    ensures Crc7Tab(i) < 0x80
    ensures (Crc7Tab(i) as bv16) << 9
            == Add(Add(Add(Add(Add(Add(Add(Term(0x8200, Bits(i)[0]), Term(0xc800, Bits(i)[1])),
            Term(0x6400, Bits(i)[2])), Term(0x3200, Bits(i)[3])),
            Term(0x9000, Bits(i)[4])), Term(0x4800, Bits(i)[5])), Term(0x2400, Bits(i)[6])), Term(0x1200, Bits(i)[7]))
  {
  }

  function Sixteens(): (p: seq<bv16>)
    ensures |p| == 8
  {
    [0x9188, 0x48c4, 0x2462, 0x1231, 0x8108, 0x4084, 0x2042, 0x1021]
  }

  function Sevens(): (p: seq<bv16>)
    ensures |p| == 8
  {
    [0x8200, 0xc800, 0x6400, 0x3200, 0x9000, 0x4800, 0x2400, 0x1200]
  }

  /** Each entry of the CRC16 table is its index, in the top coefficients, times x^8. */
  lemma Entry16(i: bv8)
    ensures TimesXPower(G16, Wide(i), 8) == Crc16Tab(i)
  {
    hide Add, Term, Bits, Wide, TimesXPower, Crc16Tab;
    var p, b := Sixteens(), Bits(i);
    TopCoefficients();
    SixteenPowers();
    PowerOfByte(G16, i, p);
    SumOfEight(p, b);
    if i >> 7 == 0 {
      Half16At0(i);
    } else {
      Half16At1(i);
    }
  }

  lemma TopCoefficients()
    ensures FromTop(0) == 0x8000
    ensures FromTop(1) == 0x4000
    ensures FromTop(2) == 0x2000
    ensures FromTop(3) == 0x1000
    ensures FromTop(4) == 0x0800
    ensures FromTop(5) == 0x0400
    ensures FromTop(6) == 0x0200
    ensures FromTop(7) == 0x0100
  {
  }

  lemma Entry7(i: bv8)
    ensures TimesXPower(G7, Wide(i), 8) == (Crc7Tab(i) as bv16) << 9
  {
    hide Add, Term, Bits, Wide, TimesXPower, Crc7Tab;
    var p, b := Sevens(), Bits(i);
    TopCoefficients();
    SevenPowers();
    PowerOfByte(G7, i, p);
    SumOfEight(p, b);
    if i >> 7 == 0 {
      Half7At0(i);
    } else {
      Half7At1(i);
    }
  }

  /** Every entry of the CRC7 table is a seven-bit value, so that twice a checksum is always a table index. */
  lemma SevenBits(i: bv8)
    ensures Crc7Tab(i) < 0x80
  {
    hide Crc7Tab;
    if i >> 7 == 0 {
      Half7At0(i);
    } else {
      Half7At1(i);
    }
  }

  // ----- one byte of the loops -----

  lemma TimesXLow(g: bv16, s: bv16)
    requires !Top(s)
    ensures TimesX(g, s) == Shl(s)
  {
    AddZero(Shl(s));
  }

  lemma LowPower(g: bv16, s: bv16)
    requires s & 0xFF00 == 0
    ensures TimesXPower(g, s, 8) == s << 8
  {
    hide TimesX, Add;
    TimesXLow(g, s);
    TimesXLow(g, s << 1);
    TimesXLow(g, s << 2);
    TimesXLow(g, s << 3);
    TimesXLow(g, s << 4);
    TimesXLow(g, s << 5);
    TimesXLow(g, s << 6);
    TimesXLow(g, s << 7);
    assert TimesXPower(g, s, 1) == s << 1;
    assert TimesXPower(g, s, 2) == s << 2;
    assert TimesXPower(g, s, 3) == s << 3;
    assert TimesXPower(g, s, 4) == s << 4;
    assert TimesXPower(g, s, 5) == s << 5;
    assert TimesXPower(g, s, 6) == s << 6;
    assert TimesXPower(g, s, 7) == s << 7;
  }

  function HighByte(crc: bv16): bv8 { (crc >> 8) as bv8 }

  function LowByte(crc: bv16): bv8 { (crc & 0x00FF) as bv8 }

  function Low(crc: bv16): bv16 { crc & 0x00FF }

  function Up(crc: bv16): bv16 { crc << 8 }

  lemma UpOfLow(crc: bv16)
    ensures Low(crc) & 0xFF00 == 0 && Low(crc) << 8 == Up(crc)
  {
  }

  lemma JoinBytes(crc: bv16)
    ensures Add(Low(crc), Wide(HighByte(crc))) == crc
  {
  }

  lemma WideAdd(a: bv8, b: bv8)
    ensures Wide(a ^ b) == Add(Wide(a), Wide(b))
  {
  }

  /** One pass of the crc16 loop is eight steps of the shift register. */
  lemma Step16(crc: bv16, d: bv8)
    ensures Run(G16, crc, Bits(d)) == Add(Up(crc), Crc16Tab(HighByte(crc) ^ d))
  {
    hide Add, Bits, Wide, TimesXPower, Crc16Tab, HighByte, Low, Up, Run;
    RunPacked(G16, crc, Bits(d));
    PackedByte(d);
    var hi, lo := HighByte(crc), Low(crc);
    JoinBytes(crc);
    AddAssociates(lo, Wide(hi), Wide(d));
    WideAdd(hi, d);
    TimesXPowerLinear(G16, lo, Wide(hi ^ d), 8);
    UpOfLow(crc);
    LowPower(G16, lo);
    Entry16(hi ^ d);
  }

  /** A seven-bit checksum in the top of the register. */
  function Left(crc: bv8): bv16 { (crc as bv16) << 9 }

  lemma LeftIndex(crc: bv8, d: bv8)
    requires crc < 0x80
    ensures Add(Left(crc), Wide(d)) == Wide((crc << 1) ^ d)
  {
  }

  lemma LeftInjective(a: bv8, b: bv8)
    requires a < 0x80 && b < 0x80 && Left(a) == Left(b)
    ensures a == b
  {
  }

  /** One pass of the crc7 loop is eight steps of the shift register. */
  lemma Step7(crc: bv8, d: bv8)
    requires crc < 0x80
    ensures Run(G7, Left(crc), Bits(d)) == Left(Crc7Tab((crc << 1) ^ d))
  {
    hide Add, Bits, Wide, TimesXPower, Crc7Tab;
    RunPacked(G7, Left(crc), Bits(d));
    PackedByte(d);
    LeftIndex(crc, d);
    Entry7((crc << 1) ^ d);
  }

  // ----- the checksums -----

  lemma NoBytes(g: bv16, s: bv16, bytes: seq<bv8>)
    requires |bytes| == 0
    ensures Run(g, s, BitsOf(bytes)) == s
  {
  }

  lemma OneMoreByte(g: bv16, s: bv16, bytes: seq<bv8>)
    requires |bytes| > 0
    ensures Run(g, s, BitsOf(bytes)) == Run(g, Run(g, s, BitsOf(bytes[..|bytes| - 1])), Bits(bytes[|bytes| - 1]))
  {
    hide Run, Bits;
    RunAppend(g, s, BitsOf(bytes[..|bytes| - 1]), Bits(bytes[|bytes| - 1]));
  }

  /** The checksum of a data block: the register after all its bits, from zero. */
  function Checksum16(bytes: seq<bv8>): bv16 {
    Run(G16, 0, BitsOf(bytes))
  }

  method Crc16(buffer: array<bv8>, len: nat) returns (crc: bv16)
    requires len <= buffer.Length
    ensures crc == Checksum16(buffer[..len])
  {
    hide Run, Bits, Crc16Tab, BitsOf, Add, Up, HighByte;
    crc := 0;
    NoBytes(G16, 0, buffer[..0]);
    for counter := 0 to len
      invariant crc == Run(G16, 0, BitsOf(buffer[..counter]))
    {
      Step16(crc, buffer[counter]);
      assert buffer[..counter + 1][..counter] == buffer[..counter];
      OneMoreByte(G16, 0, buffer[..counter + 1]);
      crc := Add(Up(crc), Crc16Tab(HighByte(crc) ^ buffer[counter]));
    }
  }

  method Crc7Byte(crc: bv8, data: bv8) returns (r: bv8)
    requires crc < 0x80
    ensures r < 0x80 && Left(r) == Run(G7, Left(crc), Bits(data))
  {
    hide Run, Bits, Crc7Tab;
    Step7(crc, data);
    SevenBits((crc << 1) ^ data);
    r := Crc7Tab((crc << 1) ^ data);
  }

  /** The checksum of a command or response: the top seven bits of the register, from zero. */
  function Checksum7(bytes: seq<bv8>): bv8 {
    (Run(G7, 0, BitsOf(bytes)) >> 9) as bv8
  }

  /** The rest of the register stays clear, so that the checksum is all of it. */
  lemma {:induction false} SevenFits(bytes: seq<bv8>)
    ensures Checksum7(bytes) < 0x80 && Left(Checksum7(bytes)) == Run(G7, 0, BitsOf(bytes))
  {
    hide Run, Bits, Crc7Tab;
    if bytes == [] {
      NoBytes(G7, 0, bytes);
      LeftAndBack(0);
    } else {
      var front, d := bytes[..|bytes| - 1], bytes[|bytes| - 1];
      SevenFits(front);
      OneMoreByte(G7, 0, bytes);
      Step7(Checksum7(front), d);
      SevenBits((Checksum7(front) << 1) ^ d);
      LeftAndBack(Crc7Tab((Checksum7(front) << 1) ^ d));
    }
  }

  lemma LeftAndBack(crc: bv8)
    requires crc < 0x80
    ensures (Left(crc) >> 9) as bv8 == crc
  {
  }

  /** Continues a checksum over len bytes: the register goes on from where `crc` left it. */
  method Crc7(crc: bv8, buffer: array<bv8>, start: nat, len: nat) returns (r: bv8)
    requires crc < 0x80 && start + len <= buffer.Length
    ensures r < 0x80 && Left(r) == Run(G7, Left(crc), BitsOf(buffer[start..start + len]))
    ensures crc == 0 ==> r == Checksum7(buffer[start..start + len])
  {
    hide Run, Bits, BitsOf, Checksum7;
    r := crc;
    NoBytes(G7, Left(crc), buffer[start..start]);
    for k := 0 to len
      invariant r < 0x80 && Left(r) == Run(G7, Left(crc), BitsOf(buffer[start..start + k]))
    {
      assert buffer[start..start + k + 1][..k] == buffer[start..start + k];
      OneMoreByte(G7, Left(crc), buffer[start..start + k + 1]);
      r := Crc7Byte(r, buffer[start + k]);
    }
    if crc == 0 {
      SevenFits(buffer[start..start + len]);
      LeftInjective(r, Checksum7(buffer[start..start + len]));
    }
  }

  /** A checksum resumed on a second block is the checksum of the two blocks together. */
  lemma Composes(g: bv16, s: bv16, a: seq<bv8>, b: seq<bv8>)
    ensures Run(g, s, BitsOf(a + b)) == Run(g, Run(g, s, BitsOf(a)), BitsOf(b))
  {
    hide Run, BitsOf;
    BitsOfAppend(a, b);
    RunAppend(g, s, BitsOf(a), BitsOf(b));
  }

  /** crc16 is the remainder of the block, followed by sixteen zeros, by x^16 + x^12 + x^5 + 1. */
  lemma Checksum16IsRemainder(bytes: seq<bv8>)
    ensures Checksum16(bytes) == Remainder(G16, 0x0001, BitsOf(bytes) + Zeros(16))
  {
    hide Run, BitsOf, Remainder;
    Degree16();
    RegisterIsRemainder(G16, 0x0001, 16, BitsOf(bytes));
  }

  /** crc7 from zero is the remainder of the block, followed by seven zeros, by x^7 + x^3 + 1. */
  lemma Checksum7IsRemainder(bytes: seq<bv8>)
    ensures Checksum7(bytes) < 0x80
    ensures Left(Checksum7(bytes)) == Remainder(G7, 0x0200, BitsOf(bytes) + Zeros(7))
  {
    hide Run, BitsOf, Remainder, Checksum7;
    Degree7();
    RegisterIsRemainder(G7, 0x0200, 7, BitsOf(bytes));
    SevenFits(bytes);
  }

  /** The block times x^16 is a multiple of x^16 + x^12 + x^5 + 1 plus the sixteen coefficients of its crc16. */
  lemma Checksum16Divides(bytes: seq<bv8>)
    ensures var padded := BitsOf(bytes) + Zeros(16);
            Zeros(16) + padded
            == Xor(Product(Quotient(G16, 0x0001, padded), Divisor(G16, 16)),
                   Zeros(|padded|) + Coefficients(Checksum16(bytes), 16))
  {
    hide BitsOf, Remainder, Quotient, Product, Divisor, Xor, Coefficients, Checksum16;
    Checksum16IsRemainder(bytes);
    Places16();
    Division(G16, 0x0001, 16, BitsOf(bytes) + Zeros(16));
  }

  /** The block times x^7 is a multiple of x^7 + x^3 + 1 plus the seven coefficients of its crc7. */
  lemma Checksum7Divides(bytes: seq<bv8>)
    ensures var padded := BitsOf(bytes) + Zeros(7);
            Zeros(7) + padded
            == Xor(Product(Quotient(G7, 0x0200, padded), Divisor(G7, 7)),
                   Zeros(|padded|) + Coefficients(Left(Checksum7(bytes)), 7))
  {
    hide BitsOf, Remainder, Quotient, Product, Divisor, Xor, Coefficients, Checksum7, Left;
    Checksum7IsRemainder(bytes);
    Places7();
    Division(G7, 0x0200, 7, BitsOf(bytes) + Zeros(7));
  }

  // ----- burst errors -----

  function Bits16(crc: bv16): (s: seq<bool>)
    ensures |s| == 16
  {
    Bits(HighByte(crc)) + Bits(LowByte(crc))
  }

  lemma KernelOfX(s: bv16)
    requires TimesX(G16, s) == 0
    ensures s == 0
  {
  }

  lemma {:induction false} KernelOfPower(s: bv16, n: nat)
    requires TimesXPower(G16, s, n) == 0
    ensures s == 0
  {
    hide TimesX;
    if n > 0 {
      KernelOfX(TimesXPower(G16, s, n - 1));
      KernelOfPower(s, n - 1);
    }
  }

  lemma Halves(s: bv16, c: bv16)
    ensures Run(G16, s, Bits16(c)) == TimesXPower(G16, Add(s, c), 16)
  {
    hide Add, Bits, Wide, TimesXPower, Run, HighByte, LowByte, Low, Up;
    var hi, lo := HighByte(c), Low(c);
    RunAppend(G16, s, Bits(hi), Bits(LowByte(c)));
    RunPacked(G16, s, Bits(hi));
    PackedByte(hi);
    RunPacked(G16, Run(G16, s, Bits(hi)), Bits(LowByte(c)));
    PackedByte(LowByte(c));
    UpOfLow(c);
    LowPower(G16, lo);
    WideOfLow(c);
    TimesXPowerLinear(G16, Add(s, Wide(hi)), lo, 8);
    TimesXPowerAdd(G16, Add(Add(s, Wide(hi)), lo), 8, 8);
    AddAssociates(s, Wide(hi), lo);
    AddCommutes(Wide(hi), lo);
    JoinBytes(c);
  }

  lemma WideOfLow(c: bv16)
    ensures Wide(LowByte(c)) == Up(c)
  {
  }

  /** A checksum field matches exactly when the register, fed the block and the field, ends at zero. */
  lemma FieldMatches(bits: seq<bool>, c: bv16)
    ensures Run(G16, 0, bits + Bits16(c)) == 0 <==> c == Run(G16, 0, bits)
  {
    hide Run, Bits16, TimesXPower, Add;
    var s := Run(G16, 0, bits);
    RunAppend(G16, 0, bits, Bits16(c));
    Halves(s, c);
    AddSelf(s, c);
    if TimesXPower(G16, Add(s, c), 16) == 0 {
      KernelOfPower(Add(s, c), 16);
    }
    PowerOfZero(G16, 16);
  }

  lemma TopOfCoefficient(n: nat, b: bool)
    requires n < 16
    ensures Top(Term(FromTop(n), b)) <==> n == 0 && b
  {
  }

  lemma {:induction false} TopOfPacked(bits: seq<bool>)
    requires 0 < |bits| <= 16
    ensures Top(Packed(bits)) == bits[0]
  {
    hide Top, Term, Add, FromTop;
    var n := |bits| - 1;
    TopAdd(Packed(bits[..n]), Term(FromTop(n), bits[n]));
    TopOfCoefficient(n, bits[n]);
    if n == 0 {
      AddZero(Term(FromTop(0), bits[0]));
    } else {
      TopOfPacked(bits[..n]);
    }
  }

  /** Some bits are wrong, and from the first to the last of them are at most sixteen bits. */
  ghost predicate Burst(e: seq<bool>) {
    exists i :: 0 <= i < |e| && BurstAt(e, i)
  }

  ghost predicate BurstAt(e: seq<bool>, i: nat)
    requires i < |e|
  {
    e[i] && forall k :: 0 <= k < |e| && (k < i || i + 16 <= k) ==> !e[k]
  }

  lemma BurstLeavesTrace(e: seq<bool>)
    requires Burst(e)
    ensures Run(G16, 0, e) != 0
  {
    hide Run, TimesXPower, Add;
    var i: nat :| i < |e| && BurstAt(e, i);
    var m := if i + 16 <= |e| then i + 16 else |e|;
    var burst := e[i..m];
    assert e == (Zeros(i) + burst) + Zeros(|e| - m);
    RunAppend(G16, 0, Zeros(i) + burst, Zeros(|e| - m));
    RunAppend(G16, 0, Zeros(i), burst);
    RunZeros(G16, 0, i);
    PowerOfZero(G16, i);
    RunPacked(G16, 0, burst);
    AddZero(Packed(burst));
    TopOfPacked(burst);
    var r := Run(G16, 0, burst);
    RunZeros(G16, r, |e| - m);
    if Run(G16, 0, e) == 0 {
      KernelOfPower(r, |e| - m);
      KernelOfPower(Packed(burst), |burst|);
      assert false;
    }
  }

  /** Whatever a burst of at most sixteen bits does to a block and its checksum field, they no longer match. */
  lemma BurstDetected(sent: seq<bool>, got: seq<bool>, c: bv16, e: seq<bool>)
    requires |e| == |sent| + 16 && Burst(e)
    requires got + Bits16(c) == Xor(sent + Bits16(Run(G16, 0, sent)), e)
    ensures c != Run(G16, 0, got)
  {
    hide Run, Bits16, Xor, Add;
    var field := sent + Bits16(Run(G16, 0, sent));
    FieldMatches(sent, Run(G16, 0, sent));
    FieldMatches(got, c);
    RunLinear(G16, 0, 0, field, e);
    AddZero(0);
    AddZero(Run(G16, 0, e));
    BurstLeavesTrace(e);
  }
}
