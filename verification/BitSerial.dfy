/** Bytes as bits, most significant first, and bits shifted in and out one at a time. */
module BitSerial {

  /** The bits of a byte, most significant first. */
  function Bits(d: bv8): (s: seq<bool>)
    ensures |s| == 8
  {
    [d & 0x80 != 0, d & 0x40 != 0, d & 0x20 != 0, d & 0x10 != 0, d & 0x08 != 0, d & 0x04 != 0, d & 0x02 != 0, d & 0x01 != 0]
  }

  function BitsOf(bytes: seq<bv8>): (s: seq<bool>)
    ensures |s| == 8 * |bytes|
  {
    if bytes == [] then [] else BitsOf(bytes[..|bytes| - 1]) + Bits(bytes[|bytes| - 1])
  }

  function Zeros(n: nat): (s: seq<bool>)
    ensures |s| == n
  {
    seq(n, _ => false)
  }

  /** Bit by bit exclusive or. */
  function Xor(a: seq<bool>, b: seq<bool>): (s: seq<bool>)
    requires |a| == |b|
    ensures |s| == |a|
  {
    seq(|a|, i requires 0 <= i < |a| => a[i] != b[i])
  }

  lemma {:induction false} BitsOfAppend(a: seq<bv8>, b: seq<bv8>)
    ensures BitsOf(a + b) == BitsOf(a) + BitsOf(b)
  {
    hide Bits;
    if b == [] {
      assert a + b == a;
    } else {
      BitsOfAppend(a, b[..|b| - 1]);
      assert (a + b)[..|a + b| - 1] == a + b[..|b| - 1];
    }
  }

  lemma BitsInjective(a: bv8, b: bv8)
    requires Bits(a) == Bits(b)
    ensures a == b
  {
    assert forall k: nat :: k < 8 ==> Bits(a)[k] == Bits(b)[k];
  }

  lemma SameTails<T>(p: seq<T>, x: seq<T>, q: seq<T>, y: seq<T>)
    requires |x| == |y| && p + x == q + y
    ensures p == q && x == y
  {
    var s, t := p + x, q + y;
    assert |s| == |p| + |x| && |t| == |q| + |y|;
    assert p == s[..|p|] && q == t[..|q|];
    assert x == s[|p|..] && y == t[|q|..];
  }

  lemma {:induction false} BitsOfInjective(a: seq<bv8>, b: seq<bv8>)
    requires BitsOf(a) == BitsOf(b)
    ensures a == b
  {
    hide Bits;
    assert |a| == |b|;
    if a != [] {
      var n := |a| - 1;
      SameTails(BitsOf(a[..n]), Bits(a[n]), BitsOf(b[..n]), Bits(b[n]));
      BitsOfInjective(a[..n], b[..n]);
      BitsInjective(a[n], b[n]);
      assert a == a[..n] + [a[n]];
      assert b == b[..n] + [b[n]];
    }
  }

  lemma OneMoreOfBits(bytes: seq<bv8>, d: bv8, whole: seq<bv8>)
    requires whole == bytes + [d]
    ensures BitsOf(whole) == BitsOf(bytes) + Bits(d)
  {
    hide Bits;
    assert whole[..|whole| - 1] == bytes;
  }

  lemma NoBitsOf(none: seq<bv8>)
    requires none == []
    ensures BitsOf(none) == []
  {
  }

  function MaskAt(k: nat): bv8
    requires k <= 8
  {
    match k
    case 0 => 0x80
    case 1 => 0x40
    case 2 => 0x20
    case 3 => 0x10
    case 4 => 0x08
    case 5 => 0x04
    case 6 => 0x02
    case 7 => 0x01
    case _ => 0x00
  }

  lemma FirstMask()
    ensures MaskAt(0) == 0x80
  {
  }

  lemma MaskBit(d: bv8, k: nat)
    requires k < 8
    ensures Bits(d)[k] == (d & MaskAt(k) != 0)
    ensures MaskAt(k) >> 1 == MaskAt(k + 1)
  {
  }

  /** Bit j of byte i of a block stands at 8 * i + j, the most significant one first. */
  lemma {:induction false} BitOfByte(bytes: seq<bv8>, i: nat, j: nat)
    requires i < |bytes| && j < 8
    ensures BitsOf(bytes)[8 * i + j] == (bytes[i] & ((0x80 as bv8) >> j) != 0)
  {
    hide Bits, MaskAt;
    var n := |bytes| - 1;
    if i < n {
      BitOfByte(bytes[..n], i, j);
    } else {
      MaskBit(bytes[i], j);
      MaskIsShift(j);
    }
  }

  lemma MaskIsShift(j: nat)
    requires j < 8
    ensures MaskAt(j) == (0x80 as bv8) >> j
  {
  }

  function Push8(v: bv8, b: bool): bv8 { (v << 1) | (if b then 1 else 0) }

  function In8(s: seq<bool>): bv8 {
    if s == [] then 0 else Push8(In8(s[..|s| - 1]), s[|s| - 1])
  }

  lemma PushBits8(v: bv8, b: bool)
    ensures Bits(Push8(v, b)) == Bits(v)[1..] + [b]
  {
  }

  lemma ShiftedZeros(m: nat, front: seq<bool>, b: bool)
    ensures (Zeros(m + 1) + front)[1..] + [b] == Zeros(m) + (front + [b])
  {
  }

  lemma Clear8()
    ensures Bits(0) == Zeros(8)
  {
  }

  lemma {:induction false} In8Bits(s: seq<bool>)
    requires |s| <= 8
    ensures Bits(In8(s)) == Zeros(8 - |s|) + s
  {
    hide Bits, Push8, Zeros;
    if s == [] {
      Clear8();
    } else {
      var front, b := s[..|s| - 1], s[|s| - 1];
      In8Bits(front);
      PushBits8(In8(front), b);
      ShiftedZeros(8 - |s|, front, b);
      assert s == front + [b];
    }
  }

  /** The bits left to send are those of the register that is shifted up. */
  lemma ShiftBits8(v: bv8)
    ensures Bits(v << 1) == Bits(v)[1..] + [false]
    ensures Bits(v)[0] == (v & 0x80 != 0)
  {
    PushBits8(v, false);
    assert Push8(v, false) == v << 1;
  }

  function Samples(line: nat -> bool, t: nat, n: nat): (s: seq<bool>)
    ensures |s| == n
  {
    seq(n, k requires 0 <= k < n => line(t + k))
  }

  lemma OneMoreSample(line: nat -> bool, t: nat, n: nat)
    ensures Samples(line, t, n + 1) == Samples(line, t, n) + [line(t + n)]
    ensures Samples(line, t, n + 1)[..n] == Samples(line, t, n)
  {
  }

  lemma JoinSamples(line: nat -> bool, t: nat, m: nat, n: nat)
    ensures Samples(line, t, m + n) == Samples(line, t, m) + Samples(line, t + m, n)
  {
  }

  lemma In8Step(line: nat -> bool, s: nat, j: nat)
    ensures In8(Samples(line, s, j + 1)) == Push8(In8(Samples(line, s, j)), line(s + j))
  {
    hide Samples, Push8;
    OneMoreSample(line, s, j);
  }
}
