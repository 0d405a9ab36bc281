/** Fixed-width unsigned arithmetic and little-endian fields, as the C code sees them. */
module Words {
  type byte = x: int | 0 <= x < 256

  const TWO16: int := 0x1_0000
  const TWO32: int := 0x1_0000_0000

  /** The value an `alt_u32` holds after being assigned x. */
  function U32(x: int): (r: nat)
    ensures r < TWO32
    ensures 0 <= x < TWO32 ==> r == x
  {
    x % 0x1_0000_0000
  }

  /** The value an unsigned 16-bit variable holds after being assigned x. */
  function U16(x: int): (r: nat)
    ensures r < TWO16
    ensures 0 <= x < TWO16 ==> r == x
  {
    x % 0x1_0000
  }

  /** The value a 16-bit `short` holds after being assigned x. */
  function I16(x: int): (r: int)
    ensures -0x8000 <= r < 0x8000
    ensures U16(r) == U16(x)
  {
    (x + 0x8000) % 0x1_0000 - 0x8000
  }

  /** Reducing an operand first changes nothing. */
  lemma U32Difference(a: int, b: int)
    ensures U32(a - U32(b)) == U32(a - b)
  {
    var q := b / 0x1_0000_0000;
    assert a - U32(b) == a - b + q * 0x1_0000_0000;
  }

  /** The value a 32-bit `int` holds after being assigned x. */
  function I32(x: int): (r: int)
    ensures -0x8000_0000 <= r < 0x8000_0000
    ensures -0x8000_0000 <= x < 0x8000_0000 ==> r == x
  {
    (x + 0x8000_0000) % 0x1_0000_0000 - 0x8000_0000
  }

  /** Adding a multiple of 2^32 changes nothing. */
  lemma WholeTurns(x: int, q: int)
    ensures U32(x + q * 0x1_0000_0000) == U32(x) && I32(x + q * 0x1_0000_0000) == I32(x)
  {
    SameRest(x, q);
    SameRest(x + 0x8000_0000, q);
  }

  lemma SameRest(x: int, q: int)
    ensures (x + q * 0x1_0000_0000) % 0x1_0000_0000 == x % 0x1_0000_0000
  {
    var d, r := x / 0x1_0000_0000, x % 0x1_0000_0000;
    assert x + q * 0x1_0000_0000 == (d + q) * 0x1_0000_0000 + r;
  }

  /** Adding a multiple of 2^16 changes nothing in sixteen bits. */
  lemma WholeTurns16(x: int, q: int)
    ensures U16(x + q * 0x1_0000) == U16(x) && I16(x + q * 0x1_0000) == I16(x)
    ensures -0x8000 <= x < 0x8000 ==> I16(x) == x
  {
    SameRest16(x, q);
    SameRest16(x + 0x8000, q);
  }

  lemma SameRest16(x: int, q: int)
    ensures (x + q * 0x1_0000) % 0x1_0000 == x % 0x1_0000
  {
    var d, r := x / 0x1_0000, x % 0x1_0000;
    assert x + q * 0x1_0000 == (d + q) * 0x1_0000 + r;
  }

  /** How many whole turns a reduction took off. */
  lemma Turns(x: int) returns (q: int)
    ensures U32(x) == x + q * 0x1_0000_0000
  {
    q := -(x / 0x1_0000_0000);
  }

  lemma SignedTurns(x: int) returns (q: int)
    ensures I32(x) == x + q * 0x1_0000_0000
  {
    q := -((x + 0x8000_0000) / 0x1_0000_0000);
  }

  /** Reducing an operand first changes nothing. */
  lemma I32Sum(a: int, b: int)
    ensures I32(a + U32(b)) == I32(a + b) && I32(a + I32(b)) == I32(a + b)
  {
    hide U32, I32;
    var q := Turns(b);
    WholeTurns(a + b, q);
    var t := SignedTurns(b);
    WholeTurns(a + b, t);
  }

  /** Little-endian 16-bit field at offset i. */
  function Le16(s: seq<byte>, i: nat): (r: nat)
    requires i + 2 <= |s|
    ensures r < TWO16
  {
    var lo: int, hi: int := s[i], s[i + 1];
    lo + 256 * hi
  }

  /** Little-endian 32-bit field at offset i. */
  function Le32(s: seq<byte>, i: nat): (r: nat)
    requires i + 4 <= |s|
    ensures r < TWO32
  {
    Le16(s, i) + TWO16 * Le16(s, i + 2)
  }

  /** A 16-bit word as two bytes, the low one first. */
  function LowFirst(v: nat): (s: seq<byte>)
    requires v < 0x1_0000
    ensures |s| == 2
  {
    [v % 256, v / 256]
  }

  /** A 16-bit word written low byte first is read back. */
  lemma Written16(s: seq<byte>, i: nat, v: nat)
    requires i + 2 <= |s| && v < 0x1_0000 && s[i] == v % 256 && s[i + 1] == v / 256
    ensures Le16(s, i) == v
  {
  }

  /** A 32-bit word written low byte first is read back. */
  lemma Written32(s: seq<byte>, i: nat, v: nat)
    requires i + 4 <= |s| && v < 0x1_0000_0000
    requires s[i] == v % 256 && s[i + 1] == v / 256 % 256
    requires s[i + 2] == v / 0x1_0000 % 256 && s[i + 3] == v / 0x100_0000
    ensures Le32(s, i) == v
  {
    Halves(v);
    Written16(s, i, v % 0x1_0000);
    Written16(s, i + 2, v / 0x1_0000);
  }

  lemma Split256(n: nat, q: nat, r: nat)
    requires n == 256 * q + r && r < 256
    ensures n / 256 == q && n % 256 == r
  {
  }

  lemma Split64K(n: nat, q: nat, r: nat)
    requires n == 0x1_0000 * q + r && r < 0x1_0000
    ensures n / 0x1_0000 == q && n % 0x1_0000 == r
  {
  }

  lemma Split16M(n: nat, q: nat, r: nat)
    requires n == 0x100_0000 * q + r && r < 0x100_0000
    ensures n / 0x100_0000 == q
  {
  }

  /** The four bytes of a word, the lowest first. */
  lemma FourBytes(v: nat, a: nat, b: nat, c: nat, d: nat)
    requires a < 256 && b < 256 && c < 256 && v == a + 256 * b + 0x1_0000 * c + 0x100_0000 * d
    ensures v % 256 == a && v / 256 % 256 == b && v / 0x1_0000 % 256 == c && v / 0x100_0000 == d
    ensures v % 0x1_0000 == a + 256 * b && v / 0x1_0000 == c + 256 * d
    ensures v % 0x1_0000 % 256 == a && v % 0x1_0000 / 256 == b && v / 0x1_0000 / 256 == d
  {
    Split256(v, b + 256 * c + 0x1_0000 * d, a);
    Split256(b + 256 * c + 0x1_0000 * d, c + 256 * d, b);
    Split64K(v, c + 256 * d, a + 256 * b);
    Split256(c + 256 * d, d, c);
    Split256(a + 256 * b, b, a);
    Split16M(v, d, a + 256 * b + 0x1_0000 * c);
  }

  lemma BytesExist(v: nat) returns (a: nat, b: nat, c: nat, d: nat)
    ensures a < 256 && b < 256 && c < 256 && v == a + 256 * b + 0x1_0000 * c + 0x100_0000 * d
  {
    a := v % 256;
    b := v / 256 % 256;
    c := v / 256 / 256 % 256;
    d := v / 256 / 256 / 256;
  }

  /** The bytes of a 32-bit word are those of its halves. */
  lemma Halves(v: nat)
    ensures v % 0x1_0000 % 256 == v % 256 && v % 0x1_0000 / 256 == v / 256 % 256
    ensures v / 0x1_0000 / 256 == v / 0x100_0000 && v / 0x1_0000 % 256 + 256 * (v / 0x100_0000) == v / 0x1_0000
  {
    var a, b, c, d := BytesExist(v);
    FourBytes(v, a, b, c, d);
  }

  /** C's memcpy between two different buffers. */
  method Memcpy(dst: array<byte>, at: nat, src: array<byte>, from: nat, count: nat)
    requires dst != src && at + count <= dst.Length && from + count <= src.Length
    modifies dst
    ensures dst[at..at + count] == src[from..from + count]
    ensures forall k :: 0 <= k < dst.Length && !(at <= k < at + count) ==> dst[k] == old(dst[k])
  {
    forall i | 0 <= i < count { dst[at + i] := src[from + i]; }
  }
}
