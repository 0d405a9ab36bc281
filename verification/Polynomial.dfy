/** Division of bit sequences by a generator polynomial, and the shift register that computes it. */
module Polynomial {
  import opened BitSerial

  // ----- a register of sixteen coefficients, the highest in the top bit -----
  // A checksum of fewer bits stands at the top of the register. The generator g lacks its leading term:
  // 0x1021 for x^16 + x^12 + x^5 + 1, and 0x1200 for x^7 + x^3 + 1, nine places up.

  const G16: bv16 := 0x1021
  const G7: bv16 := 0x1200

  function Add(s: bv16, t: bv16): bv16 { s ^ t }

  function Shl(s: bv16): bv16 { s << 1 }

  function Top(s: bv16): bool { s & 0x8000 != 0 }

  function Term(p: bv16, b: bool): bv16 { if b then p else 0 }

  /** Multiply by x modulo the generator. */
  function TimesX(g: bv16, s: bv16): bv16 {
    Add(Shl(s), Term(g, Top(s)))
  }

  function TimesXPower(g: bv16, s: bv16, n: nat): bv16 {
    if n == 0 then s else TimesX(g, TimesXPower(g, s, n - 1))
  }

  lemma AddCommutes(a: bv16, b: bv16)
    ensures Add(a, b) == Add(b, a)
  {
  }

  lemma AddAssociates(a: bv16, b: bv16, c: bv16)
    ensures Add(Add(a, b), c) == Add(a, Add(b, c))
  {
  }

  lemma AddSwap(a: bv16, b: bv16, c: bv16, d: bv16)
    ensures Add(Add(a, b), Add(c, d)) == Add(Add(a, c), Add(b, d))
  {
    hide Add;
    AddAssociates(Add(a, b), c, d);
    AddAssociates(a, b, c);
    AddCommutes(b, c);
    AddAssociates(a, c, b);
    AddAssociates(Add(a, c), b, d);
  }

  lemma AddZero(a: bv16)
    ensures Add(a, 0) == a && Add(0, a) == a
  {
  }

  lemma Cancels(a: bv16)
    ensures Add(a, a) == 0
  {
  }

  lemma AddSelf(a: bv16, b: bv16)
    ensures Add(a, b) == 0 <==> a == b
  {
    hide Add;
    Cancels(b);
    AddAssociates(a, b, b);
    AddZero(a);
    AddZero(b);
  }

  lemma XorShift(a: bv16, b: bv16)
    ensures (a ^ b) << 1 == (a << 1) ^ (b << 1)
  {
  }

  lemma ShlAdd(a: bv16, b: bv16)
    ensures Shl(Add(a, b)) == Add(Shl(a), Shl(b))
  {
    XorShift(a, b);
  }

  lemma TopAdd(a: bv16, b: bv16)
    ensures Top(Add(a, b)) == (Top(a) != Top(b))
  {
  }

  lemma TermAdd(p: bv16, b: bool, c: bool)
    ensures Add(Term(p, b), Term(p, c)) == Term(p, b != c)
  {
    hide Add;
    if b && c {
      AddSelf(p, p);
    } else {
      AddZero(p);
      AddZero(0);
    }
  }

  lemma TimesXLinear(g: bv16, s: bv16, t: bv16)
    ensures TimesX(g, Add(s, t)) == Add(TimesX(g, s), TimesX(g, t))
  {
    hide Add, Shl, Top, Term;
    ShlAdd(s, t);
    TopAdd(s, t);
    TermAdd(g, Top(s), Top(t));
    AddSwap(Shl(s), Term(g, Top(s)), Shl(t), Term(g, Top(t)));
  }

  lemma {:induction false} TimesXPowerLinear(g: bv16, s: bv16, t: bv16, n: nat)
    ensures TimesXPower(g, Add(s, t), n) == Add(TimesXPower(g, s, n), TimesXPower(g, t, n))
  {
    hide Add, TimesX;
    if n > 0 {
      TimesXPowerLinear(g, s, t, n - 1);
      TimesXLinear(g, TimesXPower(g, s, n - 1), TimesXPower(g, t, n - 1));
    }
  }

  lemma {:induction false} TimesXPowerAdd(g: bv16, s: bv16, m: nat, n: nat)
    ensures TimesXPower(g, TimesXPower(g, s, m), n) == TimesXPower(g, s, m + n)
  {
    hide TimesX;
    if n > 0 {
      TimesXPowerAdd(g, s, m, n - 1);
    }
  }

  lemma {:induction false} PowerShift(g: bv16, r: bv16, n: nat)
    ensures TimesXPower(g, TimesX(g, r), n) == TimesX(g, TimesXPower(g, r, n))
  {
    hide TimesX;
    if n > 0 {
      PowerShift(g, r, n - 1);
    }
  }

  lemma {:induction false} PowerOfZero(g: bv16, n: nat)
    ensures TimesXPower(g, 0, n) == 0
  {
    if n > 0 {
      PowerOfZero(g, n - 1);
    }
  }

  // ----- the checksum register bit by bit -----

  function High(b: bool): bv16 { Term(0x8000, b) }

  /** The shift register of the SD specification, starting from s, after the bits have been fed in. */
  function Run(g: bv16, s: bv16, bits: seq<bool>): bv16 {
    if bits == [] then s else TimesX(g, Add(Run(g, s, bits[..|bits| - 1]), High(bits[|bits| - 1])))
  }

  lemma {:induction false} RunAppend(g: bv16, s: bv16, a: seq<bool>, b: seq<bool>)
    ensures Run(g, s, a + b) == Run(g, Run(g, s, a), b)
  {
    hide TimesX, Add, High;
    if b == [] {
      assert a + b == a;
    } else {
      RunAppend(g, s, a, b[..|b| - 1]);
      assert (a + b)[..|a + b| - 1] == a + b[..|b| - 1];
    }
  }

  /** The register is linear in its start and in the bits. */
  lemma {:induction false} RunLinear(g: bv16, s: bv16, t: bv16, a: seq<bool>, b: seq<bool>)
    requires |a| == |b|
    ensures Run(g, Add(s, t), Xor(a, b)) == Add(Run(g, s, a), Run(g, t, b))
  {
    hide TimesX, Add, Term;
    if a != [] {
      var n := |a| - 1;
      RunLinear(g, s, t, a[..n], b[..n]);
      assert Xor(a, b)[..n] == Xor(a[..n], b[..n]);
      var r, q := Run(g, s, a[..n]), Run(g, t, b[..n]);
      TermAdd(0x8000, a[n], b[n]);
      AddSwap(r, High(a[n]), q, High(b[n]));
      TimesXLinear(g, Add(r, High(a[n])), Add(q, High(b[n])));
    }
  }

  lemma {:induction false} RunZeros(g: bv16, s: bv16, n: nat)
    ensures Run(g, s, Zeros(n)) == TimesXPower(g, s, n)
  {
    hide TimesX, Add;
    if n > 0 {
      RunZeros(g, s, n - 1);
      assert Zeros(n)[..n - 1] == Zeros(n - 1);
      AddZero(TimesXPower(g, s, n - 1));
    }
  }

  // ----- long division -----

  /** The remainder of the polynomial with these coefficients, the highest first; `one` is the constant term. */
  function Remainder(g: bv16, one: bv16, bits: seq<bool>): bv16 {
    if bits == [] then 0
    else Add(TimesX(g, Remainder(g, one, bits[..|bits| - 1])), Term(one, bits[|bits| - 1]))
  }

  lemma {:induction false} RemainderOfZeros(g: bv16, one: bv16, a: seq<bool>, n: nat)
    ensures Remainder(g, one, a + Zeros(n)) == TimesXPower(g, Remainder(g, one, a), n)
  {
    hide TimesX, Add;
    if n == 0 {
      assert a + Zeros(0) == a;
    } else {
      RemainderOfZeros(g, one, a, n - 1);
      assert (a + Zeros(n))[..|a| + n - 1] == a + Zeros(n - 1);
      AddZero(TimesX(g, Remainder(g, one, a + Zeros(n - 1))));
    }
  }

  /** The constant term, deg - 1 places up, is the top coefficient. */
  predicate Degree(g: bv16, one: bv16, deg: nat) {
    deg > 0 && TimesXPower(g, one, deg - 1) == 0x8000
  }

  lemma TermPower(g: bv16, one: bv16, b: bool, deg: nat)
    requires Degree(g, one, deg)
    ensures TimesXPower(g, Term(one, b), deg) == TimesX(g, High(b))
  {
    hide TimesX;
    if !b {
      PowerOfZero(g, deg - 1);
    }
  }

  /** The register computes the remainder of the message followed by as many zeros as the checksum has bits. */
  lemma {:induction false} RegisterIsRemainder(g: bv16, one: bv16, deg: nat, bits: seq<bool>)
    requires Degree(g, one, deg)
    ensures Run(g, 0, bits) == Remainder(g, one, bits + Zeros(deg))
  {
    hide TimesX, Add, High, TimesXPower, Term;
    RemainderOfZeros(g, one, bits, deg);
    if bits == [] {
      PowerOfZero(g, deg);
    } else {
      var front, b := bits[..|bits| - 1], bits[|bits| - 1];
      RegisterIsRemainder(g, one, deg, front);
      RemainderOfZeros(g, one, front, deg);
      var r := Remainder(g, one, front);
      TimesXPowerLinear(g, TimesX(g, r), Term(one, b), deg);
      TermPower(g, one, b, deg);
      PowerShift(g, r, deg);
      TimesXLinear(g, TimesXPower(g, r, deg), High(b));
    }
  }

  lemma Degree16()
    ensures Degree(G16, 0x0001, 16)
  {
    assert TimesXPower(G16, 0x0001, 1) == 0x0002;
    assert TimesXPower(G16, 0x0001, 2) == 0x0004;
    assert TimesXPower(G16, 0x0001, 3) == 0x0008;
    assert TimesXPower(G16, 0x0001, 4) == 0x0010;
    assert TimesXPower(G16, 0x0001, 5) == 0x0020;
    assert TimesXPower(G16, 0x0001, 6) == 0x0040;
    assert TimesXPower(G16, 0x0001, 7) == 0x0080;
    assert TimesXPower(G16, 0x0001, 8) == 0x0100;
    assert TimesXPower(G16, 0x0001, 9) == 0x0200;
    assert TimesXPower(G16, 0x0001, 10) == 0x0400;
    assert TimesXPower(G16, 0x0001, 11) == 0x0800;
    assert TimesXPower(G16, 0x0001, 12) == 0x1000;
    assert TimesXPower(G16, 0x0001, 13) == 0x2000;
    assert TimesXPower(G16, 0x0001, 14) == 0x4000;
    assert TimesXPower(G16, 0x0001, 15) == 0x8000;
  }

  lemma Degree7()
    ensures Degree(G7, 0x0200, 7)
  {
    assert TimesXPower(G7, 0x0200, 1) == 0x0400;
    assert TimesXPower(G7, 0x0200, 2) == 0x0800;
    assert TimesXPower(G7, 0x0200, 3) == 0x1000;
    assert TimesXPower(G7, 0x0200, 4) == 0x2000;
    assert TimesXPower(G7, 0x0200, 5) == 0x4000;
    assert TimesXPower(G7, 0x0200, 6) == 0x8000;
  }

  // ----- what the remainder is: the polynomial less a multiple of the divisor -----

  function Shifted(s: bv16, j: nat): bv16 {
    if j == 0 then s else Shl(Shifted(s, j - 1))
  }

  /** Coefficient number j of the register from the top: the one on top after j shifts. */
  predicate Coefficient(s: bv16, j: nat) {
    Top(Shifted(s, j))
  }

  function Coefficients(s: bv16, deg: nat): (r: seq<bool>)
    ensures |r| == deg
  {
    seq(deg, j requires 0 <= j => Coefficient(s, j))
  }

  /** The divisor, its leading term included. */
  function Divisor(g: bv16, deg: nat): (r: seq<bool>)
    ensures |r| == deg + 1
  {
    [true] + Coefficients(g, deg)
  }

  /** The product of two polynomials: the second one times x for each place, added in where q has a one. */
  function Product(q: seq<bool>, d: seq<bool>): (r: seq<bool>)
    requires d != []
    ensures |r| == |q| + |d| - 1
  {
    if q == [] then Zeros(|d| - 1)
    else
      var n := |q| - 1;
      Xor(Product(q[..n], d) + [false], Zeros(n) + if q[n] then d else Zeros(|d|))
  }

  /** The quotient: each bit says whether the divisor was taken off. */
  function Quotient(g: bv16, one: bv16, bits: seq<bool>): (q: seq<bool>)
    ensures |q| == |bits|
  {
    if bits == [] then [] else
      var front := bits[..|bits| - 1];
      Quotient(g, one, front) + [Top(Remainder(g, one, front))]
  }

  /** The generator has coefficients in the top deg places only, and `one` is the last of those places. */
  ghost predicate Places(g: bv16, one: bv16, deg: nat) {
    && deg > 0
    && (forall j: nat :: deg <= j ==> !Coefficient(g, j))
    && (forall j: nat :: Coefficient(one, j) == (j == deg - 1))
  }

  lemma {:induction false} CoefficientOfSum(a: bv16, b: bv16, j: nat)
    ensures Shifted(Add(a, b), j) == Add(Shifted(a, j), Shifted(b, j))
    ensures Coefficient(Add(a, b), j) == (Coefficient(a, j) != Coefficient(b, j))
  {
    hide Add, Shl, Top;
    if j > 0 {
      CoefficientOfSum(a, b, j - 1);
      ShlAdd(Shifted(a, j - 1), Shifted(b, j - 1));
    }
    TopAdd(Shifted(a, j), Shifted(b, j));
  }

  lemma {:induction false} ShiftedZero(j: nat)
    ensures Shifted(0, j) == 0
  {
    if j > 0 {
      ShiftedZero(j - 1);
    }
  }

  lemma CoefficientOfTerm(p: bv16, b: bool, j: nat)
    ensures Coefficient(Term(p, b), j) == (b && Coefficient(p, j))
  {
    hide Shifted;
    ShiftedZero(j);
  }

  lemma {:induction false} CoefficientOfShift(s: bv16, j: nat)
    ensures Shifted(Shl(s), j) == Shifted(s, j + 1)
    ensures Coefficient(Shl(s), j) == Coefficient(s, j + 1)
  {
    hide Shl, Top;
    if j > 0 {
      CoefficientOfShift(s, j - 1);
    }
  }

  lemma TopCoefficient(s: bv16)
    ensures Top(s) == Coefficient(s, 0)
  {
  }

  /** One more bit: the coefficients move up, the divisor is taken off, the bit comes in at the constant term. */
  lemma RemainderStep(g: bv16, one: bv16, deg: nat, r: bv16, b: bool, j: nat)
    requires Places(g, one, deg)
    ensures Coefficient(Add(TimesX(g, r), Term(one, b)), j)
            == ((Coefficient(r, j + 1) != (Top(r) && Coefficient(g, j))) != (b && j == deg - 1))
  {
    hide Add, Shl, Term, Top, Coefficient;
    CoefficientOfSum(TimesX(g, r), Term(one, b), j);
    CoefficientOfSum(Shl(r), Term(g, Top(r)), j);
    CoefficientOfShift(r, j);
    CoefficientOfTerm(g, Top(r), j);
    CoefficientOfTerm(one, b, j);
  }

  lemma {:induction false} RemainderInPlaces(g: bv16, one: bv16, deg: nat, bits: seq<bool>, j: nat)
    requires Places(g, one, deg) && deg <= j
    ensures !Coefficient(Remainder(g, one, bits), j)
    decreases |bits|
  {
    hide Add, TimesX, Term, Top, Shifted;
    if bits == [] {
      ShiftedZero(j);
      TopOfZero();
    } else {
      var front := bits[..|bits| - 1];
      RemainderInPlaces(g, one, deg, front, j + 1);
      RemainderStep(g, one, deg, Remainder(g, one, front), bits[|bits| - 1], j);
    }
  }

  /** Coefficient i of the product, for one more bit of the first factor. */
  lemma ProductStep(q: seq<bool>, b: bool, d: seq<bool>, i: nat)
    requires d != [] && i < |q| + |d|
    ensures Product(q + [b], d)[i]
            == ((i < |q| + |d| - 1 && Product(q, d)[i]) != (b && i >= |q| && d[i - |q|]))
  {
    hide Product, Xor, Zeros;
    ProductGrows(q, b, d);
    AddedAt(Product(q, d), |q|, b, d, i);
  }

  lemma AddedAt(p: seq<bool>, n: nat, b: bool, d: seq<bool>, i: nat)
    requires d != [] && |p| == n + |d| - 1 && i < n + |d|
    ensures Xor(p + [false], Zeros(n) + if b then d else Zeros(|d|))[i]
            == ((i < |p| && p[i]) != (b && i >= n && d[i - n]))
  {
    var up, more := p + [false], if b then d else Zeros(|d|);
    assert up[i] == (i < |p| && p[i]);
    assert (Zeros(n) + more)[i] == (i >= n && more[i - n]);
  }

  lemma ProductGrows(q: seq<bool>, b: bool, d: seq<bool>)
    requires d != []
    ensures Product(q + [b], d) == Xor(Product(q, d) + [false], Zeros(|q|) + if b then d else Zeros(|d|))
  {
    hide Xor, Zeros;
    assert (q + [b])[..|q|] == q;
  }

  /** The polynomial of the bits, with room for the divisor's degree above it, at place i. */
  predicate BitAt(deg: nat, bits: seq<bool>, i: nat)
    requires i < deg + |bits|
  {
    i >= deg && bits[i - deg]
  }

  predicate RemainderAt(r: bv16, deg: nat, n: nat, i: nat) {
    n <= i < n + deg && Coefficient(r, i - n)
  }

  /** The identity at one place. */
  predicate DividesAt(g: bv16, one: bv16, deg: nat, bits: seq<bool>, i: nat)
    requires i < deg + |bits|
  {
    BitAt(deg, bits, i)
    == (Product(Quotient(g, one, bits), Divisor(g, deg))[i] != RemainderAt(Remainder(g, one, bits), deg, |bits|, i))
  }

  lemma DivisionStep(g: bv16, one: bv16, deg: nat, front: seq<bool>, b: bool, i: nat)
    requires Places(g, one, deg) && i < deg + |front| + 1
    requires i < deg + |front| ==> DividesAt(g, one, deg, front, i)
    ensures DividesAt(g, one, deg, front + [b], i)
  {
    hide Add, TimesX, Term, Top, Coefficient, Product;
    var n := |front|;
    var r, bits := Remainder(g, one, front), front + [b];
    assert bits[..n] == front;
    TopCoefficient(r);
    ProductStep(Quotient(g, one, front), Top(r), Divisor(g, deg), i);
    RemainderInPlaces(g, one, deg, front, deg);
    if i > n {
      RemainderStep(g, one, deg, r, b, i - n - 1);
    }
  }

  lemma {:induction false} DivisionAt(g: bv16, one: bv16, deg: nat, bits: seq<bool>, i: nat)
    requires Places(g, one, deg) && i < deg + |bits|
    ensures DividesAt(g, one, deg, bits, i)
    decreases |bits|
  {
    hide Add, TimesX, Term, Top, Coefficient, Places, DividesAt;
    if bits == [] {
      NothingAt(g, one, deg, i);
    } else {
      var n := |bits| - 1;
      assert bits[..n] + [bits[n]] == bits;
      if i < deg + n {
        DivisionAt(g, one, deg, bits[..n], i);
      }
      DivisionStep(g, one, deg, bits[..n], bits[n], i);
    }
  }

  lemma NothingAt(g: bv16, one: bv16, deg: nat, i: nat)
    requires i < deg
    ensures DividesAt(g, one, deg, [], i)
  {
    hide Shifted, Top;
    ShiftedZero(i);
    TopOfZero();
  }

  lemma TopOfZero()
    ensures !Top(0)
  {
  }

  lemma PlacesOf(r: bv16, deg: nat, bits: seq<bool>, i: nat)
    requires i < deg + |bits|
    ensures (Zeros(deg) + bits)[i] == BitAt(deg, bits, i)
    ensures (Zeros(|bits|) + Coefficients(r, deg))[i] == RemainderAt(r, deg, |bits|, i)
  {
    hide Coefficient;
  }

  lemma SumIs(sum: seq<bool>, a: seq<bool>, b: seq<bool>)
    requires |sum| == |a| == |b| && forall i :: 0 <= i < |sum| ==> sum[i] == (a[i] != b[i])
    ensures sum == Xor(a, b)
  {
  }

  /** The bits are the quotient times the divisor plus the remainder. */
  lemma Division(g: bv16, one: bv16, deg: nat, bits: seq<bool>)
    requires Places(g, one, deg)
    ensures Zeros(deg) + bits
            == Xor(Product(Quotient(g, one, bits), Divisor(g, deg)),
                   Zeros(|bits|) + Coefficients(Remainder(g, one, bits), deg))
  {
    hide Coefficient, Places, Remainder, Product, Quotient, Divisor, Zeros, Coefficients, BitAt, RemainderAt, Xor;
    var r := Remainder(g, one, bits);
    var sum, a, b := Zeros(deg) + bits, Product(Quotient(g, one, bits), Divisor(g, deg)),
                     Zeros(|bits|) + Coefficients(r, deg);
    forall i | 0 <= i < |sum|
      ensures sum[i] == (a[i] != b[i])
    {
      DivisionAt(g, one, deg, bits, i);
      PlacesOf(r, deg, bits, i);
    }
    SumIs(sum, a, b);
  }

  lemma {:induction false} AllShiftedOut(s: bv16, k: nat, j: nat)
    requires Shifted(s, k) == 0 && k <= j
    ensures !Coefficient(s, j)
    decreases j - k
  {
    if k < j {
      assert Shifted(s, k + 1) == 0;
      AllShiftedOut(s, k + 1, j);
    }
  }

  /** The constant term stands deg - 1 places below the top: one coefficient and no other. */
  lemma {:induction false} OnePlace(one: bv16, k: nat, j: nat)
    requires Shifted(one, k) == 0x8000 && (forall i: nat :: i < k ==> !Top(Shifted(one, i)))
    ensures Coefficient(one, j) == (j == k)
  {
    if j > k {
      assert Shl(0x8000) == 0;
      assert Shifted(one, k + 1) == 0;
      AllShiftedOut(one, k + 1, j);
    }
  }

  lemma Places16()
    ensures Places(G16, 0x0001, 16)
  {
    assert Shifted(G16, 1) == 0x2042;
    assert Shifted(G16, 2) == 0x4084;
    assert Shifted(G16, 3) == 0x8108;
    assert Shifted(G16, 4) == 0x0210;
    assert Shifted(G16, 5) == 0x0420;
    assert Shifted(G16, 6) == 0x0840;
    assert Shifted(G16, 7) == 0x1080;
    assert Shifted(G16, 8) == 0x2100;
    assert Shifted(G16, 9) == 0x4200;
    assert Shifted(G16, 10) == 0x8400;
    assert Shifted(G16, 11) == 0x0800;
    assert Shifted(G16, 12) == 0x1000;
    assert Shifted(G16, 13) == 0x2000;
    assert Shifted(G16, 14) == 0x4000;
    assert Shifted(G16, 15) == 0x8000;
    assert Shifted(G16, 16) == 0x0000;
    assert Shifted(0x0001, 1) == 0x0002;
    assert Shifted(0x0001, 2) == 0x0004;
    assert Shifted(0x0001, 3) == 0x0008;
    assert Shifted(0x0001, 4) == 0x0010;
    assert Shifted(0x0001, 5) == 0x0020;
    assert Shifted(0x0001, 6) == 0x0040;
    assert Shifted(0x0001, 7) == 0x0080;
    assert Shifted(0x0001, 8) == 0x0100;
    assert Shifted(0x0001, 9) == 0x0200;
    assert Shifted(0x0001, 10) == 0x0400;
    assert Shifted(0x0001, 11) == 0x0800;
    assert Shifted(0x0001, 12) == 0x1000;
    assert Shifted(0x0001, 13) == 0x2000;
    assert Shifted(0x0001, 14) == 0x4000;
    assert Shifted(0x0001, 15) == 0x8000;
    forall j: nat | 16 <= j
      ensures !Coefficient(G16, j)
    {
      AllShiftedOut(G16, 16, j);
    }
    forall j: nat
      ensures Coefficient(0x0001, j) == (j == 15)
    {
      OnePlace(0x0001, 15, j);
    }
  }

  lemma DivisorBits16(j: nat)
    requires j < 16
    ensures Coefficient(G16, j) == (j == 3 || j == 10 || j == 15)
  {
    assert Shifted(G16, 1) == 0x2042;
    assert Shifted(G16, 2) == 0x4084;
    assert Shifted(G16, 3) == 0x8108;
    assert Shifted(G16, 4) == 0x0210;
    assert Shifted(G16, 5) == 0x0420;
    assert Shifted(G16, 6) == 0x0840;
    assert Shifted(G16, 7) == 0x1080;
    assert Shifted(G16, 8) == 0x2100;
    assert Shifted(G16, 9) == 0x4200;
    assert Shifted(G16, 10) == 0x8400;
    assert Shifted(G16, 11) == 0x0800;
    assert Shifted(G16, 12) == 0x1000;
    assert Shifted(G16, 13) == 0x2000;
    assert Shifted(G16, 14) == 0x4000;
    assert Shifted(G16, 15) == 0x8000;
  }

  lemma DivisorBits7(j: nat)
    requires j < 7
    ensures Coefficient(G7, j) == (j == 3 || j == 6)
  {
    assert Shifted(G7, 1) == 0x2400;
    assert Shifted(G7, 2) == 0x4800;
    assert Shifted(G7, 3) == 0x9000;
    assert Shifted(G7, 4) == 0x2000;
    assert Shifted(G7, 5) == 0x4000;
    assert Shifted(G7, 6) == 0x8000;
  }

  /** x^16 + x^12 + x^5 + 1, and x^7 + x^3 + 1. */
  lemma DivisorsWritten()
    ensures var t, f := true, false;
            && Divisor(G16, 16) == [t, f, f, f, t, f, f, f, f, f, f, t, f, f, f, f, t]
            && Divisor(G7, 7) == [t, f, f, f, t, f, f, t]
  {
    forall j: nat | j < 16
      ensures Coefficient(G16, j) == (j == 3 || j == 10 || j == 15)
    {
      DivisorBits16(j);
    }
    forall j: nat | j < 7
      ensures Coefficient(G7, j) == (j == 3 || j == 6)
    {
      DivisorBits7(j);
    }
  }

  lemma Places7()
    ensures Places(G7, 0x0200, 7)
  {
    assert Shifted(G7, 1) == 0x2400;
    assert Shifted(G7, 2) == 0x4800;
    assert Shifted(G7, 3) == 0x9000;
    assert Shifted(G7, 4) == 0x2000;
    assert Shifted(G7, 5) == 0x4000;
    assert Shifted(G7, 6) == 0x8000;
    assert Shifted(G7, 7) == 0x0000;
    assert Shifted(0x0200, 1) == 0x0400;
    assert Shifted(0x0200, 2) == 0x0800;
    assert Shifted(0x0200, 3) == 0x1000;
    assert Shifted(0x0200, 4) == 0x2000;
    assert Shifted(0x0200, 5) == 0x4000;
    assert Shifted(0x0200, 6) == 0x8000;
    forall j: nat | 7 <= j
      ensures !Coefficient(G7, j)
    {
      AllShiftedOut(G7, 7, j);
    }
    forall j: nat
      ensures Coefficient(0x0200, j) == (j == 6)
    {
      OnePlace(0x0200, 6, j);
    }
  }

  // ----- feeding in up to sixteen bits at once -----

  /** Coefficient number k from the top. */
  function FromTop(k: nat): bv16
    requires k < 16
  {
    match k
    case 0 => 0x8000
    case 1 => 0x4000
    case 2 => 0x2000
    case 3 => 0x1000
    case 4 => 0x0800
    case 5 => 0x0400
    case 6 => 0x0200
    case 7 => 0x0100
    case 8 => 0x0080
    case 9 => 0x0040
    case 10 => 0x0020
    case 11 => 0x0010
    case 12 => 0x0008
    case 13 => 0x0004
    case 14 => 0x0002
    case _ => 0x0001
  }

  /** Bits placed from the top coefficient down. */
  function Packed(bits: seq<bool>): bv16
    requires |bits| <= 16
  {
    if bits == [] then 0 else Add(Packed(bits[..|bits| - 1]), Term(FromTop(|bits| - 1), bits[|bits| - 1]))
  }

  lemma OneUp(g: bv16, k: nat)
    requires 0 < k < 16
    ensures TimesX(g, FromTop(k)) == FromTop(k - 1)
  {
  }

  lemma {:induction false} UpToTop(g: bv16, k: nat, b: bool)
    requires k < 16
    ensures TimesXPower(g, Term(FromTop(k), b), k) == High(b)
  {
    hide TimesX, FromTop;
    if !b {
      PowerOfZero(g, k);
    } else if k > 0 {
      OneUp(g, k);
      UpToTop(g, k - 1, b);
      PowerShift(g, FromTop(k), k - 1);
    } else {
      assert FromTop(0) == 0x8000 by { TopIsTop(); }
    }
  }

  lemma TopIsTop()
    ensures FromTop(0) == 0x8000
  {
  }

  /** Adding the bits all at once and then shifting gives the same register. */
  lemma {:induction false} RunPacked(g: bv16, s: bv16, bits: seq<bool>)
    requires |bits| <= 16
    ensures Run(g, s, bits) == TimesXPower(g, Add(s, Packed(bits)), |bits|)
  {
    hide TimesX, Add, High, Term, FromTop;
    if bits == [] {
      AddZero(s);
    } else {
      var n := |bits| - 1;
      var front, b := bits[..n], bits[n];
      var u := Term(FromTop(n), b);
      RunPacked(g, s, front);
      UpToTop(g, n, b);
      TimesXPowerLinear(g, Add(s, Packed(front)), u, n);
      AddAssociates(s, Packed(front), u);
    }
  }

  /** The byte as the top eight coefficients. */
  function Wide(i: bv8): bv16 { (i as bv16) << 8 }

  lemma PackedByte(d: bv8)
    ensures Packed(Bits(d)) == Wide(d)
  {
    hide Add, Term;
    var b := Bits(d);
    assert Packed(b[..0]) == 0;
    assert b[..1][..0] == b[..0];
    assert Packed(b[..1]) == Add(Packed(b[..0]), Term(0x8000, b[0]));
    assert b[..2][..1] == b[..1];
    assert Packed(b[..2]) == Add(Packed(b[..1]), Term(0x4000, b[1]));
    assert b[..3][..2] == b[..2];
    assert Packed(b[..3]) == Add(Packed(b[..2]), Term(0x2000, b[2]));
    assert b[..4][..3] == b[..3];
    assert Packed(b[..4]) == Add(Packed(b[..3]), Term(0x1000, b[3]));
    assert b[..5][..4] == b[..4];
    assert Packed(b[..5]) == Add(Packed(b[..4]), Term(0x0800, b[4]));
    assert b[..6][..5] == b[..5];
    assert Packed(b[..6]) == Add(Packed(b[..5]), Term(0x0400, b[5]));
    assert b[..7][..6] == b[..6];
    assert Packed(b[..7]) == Add(Packed(b[..6]), Term(0x0200, b[6]));
    assert b[..8][..7] == b[..7];
    assert Packed(b[..8]) == Add(Packed(b[..7]), Term(0x0100, b[7]));
    assert b[..8] == b;
    SumOfTerms(d);
    AddZero(Term(0x8000, b[0]));
  }

  lemma SumOfTerms(d: bv8)
    ensures Add(Add(Add(Add(Add(Add(Add(
              Term(0x8000, Bits(d)[0]), Term(0x4000, Bits(d)[1])), Term(0x2000, Bits(d)[2])), Term(0x1000, Bits(d)[3])),
              Term(0x0800, Bits(d)[4])), Term(0x0400, Bits(d)[5])), Term(0x0200, Bits(d)[6])), Term(0x0100, Bits(d)[7]))
            == Wide(d)
  {
  }
}
