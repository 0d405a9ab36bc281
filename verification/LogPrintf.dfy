/** alt_log_printf.c: the small printf of the log, its format state machine and its integer conversions. */
module LogPrintf {
  // ----- numerals -----

  type Base = b: nat | b == 8 || b == 10 || b == 16 witness 10

  /** The digits of m, most significant first, without leading zeros. */
  function Digits(m: nat, base: Base): (s: seq<nat>)
    ensures |s| > 0 && forall k :: 0 <= k < |s| ==> s[k] < base
  {
    if m < base then [m] else Digits(m / base, base) + [m % base]
  }

  function Value(digits: seq<nat>, base: Base): nat {
    if digits == [] then 0 else Value(digits[..|digits| - 1], base) * base + digits[|digits| - 1]
  }

  /** Digits of m with nothing in front that could be left out. */
  ghost predicate Canonical(digits: seq<nat>, m: nat, base: Base) {
    && digits != [] && Value(digits, base) == m
    && (forall k :: 0 <= k < |digits| ==> digits[k] < base)
    && (|digits| > 1 ==> digits[0] != 0)
  }

  lemma {:induction false} DigitsCanonical(m: nat, base: Base)
    ensures Canonical(Digits(m, base), m, base)
  {
    if m < base {
      assert Value([m], base) == m by {
        assert [m][..0] == [];
      }
    } else {
      DigitsCanonical(m / base, base);
      var front := Digits(m / base, base);
      assert (front + [m % base])[..|front|] == front;
      if |front| == 1 {
        assert front[0] == Value(front, base) by {
          assert front[..0] == [];
        }
      }
    }
  }

  lemma {:induction false} ValuePositive(digits: seq<nat>, base: Base)
    requires digits != [] && digits[0] != 0
    ensures Value(digits, base) > 0
  {
    if |digits| > 1 {
      ValuePositive(digits[..|digits| - 1], base);
    }
  }

  /** There is only one way to write a number. */
  lemma {:induction false} CanonicalIsDigits(digits: seq<nat>, m: nat, base: Base)
    requires Canonical(digits, m, base)
    ensures digits == Digits(m, base)
  {
    var n := |digits| - 1;
    var front, last := digits[..n], digits[n];
    assert digits == front + [last];
    if n == 0 {
      assert front == [];
    } else {
      ValuePositive(front, base);
      var high := Value(front, base);
      assert m == high * base + last && high >= 1;
      SplitLast(m, high, last, base);
      CanonicalIsDigits(front, m / base, base);
    }
  }

  lemma SplitLast(m: nat, high: nat, last: nat, base: Base)
    requires m == high * base + last && last < base && high >= 1
    ensures m / base == high && m % base == last && m >= base
  {
  }

  function Power(base: Base, k: nat): nat {
    if k == 0 then 1 else Power(base, k - 1) * base
  }

  lemma {:induction false} PowerPositive(base: Base, k: nat)
    ensures Power(base, k) > 0
  {
    if k > 0 {
      PowerPositive(base, k - 1);
    }
  }

  /** Dropping k digits. */
  function Shifted(v: nat, base: Base, k: nat): nat {
    if k == 0 then v else Shifted(v, base, k - 1) / base
  }

  lemma {:induction false} ShiftedBounds(v: nat, base: Base, k: nat)
    ensures Shifted(v, base, k) * Power(base, k) <= v < (Shifted(v, base, k) + 1) * Power(base, k)
  {
    if k > 0 {
      ShiftedBounds(v, base, k - 1);
      var x, p := Shifted(v, base, k - 1), Power(base, k - 1);
      Drop(v, x, p, base);
    }
  }

  lemma Drop(v: nat, x: nat, p: nat, base: Base)
    requires x * p <= v < (x + 1) * p
    ensures (x / base) * (p * base) <= v < (x / base + 1) * (p * base)
  {
    var y := x / base;
    assert y * base <= x && x + 1 <= (y + 1) * base;
    Monotone(y * base, x, p);
    Monotone(x + 1, (y + 1) * base, p);
    Regroup(y, base, p);
    Regroup(y + 1, base, p);
  }

  lemma Monotone(a: nat, b: nat, p: nat)
    requires a <= b
    ensures a * p <= b * p
  {
  }

  lemma Regroup(y: nat, base: nat, p: nat)
    ensures y * base * p == y * (p * base)
  {
  }

  // ----- characters -----

  function DigitChar(d: nat, upper: bool): char
    requires d < 16
  {
    if d < 10 then '0' + d as char else (if upper then 'A' else 'a') + (d - 10) as char
  }

  function Chars(digits: seq<nat>, upper: bool): (s: string)
    requires forall k :: 0 <= k < |digits| ==> digits[k] < 16
    ensures |s| == |digits|
  {
    seq(|digits|, k requires 0 <= k < |digits| => DigitChar(digits[k], upper))
  }

  function Repeat(c: char, n: int): (s: string)
    ensures |s| == if n > 0 then n else 0
    ensures forall k :: 0 <= k < |s| ==> s[k] == c
  {
    if n <= 0 then "" else seq(n, _ => c)
  }

  // ----- one integer conversion -----

  /** What an argument register holds. */
  type Word = v: nat | v < 0x1_0000_0000

  predicate Negative(v: Word, signed: bool) { signed && v >= 0x8000_0000 }

  function Magnitude(v: Word, signed: bool): nat {
    if Negative(v, signed) then 0x1_0000_0000 - v else v
  }

  /** The number printed for the 32-bit word v. */
  function Number(v: Word, signed: bool): int {
    if Negative(v, signed) then v - 0x1_0000_0000 else v
  }

  function Conversion(v: Word, signed: bool, base: Base, upper: bool, width: int, zero: bool): string {
    var digits := Chars(Digits(Magnitude(v, signed), base), upper);
    var sign := if Negative(v, signed) then "-" else "";
    var pad := width - |digits| - |sign|;
    if zero then sign + Repeat('0', pad) + digits else Repeat(' ', pad) + sign + digits
  }

  /** Exactly the width asked for, or what the number needs. */
  lemma ConversionLength(v: Word, signed: bool, base: Base, upper: bool, width: int, zero: bool)
    ensures var need := |Digits(Magnitude(v, signed), base)| + (if Negative(v, signed) then 1 else 0);
            |Conversion(v, signed, base, upper, width, zero)| == if width > need then width else need
  {
    hide Digits;
  }

  // ----- reading a number back -----

  function DigitOf(c: char): nat {
    if '0' <= c <= '9' then (c - '0') as nat
    else if 'A' <= c <= 'F' then (c - 'A') as nat + 10
    else if 'a' <= c <= 'f' then (c - 'a') as nat + 10
    else 16
  }

  function ReadDigits(s: string, base: Base): nat {
    if s == [] then 0 else ReadDigits(s[..|s| - 1], base) * base + DigitOf(s[|s| - 1])
  }

  /** Skips blanks, takes a sign, reads the digits. */
  function ReadNumber(s: string, base: Base): int {
    if s == [] then 0
    else if s[0] == ' ' then ReadNumber(s[1..], base)
    else if s[0] == '-' then -(ReadDigits(s[1..], base) as int)
    else ReadDigits(s, base)
  }

  lemma DigitBack(d: nat, upper: bool)
    requires d < 16
    ensures DigitOf(DigitChar(d, upper)) == d && DigitChar(d, upper) != ' ' && DigitChar(d, upper) != '-'
  {
  }

  lemma {:induction false} ReadChars(digits: seq<nat>, upper: bool, base: Base)
    requires forall k :: 0 <= k < |digits| ==> digits[k] < base
    ensures ReadDigits(Chars(digits, upper), base) == Value(digits, base)
  {
    hide DigitOf, DigitChar;
    if digits != [] {
      var n := |digits| - 1;
      assert Chars(digits, upper)[..n] == Chars(digits[..n], upper);
      ReadChars(digits[..n], upper, base);
      DigitBack(digits[n], upper);
    }
  }

  lemma {:induction false} ReadZeros(n: int, s: string, base: Base)
    ensures ReadDigits(Repeat('0', n) + s, base) == ReadDigits(s, base)
  {
    if s != [] {
      var front := s[..|s| - 1];
      assert (Repeat('0', n) + s)[..|Repeat('0', n) + s| - 1] == Repeat('0', n) + front;
      ReadZeros(n, front, base);
    } else if n > 0 {
      assert Repeat('0', n) + s == Repeat('0', n);
      assert Repeat('0', n)[..n - 1] == Repeat('0', n - 1) + s;
      ReadZeros(n - 1, s, base);
    } else {
      assert Repeat('0', n) + s == s;
    }
  }

  lemma {:induction false} SkipBlanks(n: int, s: string, base: Base)
    ensures ReadNumber(Repeat(' ', n) + s, base) == ReadNumber(s, base)
  {
    if n > 0 {
      assert (Repeat(' ', n) + s)[1..] == Repeat(' ', n - 1) + s;
      SkipBlanks(n - 1, s, base);
    } else {
      assert Repeat(' ', n) + s == s;
    }
  }

  /** Whatever the base, width and flags, the characters read back to the number. */
  lemma ConversionReadsBack(v: Word, signed: bool, base: Base, upper: bool, width: int, zero: bool)
    ensures ReadNumber(Conversion(v, signed, base, upper, width, zero), base) == Number(v, signed)
  {
    hide Digits, ReadDigits, ReadNumber, DigitChar, Chars, Repeat;
    var m := Magnitude(v, signed);
    var digits := Chars(Digits(m, base), upper);
    DigitsCanonical(m, base);
    ReadChars(Digits(m, base), upper, base);
    FirstDigit(Digits(m, base), upper);
    var sign := if Negative(v, signed) then "-" else "";
    LeadReadsBack(sign, digits, width - |digits| - |sign|, zero, base);
  }

  lemma FirstDigit(digits: seq<nat>, upper: bool)
    requires digits != [] && forall k :: 0 <= k < |digits| ==> digits[k] < 16
    ensures Chars(digits, upper) != [] && Chars(digits, upper)[0] != ' ' && Chars(digits, upper)[0] != '-'
  {
    DigitBack(digits[0], upper);
  }

  /** Padding by blanks or zeros, and a sign on the right side of it, do not change what is read. */
  lemma LeadReadsBack(sign: string, digits: string, pad: int, zero: bool, base: Base)
    requires (sign == "-" || sign == "") && digits != [] && digits[0] != ' ' && digits[0] != '-'
    ensures var s := if zero then sign + Repeat('0', pad) + digits else Repeat(' ', pad) + sign + digits;
            ReadNumber(s, base) == if sign == "-" then -(ReadDigits(digits, base) as int) else ReadDigits(digits, base)
  {
    hide ReadDigits, ReadNumber;
    if zero {
      var body := Repeat('0', pad) + digits;
      ReadZeros(pad, digits, base);
      assert sign + Repeat('0', pad) + digits == sign + body;
      Signed(sign, body, base);
    } else {
      assert Repeat(' ', pad) + sign + digits == Repeat(' ', pad) + (sign + digits);
      SkipBlanks(pad, sign + digits, base);
      Signed(sign, digits, base);
    }
  }

  lemma Signed(sign: string, body: string, base: Base)
    requires sign == "-" || sign == ""
    requires body != [] && body[0] != ' ' && body[0] != '-'
    ensures ReadNumber(sign + body, base) == if sign == "-" then -(ReadDigits(body, base) as int) else ReadDigits(body, base)
  {
    if sign == "-" {
      assert (sign + body)[1..] == body;
    } else {
      assert sign + body == body;
    }
  }

  // ----- place values -----

  /** Counting digits: the next place value is still at most v, so it fits the register. */
  lemma NextPlace(v: nat, base: Base, k: nat)
    requires Shifted(v, base, k) > 0
    ensures Power(base, k) <= v
  {
    ShiftedBounds(v, base, k);
    Monotone(1, Shifted(v, base, k), Power(base, k));
  }

  lemma LastPlace(v: nat, base: Base, k: nat)
    requires Shifted(v, base, k) == 0
    ensures v < Power(base, k)
  {
    ShiftedBounds(v, base, k);
  }

  function Times(a: nat, b: nat): nat { a * b }

  /** The digit at place value p, and what is left below it. */
  function Quotient(v: nat, p: nat): nat
    requires p > 0
  {
    v / p
  }

  function Rest(v: nat, p: nat): nat
    requires p > 0
  {
    v % p
  }

  lemma TopDigit(v: nat, p: nat, base: nat)
    requires p > 0 && v < Times(p, base)
    ensures Quotient(v, p) < base && Rest(v, p) < p && v == Times(Quotient(v, p), p) + Rest(v, p)
    ensures v >= p ==> Quotient(v, p) > 0
  {
    if v / p >= base {
      Monotone(base, v / p, p);
    }
  }

  lemma OneMoreDigit(high: nat, p: nat, base: nat, v: nat, d: nat, r: nat, m: nat)
    requires Times(high, Times(p, base)) + v == m && v == Times(d, p) + r
    ensures Times(Times(high, base) + d, p) + r == m
  {
    Regroup(high, base, p);
    Spread(high * base, d, p);
  }

  lemma Spread(a: nat, b: nat, p: nat)
    ensures (a + b) * p == a * p + b * p
  {
  }

  /** What is left to print below the digits so far, k being the next place. */
  ghost predicate Printing(m: nat, base: Base, ds: seq<nat>, v: nat, k: int, last: nat) {
    && -1 <= k <= last && |ds| == last - k
    && v < Power(base, k + 1) && Times(Value(ds, base), Power(base, k + 1)) + v == m
    && (forall i :: 0 <= i < |ds| ==> ds[i] < base)
    && (last > 0 && ds != [] ==> ds[0] != 0)
  }

  lemma StartPrinting(m: nat, base: Base, last: nat)
    requires m < Power(base, last + 1)
    ensures Printing(m, base, [], m, last, last)
    ensures forall ds, v, k :: Printing(m, base, ds, v, k, last) ==> forall i :: 0 <= i < |ds| ==> ds[i] < 16
  {
  }

  lemma ValueMore(ds: seq<nat>, d: nat, base: Base)
    ensures Value(ds + [d], base) == Times(Value(ds, base), base) + d
  {
    assert (ds + [d])[..|ds|] == ds;
  }

  lemma AddDigit(m: nat, base: Base, ds: seq<nat>, k: nat, last: nat, d: nat, r: nat)
    requires k <= last && |ds| == last - k && (forall i :: 0 <= i < |ds| ==> ds[i] < base)
    requires last > 0 && ds != [] ==> ds[0] != 0
    requires d < base && r < Power(base, k) && Times(Times(Value(ds, base), base) + d, Power(base, k)) + r == m
    requires last > 0 && ds == [] ==> d > 0
    ensures Printing(m, base, ds + [d], r, k - 1, last)
  {
    hide Power, Value, Times;
    ValueMore(ds, d, base);
    if ds == [] {
      assert (ds + [d])[0] == d;
    }
  }

  lemma PrintOne(m: nat, base: Base, ds: seq<nat>, v: nat, k: nat, last: nat)
    requires Printing(m, base, ds, v, k, last) && (last > 0 ==> Power(base, last) <= m)
    ensures var p := Power(base, k);
            p > 0 && Quotient(v, p) < base && Printing(m, base, ds + [Quotient(v, p)], Rest(v, p), k - 1, last)
  {
    hide Power, Value, Times, Quotient, Rest;
    var p := Power(base, k);
    PowerPositive(base, k);
    PlaceUp(base, k + 1);
    TopDigit(v, p, base);
    var d, r := Quotient(v, p), Rest(v, p);
    OneMoreDigit(Value(ds, base), p, base, v, d, r, m);
    if ds == [] {
      NoValue(base);
      NoTimes(Power(base, k + 1));
    }
    AddDigit(m, base, ds, k, last, d, r);
  }

  lemma NoTimes(a: nat)
    ensures Times(0, a) == 0
  {
  }

  lemma NoValue(base: Base)
    ensures Value([], base) == 0
  {
  }

  lemma AllPrinted(m: nat, base: Base, ds: seq<nat>, v: nat, last: nat)
    requires Printing(m, base, ds, v, -1, last)
    ensures ds == Digits(m, base)
  {
    CanonicalIsDigits(ds, m, base);
  }

  lemma LowerPlace(base: Base, k: nat)
    ensures Power(base, k) / base == if k == 0 then 0 else Power(base, k - 1)
  {
    if k > 0 {
      SplitLast(Power(base, k), Power(base, k - 1), 0, base) by {
        PowerPositive(base, k - 1);
      }
    }
  }

  // ----- the format -----

  datatype Arg = Number(v: Word) | Text(s: string)

  predicate FormatChar(c: char) { c == '.' || c == 'l' || '0' <= c <= '9' }

  function BodyLength(s: string): (n: nat)
    ensures n <= |s| && (n < |s| ==> !FormatChar(s[n]))
    ensures forall k :: 0 <= k < n ==> FormatChar(s[k])
  {
    if s == [] || !FormatChar(s[0]) then 0 else 1 + BodyLength(s[1..])
  }

  function BeforePoint(body: string): string {
    if body == [] || body[0] == '.' then [] else [body[0]] + BeforePoint(body[1..])
  }

  function DigitsIn(s: string): seq<nat> {
    if s == [] then []
    else
      var c := s[|s| - 1];
      DigitsIn(s[..|s| - 1]) + (if '0' <= c <= '9' then [(c - '0') as nat] else [])
  }

  /** The number formed by the digits before the point, wherever an l stands among them; -1 if there is none. */
  function Width(body: string): int {
    var ds := DigitsIn(BeforePoint(body));
    if ds == [] then -1 else Value(ds, 10)
  }

  /** What a percent sign begins: how it is to be converted, and how many characters say so. */
  datatype Directive = Cut | Percent | Spec(zero: bool, width: int, letter: char, length: nat)

  function DirectiveAt(fmt: string): (d: Directive)
    requires fmt != [] && fmt[0] == '%'
    ensures d.Spec? ==> 0 < d.length <= |fmt|
    ensures d.Percent? ==> |fmt| >= 2
  {
    if |fmt| == 1 then Cut
    else if fmt[1] == '%' then Percent
    else
      var b := if fmt[1] == '0' then 2 else 1;
      var n := BodyLength(fmt[b..]);
      if b + n == |fmt| then Cut else Spec(fmt[1] == '0', Width(fmt[b..b + n]), fmt[b + n], b + n + 1)
  }

  predicate TakesWord(letter: char) { letter in {'d', 'i', 'u', 'o', 'x', 'X', 'c'} }

  /** The arguments are those the format asks for, in order. */
  predicate Fits(fmt: string, args: seq<Arg>)
    decreases |fmt|
  {
    if fmt == [] then true
    else if fmt[0] != '%' then Fits(fmt[1..], args)
    else
      match DirectiveAt(fmt)
      case Cut => true
      case Percent => Fits(fmt[2..], args)
      case Spec(_, _, letter, length) =>
        if TakesWord(letter) then args != [] && args[0].Number? && Fits(fmt[length..], args[1..])
        else if letter == 's' then args != [] && args[0].Text? && Fits(fmt[length..], args[1..])
        else Fits(fmt[length..], args)
  }

  predicate Suits(letter: char, args: seq<Arg>) {
    && (TakesWord(letter) ==> args != [] && args[0].Number?)
    && (letter == 's' ==> args != [] && args[0].Text?)
  }

  /** One conversion. */
  function Converted(letter: char, zero: bool, width: int, args: seq<Arg>): string
    requires Suits(letter, args)
  {
    if letter == 'd' || letter == 'i' then Conversion(args[0].v, true, 10, false, width, zero)
    else if letter == 'u' then Conversion(args[0].v, false, 10, false, width, zero)
    else if letter == 'o' then Conversion(args[0].v, false, 8, false, width, zero)
    else if letter == 'x' then Conversion(args[0].v, false, 16, false, width, zero)
    else if letter == 'X' then Conversion(args[0].v, false, 16, true, width, zero)
    else if letter == 'c' then Repeat(' ', width - 1) + [(args[0].v % 256) as char]
    else if letter == 's' then Repeat(' ', width - |args[0].s|) + args[0].s
    else ""
  }

  /** The whole output: plain characters as they are, directives converted, an unfinished directive dropped. */
  function Render(fmt: string, args: seq<Arg>): string
    requires Fits(fmt, args)
    decreases |fmt|
  {
    if fmt == [] then ""
    else if fmt[0] != '%' then [fmt[0]] + Render(fmt[1..], args)
    else
      match DirectiveAt(fmt)
      case Cut => ""
      case Percent => "%" + Render(fmt[2..], args)
      case Spec(zero, width, letter, length) =>
        Converted(letter, zero, width, args)
        + Render(fmt[length..], if TakesWord(letter) || letter == 's' then args[1..] else args)
  }

  lemma {:induction false} NoPoint(body: string)
    requires '.' !in body
    ensures BeforePoint(body) == body
  {
    if body != [] {
      NoPoint(body[1..]);
      assert body == [body[0]] + body[1..];
    }
  }

  lemma {:induction false} PastPoint(body: string, c: char)
    requires '.' in body
    ensures BeforePoint(body + [c]) == BeforePoint(body)
  {
    if body[0] != '.' {
      assert body == [body[0]] + body[1..];
      PastPoint(body[1..], c);
      assert (body + [c])[1..] == body[1..] + [c];
    }
  }

  lemma {:induction false} AtPoint(body: string)
    requires '.' !in body
    ensures BeforePoint(body + ['.']) == body
  {
    if body != [] {
      AtPoint(body[1..]);
      assert (body + ['.'])[1..] == body[1..] + ['.'];
      assert body == [body[0]] + body[1..];
    }
  }

  lemma DigitsOneMore(s: string, c: char)
    ensures DigitsIn(s + [c]) == DigitsIn(s) + (if '0' <= c <= '9' then [(c - '0') as nat] else [])
  {
    assert (s + [c])[..|s|] == s;
  }

  /** How the width grows with one more format character. */
  lemma WidthStep(body: string, c: char)
    requires FormatChar(c)
    ensures Width(body) >= -1
    ensures Width(body + [c])
            == if '.' in body || c == '.' || c == 'l' then Width(body)
               else (if Width(body) < 0 then 0 else Width(body) * 10) + (c - '0') as nat
  {
    hide DigitsIn, Value;
    if '.' in body {
      PastPoint(body, c);
    } else if c == '.' {
      AtPoint(body);
      NoPoint(body);
    } else {
      NoPoint(body);
      NoPoint(body + [c]);
      DigitsOneMore(body, c);
      var ds := DigitsIn(body);
      if c != 'l' {
        var d := (c - '0') as nat;
        ValueMore(ds, d, 10);
        NoValue(10);
        assert Width(body + [c]) == Value(ds + [d], 10);
      } else {
        assert DigitsIn(body + [c]) == ds + [] == ds;
      }
    }
  }

  lemma WidthOfNone()
    ensures Width("") == -1
  {
  }

  lemma {:induction false} BodyEnds(s: string, n: nat)
    requires n <= |s| && (forall k :: 0 <= k < n ==> FormatChar(s[k])) && (n < |s| ==> !FormatChar(s[n]))
    ensures BodyLength(s) == n
  {
    if n > 0 {
      BodyEnds(s[1..], n - 1);
    }
  }

  // ----- what each letter prints -----

  /** Format characters between the percent sign, with its zero flag, and the letter. */
  ghost predicate Body(zero: bool, w: string, letter: char) {
    && (forall k :: 0 <= k < |w| ==> w[k] in ".l0123456789") && (!zero && w != "" ==> w[0] != '0')
    && letter !in ".l0123456789%"
  }

  function Written(zero: bool, w: string, letter: char): string {
    "%" + (if zero then "0" else "") + w + [letter]
  }

  lemma BodyChars(zero: bool, w: string, letter: char)
    requires Body(zero, w, letter)
    ensures (forall k :: 0 <= k < |w| ==> FormatChar(w[k])) && !FormatChar(letter) && letter != '%'
  {
    hide FormatChar;
    FormatCharIs(letter);
    forall k | 0 <= k < |w|
      ensures FormatChar(w[k])
    {
      FormatCharIs(w[k]);
    }
  }

  lemma FormatCharIs(c: char)
    ensures FormatChar(c) <==> c in ".l0123456789"
  {
    assert c in ".l0123456789" <==>
      c == '.' || c == 'l' || c == '0' || c == '1' || c == '2' || c == '3' || c == '4' || c == '5' || c == '6' || c == '7'
      || c == '8' || c == '9';
  }

  lemma DirectiveRead(zero: bool, w: string, letter: char, rest: string)
    requires Body(zero, w, letter)
    ensures DirectiveAt(Written(zero, w, letter) + rest) == Spec(zero, Width(w), letter, |Written(zero, w, letter)|)
    ensures (Written(zero, w, letter) + rest)[|Written(zero, w, letter)|..] == rest
  {
    hide Width, FormatChar;
    BodyChars(zero, w, letter);
    var f := Written(zero, w, letter) + rest;
    var b := if zero then 2 else 1;
    assert f[1] == if zero then '0' else if w == "" then letter else w[0];
    assert f[b..] == w + [letter] + rest;
    NotZero();
    BodyEnds(f[b..], |w|);
    assert f[b..b + |w|] == w;
  }

  lemma NotZero()
    ensures FormatChar('0') && !FormatChar('%')
  {
  }

  /** A directive prints its own argument, and what follows goes on with the others. */
  lemma DirectiveThenRest(zero: bool, w: string, letter: char, rest: string, arg: Arg, args: seq<Arg>)
    requires Body(zero, w, letter) && Fits(rest, args)
    requires if letter == 's' then arg.Text? else TakesWord(letter) && arg.Number?
    ensures Fits(Written(zero, w, letter) + rest, [arg] + args)
    ensures Render(Written(zero, w, letter) + rest, [arg] + args)
            == Converted(letter, zero, Width(w), [arg]) + Render(rest, args)
  {
    hide Width, Body, DirectiveAt, Conversion;
    DirectiveRead(zero, w, letter, rest);
    assert ([arg] + args)[1..] == args;
  }

  lemma DirectiveAlone(zero: bool, w: string, letter: char, arg: Arg)
    requires Body(zero, w, letter)
    requires if letter == 's' then arg.Text? else TakesWord(letter) && arg.Number?
    ensures Fits(Written(zero, w, letter), [arg])
    ensures Render(Written(zero, w, letter), [arg]) == Converted(letter, zero, Width(w), [arg])
  {
    hide Width, Body, Converted, Written, TakesWord;
    DirectiveThenRest(zero, w, letter, "", arg, []);
    assert Written(zero, w, letter) + "" == Written(zero, w, letter) && [arg] + [] == [arg];
  }

  /** A text without percent signs stands for itself. */
  lemma {:induction false} PlainText(text: string, rest: string, args: seq<Arg>)
    requires '%' !in text && Fits(rest, args)
    ensures Fits(text + rest, args) && Render(text + rest, args) == text + Render(rest, args)
  {
    hide DirectiveAt, Converted, TakesWord;
    if text == "" {
      assert text + rest == rest;
    } else {
      PlainText(text[1..], rest, args);
      assert (text + rest)[0] == text[0] && (text + rest)[1..] == text[1..] + rest;
      assert text == [text[0]] + text[1..];
    }
  }

  /** Two percent signs stand for one. */
  lemma TwoPercents(rest: string, args: seq<Arg>)
    requires Fits(rest, args)
    ensures Fits("%%" + rest, args) && Render("%%" + rest, args) == "%" + Render(rest, args)
  {
    hide Converted, TakesWord;
    assert ("%%" + rest)[2..] == rest;
  }

  /** A decimal digit, or a hexadecimal one of the case asked for. */
  predicate DigitOfCase(c: char, base: Base, upper: bool) {
    || '0' <= c <= (if base == 8 then '7' else '9')
    || (base == 16 && if upper then 'A' <= c <= 'F' else 'a' <= c <= 'f')
  }

  /** Digits that read as m, without a zero that could be left out. */
  ghost predicate Numeral(digits: string, m: nat, base: Base, upper: bool) {
    && digits != "" && ReadDigits(digits, base) == m && (|digits| > 1 ==> digits[0] != '0')
    && forall k :: 0 <= k < |digits| ==> DigitOfCase(digits[k], base, upper)
  }

  ghost predicate AllOf(s: string, c: char) {
    forall k :: 0 <= k < |s| ==> s[k] == c
  }

  /** t is the number n in the base: its numeral, a minus in front if it is negative, and up to the width zeros
      between them or blanks before them. */
  ghost predicate Shows(t: string, n: int, base: Base, upper: bool, zero: bool, width: int) {
    exists pad, digits :: ShownBy(t, n, base, upper, zero, width, pad, digits)
  }

  ghost predicate ShownBy(t: string, n: int, base: Base, upper: bool, zero: bool, width: int, pad: string, digits: string) {
    && Laid(t, if n < 0 then "-" else "", pad, digits, zero)
    && Numeral(digits, if n < 0 then -n else n, base, upper)
    && AllOf(pad, if zero then '0' else ' ')
    && (|t| == width || (pad == "" && |t| > width))
  }

  predicate Laid(t: string, sign: string, pad: string, digits: string, zero: bool) {
    t == if zero then sign + pad + digits else pad + sign + digits
  }

  lemma DigitInCase(d: nat, base: Base, upper: bool)
    requires d < base
    ensures DigitOfCase(DigitChar(d, upper), base, upper) && (d != 0 ==> DigitChar(d, upper) != '0')
  {
  }

  lemma NumeralOf(m: nat, base: Base, upper: bool)
    ensures Numeral(Chars(Digits(m, base), upper), m, base, upper)
  {
    hide Digits, DigitChar, ReadDigits, DigitOfCase, Value;
    var ds := Digits(m, base);
    DigitsCanonical(m, base);
    ReadChars(ds, upper, base);
    forall k | 0 <= k < |ds|
      ensures DigitOfCase(Chars(ds, upper)[k], base, upper) && (ds[k] != 0 ==> Chars(ds, upper)[k] != '0')
    {
      DigitInCase(ds[k], base, upper);
    }
  }

  lemma ConversionShows(v: Word, signed: bool, base: Base, upper: bool, width: int, zero: bool)
    ensures Shows(Conversion(v, signed, base, upper, width, zero), Number(v, signed), base, upper, zero, width)
  {
    hide Digits, Chars, Numeral;
    var t, n := Conversion(v, signed, base, upper, width, zero), Number(v, signed);
    var digits := Chars(Digits(Magnitude(v, signed), base), upper);
    var sign := if n < 0 then "-" else "";
    var pad := Repeat(if zero then '0' else ' ', width - |digits| - |sign|);
    NumeralOf(Magnitude(v, signed), base, upper);
    assert ShownBy(t, n, base, upper, zero, width, pad, digits);
  }

  /** The integer letters, each in its base and with its sign. */
  lemma IntegerLetters(zero: bool, w: string, letter: char, v: Word)
    requires Body(zero, w, letter) && letter in {'d', 'i', 'u', 'o', 'x', 'X'}
    ensures Fits(Written(zero, w, letter), [Arg.Number(v)])
    ensures var t := Render(Written(zero, w, letter), [Arg.Number(v)]);
            var n := if v < 0x8000_0000 then v else v - 0x1_0000_0000;
            && (letter == 'd' || letter == 'i' ==> ReadNumber(t, 10) == n && Shows(t, n, 10, false, zero, Width(w)))
            && (letter == 'u' ==> ReadNumber(t, 10) == v && Shows(t, v, 10, false, zero, Width(w)))
            && (letter == 'o' ==> ReadNumber(t, 8) == v && Shows(t, v, 8, false, zero, Width(w)))
            && (letter == 'x' ==> ReadNumber(t, 16) == v && Shows(t, v, 16, false, zero, Width(w)))
            && (letter == 'X' ==> ReadNumber(t, 16) == v && Shows(t, v, 16, true, zero, Width(w)))
  {
    hide Body, Written, Width, Conversion, Shows, ReadNumber, Render, Fits;
    DirectiveAlone(zero, w, letter, Arg.Number(v));
    var signed, base: Base := letter == 'd' || letter == 'i', 10;
    if letter == 'o' {
      base := 8;
    } else if letter == 'x' || letter == 'X' {
      base := 16;
    }
    ConversionShows(v, signed, base, letter == 'X', Width(w), zero);
    ConversionReadsBack(v, signed, base, letter == 'X', Width(w), zero);
  }

  /** t is the text with blanks in front of it up to the width. */
  ghost predicate EndsIn(t: string, text: string, width: int) {
    && |t| == (if width > |text| then width else |text|)
    && t[|t| - |text|..] == text && AllOf(t[..|t| - |text|], ' ')
  }

  lemma BlanksBefore(text: string, width: int)
    ensures EndsIn(Repeat(' ', width - |text|) + text, text, width)
  {
    var pad := Repeat(' ', width - |text|);
    assert (pad + text)[|pad|..] == text && (pad + text)[..|pad|] == pad;
  }

  /** A character, and a text, at the end of a field filled with blanks, whatever the zero flag. */
  lemma TextLetters(zero: bool, w: string, letter: char, arg: Arg)
    requires Body(zero, w, letter)
    requires (letter == 'c' && arg.Number?) || (letter == 's' && arg.Text?)
    ensures Fits(Written(zero, w, letter), [arg])
    ensures EndsIn(Render(Written(zero, w, letter), [arg]), if letter == 'c' then [(arg.v % 256) as char] else arg.s, Width(w))
  {
    hide Body, Written, Width, Conversion, Render, Fits, EndsIn, Repeat;
    DirectiveAlone(zero, w, letter, arg);
    BlanksBefore(if letter == 'c' then [(arg.v % 256) as char] else arg.s, Width(w));
  }

  /** The digit k places from the last is what k divisions by the base leave, modulo the base. */
  lemma {:induction false} DigitAtPlace(m: nat, base: Base, k: nat)
    requires k < |Digits(m, base)|
    ensures Digits(m, base)[|Digits(m, base)| - 1 - k] == Rest(Shifted(m, base, k), base)
  {
    hide Digits, Rest, Quotient;
    DigitsSplit(m, base);
    if k > 0 {
      DigitAtPlace(Quotient(m, base), base, k - 1);
      ShiftedFirst(m, base, k);
    }
  }

  lemma DigitsSplit(m: nat, base: Base)
    ensures m < base ==> Digits(m, base) == [Rest(m, base)]
    ensures m >= base ==> Quotient(m, base) < m && Digits(m, base) == Digits(Quotient(m, base), base) + [Rest(m, base)]
  {
    Smaller(m, base);
    if m < base {
      assert Digits(m, base) == [m];
    } else {
      assert Digits(m, base) == Digits(m / base, base) + [m % base];
    }
  }

  lemma Smaller(m: nat, base: Base)
    ensures m < base ==> Rest(m, base) == m
    ensures m >= base ==> Quotient(m, base) < m
  {
    if base == 8 {
      assert m >= 8 ==> m / 8 < m;
    } else if base == 10 {
      assert m >= 10 ==> m / 10 < m;
    } else {
      assert base == 16 && (m >= 16 ==> m / 16 < m);
    }
  }

  lemma {:induction false} ShiftedFirst(m: nat, base: Base, k: nat)
    requires k > 0
    ensures Shifted(m, base, k) == Shifted(Quotient(m, base), base, k - 1)
  {
    if k > 1 {
      ShiftedFirst(m, base, k - 1);
    }
  }

  /** A width written in digits is the number they form. */
  lemma {:induction false} WidthWritten(w: string)
    requires forall k :: 0 <= k < |w| ==> '0' <= w[k] <= '9'
    ensures Width(w) == if w == "" then -1 else ReadDigits(w, 10)
  {
    hide Width;
    if w == "" {
      WidthOfNone();
    } else {
      var front, c := w[..|w| - 1], w[|w| - 1];
      WidthWritten(front);
      WidthStep(front, c);
      assert w == front + [c];
    }
  }

  // ----- the log -----

  class Log {
    var out: string

    constructor ()
      ensures out == ""
    {
      out := "";
    }

    method TxChar(c: char)
      modifies this
      ensures out == old(out) + [c]
    {
      out := out + [c];
    }

    method RepChar(c: char, count: int)
      modifies this
      ensures out == old(out) + Repeat(c, count)
    {
      var r := count;
      ghost var done := 0;
      while r > 0
        invariant done == if count > 0 then count - (if r > 0 then r else 0) else 0
        invariant count > 0 ==> r >= 0
        invariant count <= 0 ==> r == count
        invariant out == old(out) + Repeat(c, done)
      {
        assert Repeat(c, done) + [c] == Repeat(c, done + 1);
        r := r - 1;
        TxChar(c);
        done := done + 1;
      }
    }

    /** The biggest place value of v, and how many digits v has. */
    method CountDigits(v: Word, fmtBase: Base) returns (p: Word, digitCount: nat)
      ensures digitCount > 0 && p == Power(fmtBase, digitCount - 1)
      ensures v < Power(fmtBase, digitCount) && (digitCount > 1 ==> p <= v)
    {
      hide Power;
      FirstPlace(fmtBase);
      p := 1;
      digitCount := 1;
      var vShrink: nat := v / fmtBase;
      assert vShrink == Shifted(v, fmtBase, 1) by {
        assert Shifted(v, fmtBase, 0) == v;
      }
      while vShrink > 0
        invariant digitCount > 0 && p == Power(fmtBase, digitCount - 1)
        invariant digitCount > 1 ==> p <= v
        invariant vShrink == Shifted(v, fmtBase, digitCount)
        decreases vShrink
      {
        NextPlace(v, fmtBase, digitCount);
        PlaceUp(fmtBase, digitCount);
        digitCount := digitCount + 1;
        p := p * fmtBase;
        vShrink := vShrink / fmtBase;
      }
      LastPlace(v, fmtBase, digitCount);
    }

    /** Prints the 32-bit word as one conversion; a negative width is none. */
    method PrintInteger(word: Word, fmtSigned: bool, fmtBase: Base, fmtCase: bool, width: int, fmtLeadingZero: bool)
      modifies this
      ensures out == old(out) + Conversion(word, fmtSigned, fmtBase, fmtCase, width, fmtLeadingZero)
    {
      hide Power, Digits, Chars, Repeat, Printing;
      var v: Word := word;
      var sign := false;
      if fmtSigned && v >= 0x8000_0000 {
        v := 0x1_0000_0000 - v;
        sign := true;
      }
      var p, digitCount := CountDigits(v, fmtBase);
      PrintLead(sign, width - digitCount, fmtLeadingZero);
      PrintDigits(v, p, fmtBase, fmtCase, digitCount);
    }

    /** Sign and padding, in the order the zero flag asks for. */
    method PrintLead(sign: bool, room: int, fmtLeadingZero: bool)
      modifies this
      ensures var s := if sign then "-" else "";
              var pad := room - |s|;
              out == old(out) + if fmtLeadingZero then s + Repeat('0', pad) else Repeat(' ', pad) + s
    {
      hide Repeat;
      var fmtBeforeDecimal := room;
      if fmtLeadingZero {
        if sign {
          TxChar('-');
          fmtBeforeDecimal := fmtBeforeDecimal - 1;
        }
        RepChar('0', fmtBeforeDecimal);
      } else {
        if sign {
          fmtBeforeDecimal := fmtBeforeDecimal - 1;
        }
        RepChar(' ', fmtBeforeDecimal);
        if sign {
          TxChar('-');
        }
      }
    }

    /** Prints v from place value p down. */
    method PrintDigits(word: Word, place: Word, fmtBase: Base, fmtCase: bool, ghost digitCount: nat)
      requires digitCount > 0 && place == Power(fmtBase, digitCount - 1)
      requires word < Power(fmtBase, digitCount) && (digitCount > 1 ==> place <= word)
      modifies this
      ensures |Digits(word, fmtBase)| == digitCount
      ensures out == old(out) + Chars(Digits(word, fmtBase), fmtCase)
    {
      hide Power, Digits, Chars, DigitChar, Value, Times, Quotient, Rest, Printing;
      var v: nat, p: nat := word, place;
      ghost var k, last, ds: seq<nat> := digitCount - 1, digitCount - 1, [];
      StartPrinting(word, fmtBase, last);
      NoChars(fmtCase);
      while p != 0
        invariant -1 <= k <= last && |ds| == last - k && Printing(word, fmtBase, ds, v, k, last)
        invariant p == if k < 0 then 0 else Power(fmtBase, k)
        invariant out == old(out) + Chars(ds, fmtCase)
        decreases k + 1
      {
        PrintOne(word, fmtBase, ds, v, k, last);
        var d := Quotient(v, p);
        MoreChars(ds, d, fmtCase);
        ds := ds + [d];
        TxChar(DigitChar(d, fmtCase));
        v := Rest(v, p);
        LowerPlace(fmtBase, k);
        p := p / fmtBase;
        k := k - 1;
      }
      if k >= 0 {
        PowerPositive(fmtBase, k);
      }
      AllPrinted(word, fmtBase, ds, v, last);
    }

    /** The letters that print an integer, each with its base and sign. */
    method ConvertInteger(c: char, v: Word, width: int, zero: bool)
      requires c in {'d', 'i', 'u', 'o', 'x', 'X'}
      modifies this
      ensures out == old(out) + Converted(c, zero, width, [Arg.Number(v)])
    {
      hide Conversion;
      var fmtSigned, fmtBase: Base, fmtCase := c == 'd' || c == 'i', 10, false;
      if c == 'o' {
        fmtBase := 8;
      } else if c == 'x' {
        fmtBase := 16;
      } else if c == 'X' {
        fmtBase := 16;
        fmtCase := true;
      }
      PrintInteger(v, fmtSigned, fmtBase, fmtCase, width, zero);
    }

    /** The switch on the conversion letter; the answer is how many arguments have been used. */
    method Convert(c: char, width: int, zero: bool, args: seq<Arg>, next: nat) returns (used: nat)
      requires next <= |args| && Suits(c, args[next..])
      modifies this
      ensures out == old(out) + Converted(c, zero, width, args[next..])
      ensures used == next + (if TakesWord(c) || c == 's' then 1 else 0)
    {
      hide Conversion, Repeat;
      used := next;
      ghost var rest := args[next..];
      if c == 'd' || c == 'i' || c == 'u' || c == 'o' || c == 'x' || c == 'X' {
        assert rest[0] == args[next];
        ConvertInteger(c, args[next].v, width, zero);
        used := next + 1;
      } else if c == 'c' {
        assert rest[0] == args[next];
        RepChar(' ', width - 1);
        TxChar((args[next].v % 256) as char);
        used := next + 1;
      } else if c == 's' {
        assert rest[0] == args[next];
        PrintText(args[next].s, width);
        used := next + 1;
      }
    }

    method PrintText(s: string, width: int)
      modifies this
      ensures out == old(out) + (Repeat(' ', width - |s|) + s)
    {
      hide Repeat;
      RepChar(' ', width - |s|);
      ghost var lead := out;
      for k := 0 to |s|
        invariant out == lead + s[..k]
      {
        TxChar(s[k]);
        assert s[..k + 1] == s[..k] + [s[k]];
      }
      assert s[..|s|] == s;
    }

    /** The format state machine prints what the format means. */
    method Printf(fmt: string, args: seq<Arg>)
      requires Fits(fmt, args)
      modifies this
      ensures out == old(out) + Render(fmt, args)
    {
      hide Converted, TakesWord, Width, Render, Fits, InBody;
      var state := PlainChars;
      var fmtLeadingZero := false;
      var fmtBeforeDecimal: int, fmtAfterDecimal: int := 0, 0;
      var next: nat := 0;
      ghost var at, b: nat := 0, 0;
      assert fmt[0..] == fmt && args[0..] == args;
      for i := 0 to |fmt|
        invariant next <= |args| && at <= i && Fits(fmt[at..], args[next..])
        invariant old(out) + Render(fmt, args) == out + Render(fmt[at..], args[next..])
        invariant state == PlainChars ==> at == i
        invariant state != PlainChars ==> at < i && fmt[at] == '%'
        invariant state == FirstFmtChar ==>
          i == at + 1 && !fmtLeadingZero && fmtBeforeDecimal == -1 && fmtAfterDecimal == -1
        invariant state == OtherFmtChar ==>
          InBody(fmt, at, b, i, fmtLeadingZero, fmtBeforeDecimal, fmtAfterDecimal)
      {
        var c := fmt[i];
        if state == PlainChars {
          if c == '%' {
            fmtLeadingZero, fmtBeforeDecimal, fmtAfterDecimal := false, -1, -1;
            state := FirstFmtChar;
          } else {
            PlainStep(fmt[at..], args[next..]);
            TxChar(c);
            at := i + 1;
          }
        } else {
          var other := state == OtherFmtChar;
          if state == FirstFmtChar {
            if c == '0' {
              fmtLeadingZero := true;
              state := OtherFmtChar;
              b := i + 1;
              BodyStarts(fmt, at, b, true);
            } else if c == '%' {
              PercentStep(fmt[at..], args[next..]);
              TxChar(c);
              state := PlainChars;
              at := i + 1;
            } else {
              state := OtherFmtChar;
              other := true;
              b := i;
              BodyStarts(fmt, at, b, false);
            }
          }
          if other {
            if c == '.' {
              BodyGrows(fmt, at, b, i, fmtLeadingZero, fmtBeforeDecimal, fmtAfterDecimal);
              fmtAfterDecimal := 0;
            } else if '0' <= c <= '9' {
              BodyGrows(fmt, at, b, i, fmtLeadingZero, fmtBeforeDecimal, fmtAfterDecimal);
              var d := (c - '0') as nat;
              if fmtAfterDecimal < 0 {
                if fmtBeforeDecimal < 0 {
                  fmtBeforeDecimal := 0;
                } else {
                  fmtBeforeDecimal := fmtBeforeDecimal * 10;
                }
                fmtBeforeDecimal := fmtBeforeDecimal + d;
              } else {
                fmtAfterDecimal := fmtAfterDecimal * 10 + d;
              }
            } else if c == 'l' {
              BodyGrows(fmt, at, b, i, fmtLeadingZero, fmtBeforeDecimal, fmtAfterDecimal);
            } else {
              LetterStep(fmt, at, b, i, fmtLeadingZero, fmtBeforeDecimal, fmtAfterDecimal, args[next..]);
              ghost var rest := args[next..];
              next := Convert(c, fmtBeforeDecimal, fmtLeadingZero, args, next);
              assert args[next..] == if TakesWord(c) || c == 's' then rest[1..] else rest;
              state := PlainChars;
              at := i + 1;
            }
          }
        }
      }
      Unfinished(fmt, at, b, state, fmtLeadingZero, fmtBeforeDecimal, fmtAfterDecimal, args[next..]);
    }
  }

  datatype State = PlainChars | FirstFmtChar | OtherFmtChar

  /** A directive begins at `at`, its flags at b, and the variables say what stands between b and i. */
  ghost predicate InBody(fmt: string, at: nat, b: nat, i: nat, zero: bool, before: int, after: int) {
    && at + 1 <= b <= i <= |fmt| && fmt[at] == '%'
    && b == (if zero then at + 2 else at + 1)
    && (if zero then fmt[at + 1] == '0' else b < |fmt| && fmt[b] != '0' && fmt[b] != '%')
    && (forall k :: b <= k < i ==> FormatChar(fmt[k]))
    && before == Width(fmt[b..i]) && after >= -1 && (after >= 0 <==> '.' in fmt[b..i])
  }

  lemma PlainStep(fmt: string, args: seq<Arg>)
    requires fmt != [] && fmt[0] != '%' && Fits(fmt, args)
    ensures Fits(fmt[1..], args) && Render(fmt, args) == [fmt[0]] + Render(fmt[1..], args)
  {
  }

  lemma PercentStep(fmt: string, args: seq<Arg>)
    requires |fmt| >= 2 && fmt[0] == '%' && fmt[1] == '%' && Fits(fmt, args)
    ensures Fits(fmt[2..], args) && Render(fmt, args) == "%" + Render(fmt[2..], args)
  {
  }

  lemma BodyStarts(fmt: string, at: nat, b: nat, zero: bool)
    requires at + 1 < |fmt| && fmt[at] == '%' && b == (if zero then at + 2 else at + 1)
    requires if zero then fmt[at + 1] == '0' else fmt[b] != '0' && fmt[b] != '%'
    ensures InBody(fmt, at, b, b, zero, -1, -1)
  {
    WidthOfNone();
    assert fmt[b..b] == "";
  }

  lemma BodyGrows(fmt: string, at: nat, b: nat, i: nat, zero: bool, before: int, after: int)
    requires InBody(fmt, at, b, i, zero, before, after) && i < |fmt| && FormatChar(fmt[i])
    ensures var c := fmt[i];
            && (c == '.' ==> InBody(fmt, at, b, i + 1, zero, before, 0))
            && (c == 'l' ==> InBody(fmt, at, b, i + 1, zero, before, after))
            && ('0' <= c <= '9' && after < 0 ==>
                  InBody(fmt, at, b, i + 1, zero, (if before < 0 then 0 else before * 10) + (c - '0') as nat, after))
            && ('0' <= c <= '9' && after >= 0 ==>
                  InBody(fmt, at, b, i + 1, zero, before, after * 10 + (c - '0') as nat))
  {
    hide Width;
    WidthStep(fmt[b..i], fmt[i]);
    assert fmt[b..i + 1] == fmt[b..i] + [fmt[i]];
  }

  /** The letter that ends a directive. */
  lemma LetterStep(fmt: string, at: nat, b: nat, i: nat, zero: bool, before: int, after: int, args: seq<Arg>)
    requires InBody(fmt, at, b, i, zero, before, after) && i < |fmt| && !FormatChar(fmt[i])
    requires Fits(fmt[at..], args)
    ensures Suits(fmt[i], args)
    ensures var rest := if TakesWord(fmt[i]) || fmt[i] == 's' then args[1..] else args;
            && Fits(fmt[i + 1..], rest)
            && Render(fmt[at..], args) == Converted(fmt[i], zero, before, args) + Render(fmt[i + 1..], rest)
  {
    hide Width, Converted, DirectiveAt, InBody, FormatChar;
    DirectiveIs(fmt, at, b, i, zero, before, after);
    assert fmt[at..][i + 1 - at..] == fmt[i + 1..];
    SpecStep(fmt[at..], args);
  }

  lemma DirectiveIs(fmt: string, at: nat, b: nat, i: nat, zero: bool, before: int, after: int)
    requires InBody(fmt, at, b, i, zero, before, after) && i < |fmt| && !FormatChar(fmt[i])
    ensures fmt[at] == '%' && DirectiveAt(fmt[at..]) == Spec(zero, before, fmt[i], i + 1 - at)
  {
    hide Width, FormatChar, BodyLength;
    BodyEnds(fmt[b..], i - b);
    WithinTail(fmt, at, b, i);
    SpecAt(fmt[at..], zero, i - b);
  }

  /** The same body, counted from the percent sign. */
  lemma WithinTail(fmt: string, at: nat, b: nat, i: nat)
    requires at <= b <= i <= |fmt|
    ensures fmt[at..][b - at..] == fmt[b..] && fmt[at..][b - at..i - at] == fmt[b..i]
  {
  }

  lemma SpecAt(f: string, zero: bool, n: nat)
    requires |f| >= 2 && f[0] == '%' && f[1] != '%' && (f[1] == '0') == zero
    requires var b := if zero then 2 else 1;
             b + n < |f| && BodyLength(f[b..]) == n
    ensures var b := if zero then 2 else 1;
            DirectiveAt(f) == Spec(zero, Width(f[b..b + n]), f[b + n], b + n + 1)
  {
    hide Width, BodyLength;
  }

  lemma SpecStep(f: string, args: seq<Arg>)
    requires f != [] && f[0] == '%' && DirectiveAt(f).Spec? && Fits(f, args)
    ensures var d := DirectiveAt(f);
            var rest := if TakesWord(d.letter) || d.letter == 's' then args[1..] else args;
            && Suits(d.letter, args) && Fits(f[d.length..], rest)
            && Render(f, args) == Converted(d.letter, d.zero, d.width, args) + Render(f[d.length..], rest)
  {
    hide DirectiveAt, Converted;
  }

  /** A format that ends within a directive prints nothing for it. */
  lemma Unfinished(fmt: string, at: nat, b: nat, state: State, zero: bool, before: int, after: int, args: seq<Arg>)
    requires at <= |fmt| && Fits(fmt[at..], args)
    requires state == PlainChars ==> at == |fmt|
    requires state == FirstFmtChar ==> |fmt| == at + 1 && fmt[at] == '%'
    requires state == OtherFmtChar ==> InBody(fmt, at, b, |fmt|, zero, before, after)
    ensures Render(fmt[at..], args) == ""
  {
    hide Width;
    if state == OtherFmtChar {
      BodyEnds(fmt[b..], |fmt| - b);
      var f := fmt[at..];
      assert f[b - at..] == fmt[b..];
    }
  }

  lemma FirstPlace(base: Base)
    ensures Power(base, 0) == 1
  {
  }

  lemma PlaceUp(base: Base, k: nat)
    requires k > 0
    ensures Power(base, k) == Times(Power(base, k - 1), base)
  {
  }

  lemma NoChars(upper: bool)
    ensures Chars([], upper) == ""
  {
  }

  lemma MoreChars(ds: seq<nat>, d: nat, upper: bool)
    requires d < 16 && forall k :: 0 <= k < |ds| ==> ds[k] < 16
    ensures Chars(ds + [d], upper) == Chars(ds, upper) + [DigitChar(d, upper)]
  {
  }
}
