/** Number printing: src/term/term_printf.c. The characters a call prints are its result. */
module Numbers {
  import opened Machine

  // ---------------------------------------------------------------- numerals

  function Pow(b: nat, m: nat): (r: nat)
    ensures 0 < b ==> 0 < r
  {
    if m == 0 then 1 else b * Pow(b, m - 1)
  }

  /** The digits that a printing loop emits for `x` while its divisor goes down from `d`. */
  function Digits(x: nat, d: nat, b: nat): seq<nat>
    requires 2 <= b
    decreases d
  {
    if d == 0 then [] else [x / d % b] + Digits(x, d / b, b)
  }

  /** The number that a row of digits denotes. */
  function Value(ds: seq<nat>, b: nat): nat {
    if ds == [] then 0 else Value(ds[..|ds| - 1], b) * b + ds[|ds| - 1]
  }

  /** `ds` is the numeral of `x`: its value is `x`, every digit is a digit, there is at least
      one, and the first is not 0 unless it is the only one. */
  ghost predicate Numeral(ds: seq<nat>, x: nat, b: nat) {
    && Value(ds, b) == x && ds != [] && (|ds| > 1 ==> ds[0] != 0)
    && forall i :: 0 <= i < |ds| ==> ds[i] < b
  }

  lemma {:induction false} ValueBound(ds: seq<nat>, b: nat)
    requires 2 <= b && forall i :: 0 <= i < |ds| ==> ds[i] < b
    ensures Value(ds, b) < Pow(b, |ds|)
  {
    if ds != [] {
      var front := ds[..|ds| - 1];
      ValueBound(front, b);
      MulStep(Value(front, b), Pow(b, |front|), b, ds[|ds| - 1]);
    }
  }

  lemma MulStep(v: nat, p: nat, b: nat, d: nat)
    requires v < p && d < b
    ensures v * b + d < b * p
  {
    assert (v + 1) * b <= p * b;
  }

  /** Dividing by `b` and then by `d` is dividing by `b * d`. */
  lemma DivDiv(x: nat, b: nat, d: nat)
    requires 0 < b && 0 < d
    ensures 0 < b * d && x / (b * d) == x / b / d
  {
    var y := x / b;
    var q := y / d;
    var r := y % d;
    var s := x % b;
    assert x == b * y + s && y == d * q + r;
    assert b * (d * q + r) == b * d * q + b * r;
    var t := b * r + s;
    assert x == b * d * q + t;
    MulStep(r, d, b, s);
    Quotient(x, b * d, q, t);
  }

  lemma Mono(y: nat, a: nat, c: nat)
    ensures a <= c ==> y * a <= y * c
  {
  }

  lemma Quotient(x: nat, y: nat, q: nat, t: nat)
    requires x == y * q + t && t < y
    ensures x / y == q
  {
    var p := x / y;
    assert x == y * p + x % y;
    Mono(y, p + 1, q);
    Mono(y, q + 1, p);
  }

  lemma PowDown(b: nat, m: nat)
    requires 2 <= b
    ensures Pow(b, m + 1) == b * Pow(b, m) && Pow(b, m + 1) / b == Pow(b, m)
  {
    Quotient(Pow(b, m + 1), b, Pow(b, m), 0);
  }

  /** `x` without its last digit, and that digit. */
  function Front(x: nat, b: nat): nat
    requires 0 < b
  {
    x / b
  }

  function Last(x: nat, b: nat): nat
    requires 0 < b
  {
    x % b
  }

  /** From the divisor b^m the loop prints the digits of x / b, then the last digit of x. */
  lemma {:induction false} DigitsLast(x: nat, m: nat, b: nat)
    requires 2 <= b
    ensures Digits(x, Pow(b, m + 1), b) == Digits(Front(x, b), Pow(b, m), b) + [Last(x, b)]
  {
    hide Pow;
    PowDown(b, m);
    DivDiv(x, b, Pow(b, m));
    if m == 0 {
      PowZero(b);
      assert Digits(x, 1, b) == [x % b] + Digits(x, 0, b) by { SmallDiv(b); }
      assert Digits(x / b, 1, b) == [x / b % b] by { SmallDiv(b); }
    } else {
      PowDown(b, m - 1);
      DigitsLast(x, m - 1, b);
    }
  }

  lemma PowZero(b: nat)
    ensures Pow(b, 0) == 1
  {
  }

  lemma SmallDiv(b: nat)
    requires 2 <= b
    ensures 1 / b == 0
  {
  }

  lemma DigitsOne(x: nat, b: nat)
    requires 2 <= b && x < b
    ensures Digits(x, 1, b) == [x]
  {
    SmallDiv(b);
    Quotient(x, b, 0, x);
    assert x % b == x;
  }

  lemma ValueLast(front: seq<nat>, d: nat, b: nat)
    ensures Value(front + [d], b) == Value(front, b) * b + d
  {
    assert (front + [d])[..|front|] == front;
  }

  /** `ds` is `n` digits long and denotes `x`. */
  ghost predicate Denotes(ds: seq<nat>, x: nat, b: nat, n: nat) {
    Value(ds, b) == x && |ds| == n && forall i :: 0 <= i < |ds| ==> ds[i] < b
  }

  lemma DenotesOne(x: nat, b: nat)
    requires x < b
    ensures Denotes([x], x, b, 1)
  {
    ValueLast([], x, b);
    ValueNone(b);
    assert [] + [x] == [x];
  }

  lemma DenotesNext(ds: seq<nat>, x: nat, b: nat, n: nat)
    requires 0 < b && Denotes(ds, Front(x, b), b, n)
    ensures Denotes(ds + [Last(x, b)], x, b, n + 1)
  {
    hide Value;
    ValueLast(ds, x % b, b);
  }

  lemma PowDiv(x: nat, m: nat, b: nat)
    requires 2 <= b && x < Pow(b, m + 1)
    ensures Front(x, b) < Pow(b, m)
  {
    DivBelow(x, Pow(b, m), b);
  }

  lemma PowOne(b: nat)
    ensures Pow(b, 0) == 1 && Pow(b, 1) == b
  {
  }

  /** From the divisor b^m the loop prints the m + 1 digits of any x below b^(m+1). */
  lemma {:induction false} DigitsValue(x: nat, m: nat, b: nat)
    requires 2 <= b && x < Pow(b, m + 1)
    ensures Denotes(Digits(x, Pow(b, m), b), x, b, m + 1)
    decreases m
  {
    hide Pow, Digits, Denotes, Front, Last;
    if m == 0 {
      PowOne(b);
      DigitsOne(x, b);
      DenotesOne(x, b);
    } else {
      PowDiv(x, m, b);
      DigitsLast(x, m - 1, b);
      DigitsValue(Front(x, b), m - 1, b);
      DenotesNext(Digits(Front(x, b), Pow(b, m - 1), b), x, b, m);
    }
  }

  lemma ValueNone(b: nat)
    ensures Value([], b) == 0
  {
  }

  lemma DivBelow(x: nat, p: nat, b: nat)
    requires 0 < b && x < b * p
    ensures x / b < p && x == x / b * b + x % b && x % b < b
  {
    Mono(b, p, x / b);
  }

  /** With b^m not above x there is no leading zero. */
  lemma DigitsNumeral(x: nat, m: nat, b: nat)
    requires 2 <= b && x < Pow(b, m + 1) && (Pow(b, m) <= x || m == 0)
    ensures Numeral(Digits(x, Pow(b, m), b), x, b)
  {
    hide Pow, Digits, Value;
    DigitsValue(x, m, b);
    if m > 0 {
      FirstDigit(x, Pow(b, m), b);
      PowDown(b, m);
      LeadingDigit(x, Pow(b, m), b);
    }
  }

  lemma FirstDigit(x: nat, d: nat, b: nat)
    requires 2 <= b && 0 < d
    ensures Digits(x, d, b) != [] && Digits(x, d, b)[0] == x / d % b
  {
  }

  lemma LeadingDigit(x: nat, p: nat, b: nat)
    requires 0 < b && 0 < p <= x < b * p
    ensures x / p % b != 0
  {
    var q := x / p;
    DivBelow(x, b, p);
    Mono(p, q, 0);
    Quotient(q, b, 0, q);
    assert q % b == q - b * (q / b);
  }

  // ---------------------------------------------------------------- characters

  /** The character printed for a digit. */
  function Glyph(d: nat, upper: bool): nat {
    if d < 10 then 48 + d else 65 + (d - 10) + (if upper then 0 else 32)
  }

  /** The digit that a character stands for. */
  function Digit(c: nat): nat {
    if 97 <= c then c - 87 else if 65 <= c then c - 55 else if 48 <= c then c - 48 else 0
  }

  /** Every character is a decimal digit. */
  predicate AllDecimal(out: seq<nat>) {
    forall i :: 0 <= i < |out| ==> '0' as int <= out[i] <= '9' as int
  }

  /** Every character is a hexadecimal digit, with letters of the case asked for. */
  predicate AllHex(out: seq<nat>, upper: bool) {
    forall i :: 0 <= i < |out| ==>
      || '0' as int <= out[i] <= '9' as int
      || (upper && 'A' as int <= out[i] <= 'F' as int)
      || (!upper && 'a' as int <= out[i] <= 'f' as int)
  }

  function Decoded(out: seq<nat>): seq<nat> {
    seq(|out|, (i: nat) requires i < |out| => Digit(out[i]))
  }

  lemma DecodedNext(out: seq<nat>, d: nat, upper: bool)
    requires d < 16
    ensures Decoded(out + [Glyph(d, upper)]) == Decoded(out) + [d]
  {
    assert Digit(Glyph(d, upper)) == d;
  }

  // ---------------------------------------------------------------- decimal

  const BILLION: nat := 1000000000

  /** The largest divisor that wrapping ever yields. */
  const LARGEST: nat := 4135583744

  /** The divisor of `term_print_decu` after `k` steps, in 32 bits. */
  function Wrapped(k: nat): (r: nat)
    ensures r < U32
  {
    if k == 0 then 1 else Wrapped(k - 1) * 10 % U32
  }

  /** Up to a billion the divisor is the power of ten. */
  lemma WrappedLow()
    ensures forall k :: 0 <= k <= 9 ==> Wrapped(k) == Pow(10, k)
    ensures Pow(10, 9) == BILLION
  {
    assert Wrapped(1) == 10;
    assert Wrapped(2) == 100;
    assert Wrapped(3) == 1000;
    assert Wrapped(4) == 10000;
    assert Wrapped(5) == 100000;
    assert Wrapped(6) == 1000000;
    assert Wrapped(7) == 10000000;
    assert Wrapped(8) == 100000000;
    assert Wrapped(9) == 1000000000;
    assert Pow(10, 1) == 10;
    assert Pow(10, 2) == 100;
    assert Pow(10, 3) == 1000;
    assert Pow(10, 4) == 10000;
    assert Pow(10, 5) == 100000;
    assert Pow(10, 6) == 1000000;
    assert Pow(10, 7) == 10000000;
    assert Pow(10, 8) == 100000000;
    assert Pow(10, 9) == 1000000000;
  }

  lemma WrappedHigh()
    ensures Wrapped(32) == 0 && Wrapped(23) == LARGEST
    ensures forall k :: 0 <= k <= 32 ==> Wrapped(k) <= LARGEST
  {
    assert Wrapped(1) == 10;
    assert Wrapped(2) == 100;
    assert Wrapped(3) == 1000;
    assert Wrapped(4) == 10000;
    assert Wrapped(5) == 100000;
    assert Wrapped(6) == 1000000;
    assert Wrapped(7) == 10000000;
    assert Wrapped(8) == 100000000;
    assert Wrapped(9) == 1000000000;
    assert Wrapped(10) == 1410065408;
    assert Wrapped(11) == 1215752192;
    assert Wrapped(12) == 3567587328;
    assert Wrapped(13) == 1316134912;
    assert Wrapped(14) == 276447232;
    assert Wrapped(15) == 2764472320;
    assert Wrapped(16) == 1874919424;
    assert Wrapped(17) == 1569325056;
    assert Wrapped(18) == 2808348672;
    assert Wrapped(19) == 2313682944;
    assert Wrapped(20) == 1661992960;
    assert Wrapped(21) == 3735027712;
    assert Wrapped(22) == 2990538752;
    assert Wrapped(23) == 4135583744;
    assert Wrapped(24) == 2701131776;
    assert Wrapped(25) == 1241513984;
    assert Wrapped(26) == 3825205248;
    assert Wrapped(27) == 3892314112;
    assert Wrapped(28) == 268435456;
    assert Wrapped(29) == 2684354560;
    assert Wrapped(30) == 1073741824;
    assert Wrapped(31) == 2147483648;
    assert Wrapped(32) == 0;
  }

  lemma {:induction false} SmallDigits(x: nat, d: nat, b: nat)
    requires 2 <= b
    ensures forall i :: 0 <= i < |Digits(x, d, b)| ==> Digits(x, d, b)[i] < b
    decreases d
  {
    if d > 0 {
      SmallDigits(x, d / b, b);
      assert x / d % b < b;
    }
  }

  lemma LengthStep(x: nat, d: nat)
    requires 0 < d
    ensures |Digits(x, d, 10)| == 1 + |Digits(x, d / 10, 10)|
  {
  }

  /** A divisor of m + 1 decimal digits prints m + 1 digits. */
  lemma {:induction false} DigitCount(x: nat, d: nat, m: nat)
    requires Pow(10, m) <= d < Pow(10, m + 1)
    ensures |Digits(x, d, 10)| == m + 1
    decreases m
  {
    hide Digits, Pow;
    PowDown(10, m);
    LengthStep(x, d);
    if m == 0 {
      PowOne(10);
      NoDigits(x);
    } else {
      PowDown(10, m - 1);
      DigitCount(x, d / 10, m - 1);
    }
  }

  lemma NoDigits(x: nat)
    ensures Digits(x, 0, 10) == []
  {
  }

  /** What is printed from a wrapped divisor is no numeral of a number from a billion on. */
  lemma WrappedFails(x: nat, d: nat)
    requires BILLION <= x && 100000000 <= d < BILLION
    ensures !Numeral(Digits(x, d, 10), x, 10)
  {
    hide Digits, Value, Pow;
    WrappedLow();
    PowDown(10, 8);
    DigitCount(x, d, 8);
    SmallDigits(x, d, 10);
    ValueBound(Digits(x, d, 10), 10);
  }

  /** From the right divisor the numeral of a number below a billion is printed. */
  lemma UnwrappedPrints(x: nat, k: nat)
    requires x < BILLION && x < Wrapped(k) && forall j :: 0 <= j < k ==> Wrapped(j) <= x
    ensures var d := Wrapped(k) / 10; Numeral(Digits(x, if d == 0 then 1 else d, 10), x, 10)
  {
    hide Digits, Value, Pow, Wrapped;
    WrappedLow();
    AtMostNine(x, k);
    if k == 0 {
      PowOne(10);
      DigitsNumeral(x, 0, 10);
    } else {
      PowDown(10, k - 1);
      DigitsNumeral(x, k - 1, 10);
    }
  }

  /** The first loop of `term_print_decu`: the first divisor above `x`. `hangs` is the loop
      running for ever, which it does once its divisor has wrapped to 0. */
  method FirstDivisor(x: nat) returns (divisor: nat, hangs: bool, ghost k: nat)
    requires x < U32
    ensures hangs <==> LARGEST <= x
    ensures !hangs ==> x < divisor == Wrapped(k) && forall j :: 0 <= j < k ==> Wrapped(j) <= x
  {
    hide Pow, Wrapped;
    WrappedHigh();
    WrappedFirst();
    divisor, hangs, k := 1, false, 0;
    while divisor <= x
      invariant k <= 32 && divisor == Wrapped(k) && forall j :: 0 <= j < k ==> Wrapped(j) <= x
      decreases 32 - k
    {
      if divisor == 0 {
        NoneAbove(x, k);
        hangs := true;
        return;
      }
      WrappedNext(k);
      divisor := divisor * 10 % U32;
      k := k + 1;
    }
  }

  /** Once the divisor is 0 every power has been passed. */
  lemma NoneAbove(x: nat, k: nat)
    requires k <= 32 && Wrapped(k) == 0 && forall j :: 0 <= j < k ==> Wrapped(j) <= x
    ensures LARGEST <= x
  {
    hide Wrapped, Pow;
    WrappedHigh();
    if k < 23 {
      StaysZero(k, 23);
    } else {
      assert k != 23;
    }
  }

  lemma {:induction false} StaysZero(k: nat, n: nat)
    requires k <= n && Wrapped(k) == 0
    ensures Wrapped(n) == 0
  {
    if k < n {
      StaysZero(k, n - 1);
    }
  }

  /** `term_print_decu`: the numeral of `x` is printed exactly when `x` is below a billion, and
      the call never returns exactly from `LARGEST` on. */
  method PrintDecu(x: nat) returns (out: seq<nat>, hangs: bool)
    requires x < U32
    ensures !hangs && Numeral(Decoded(out), x, 10) <==> x < BILLION
    ensures hangs <==> LARGEST <= x
    ensures AllDecimal(out)
  {
    hide Digits, Value, Pow, Wrapped, Numeral, Decoded;
    out := [];
    var divisor; ghost var k;
    divisor, hangs, k := FirstDivisor(x);
    if hangs {
      return;
    }
    divisor := divisor / 10;
    divisor := if divisor == 0 then 1 else divisor;
    ghost var ds := Digits(x, divisor, 10);
    if x < BILLION {
      UnwrappedPrints(x, k);
    } else {
      WrappedFails(x, divisor);
    }
    DecodedNone();
    while divisor > 0
      invariant AllDecimal(out) && Decoded(out) + Digits(x, divisor, 10) == ds
      decreases divisor
    {
      DigitsStep(x, divisor, 10);
      DecodedNext(out, x / divisor % 10, true);
      out := out + [x / divisor % 10 + 48];
      divisor := divisor / 10;
    }
    NoDigits(x);
    assert Decoded(out) == ds;
  }

  lemma WrappedFirst()
    ensures Wrapped(0) == 1
  {
  }

  lemma WrappedNext(k: nat)
    ensures Wrapped(k + 1) == Wrapped(k) * 10 % U32
  {
  }

  lemma DecodedNone()
    ensures Decoded([]) == []
  {
  }

  lemma DigitsStep(x: nat, d: nat, b: nat)
    requires 2 <= b && 0 < d
    ensures Digits(x, d, b) == [x / d % b] + Digits(x, d / b, b)
  {
  }

  /** Below a billion the divisor never wraps. */
  lemma AtMostNine(x: nat, k: nat)
    requires x < BILLION && forall j :: 0 <= j < k ==> Wrapped(j) <= x
    ensures k <= 9 && 0 < Wrapped(k)
  {
    hide Wrapped, Pow;
    WrappedLow();
    assert Wrapped(9) == BILLION;
  }

  /** `term_print_dec`: a sign and the numeral, exactly for the numbers of at most nine digits. */
  method PrintDec(x: int) returns (out: seq<nat>, hangs: bool)
    requires -0x8000_0000 <= x < 0x8000_0000
    ensures var magnitude := if x < 0 then -x else x;
      !hangs && Numeral(Decoded(if x < 0 && out != [] then out[1..] else out), magnitude, 10) <==> magnitude < BILLION
    ensures if x < 0 then out != [] && out[0] == '-' as int && AllDecimal(out[1..]) else AllDecimal(out)
  {
    hide Numeral, Decoded;
    var digits;
    digits, hangs := PrintDecu(if x < 0 then -x else x);
    out := if x < 0 then [45] + digits else digits;
    assert x < 0 ==> out[1..] == digits;
  }

  // ---------------------------------------------------------------- hexadecimal

  /** `term_print_hex`: the numeral of every 32-bit number, which reads back as the number. */
  method PrintHex(x: nat, upper: bool) returns (out: seq<nat>)
    requires x < U32
    ensures Numeral(Decoded(out), x, 16) && AllHex(out, upper)
  {
    hide Digits, Value, Pow, Numeral, Decoded;
    HexPowers();
    var place := 7;
    while x / Pow(16, place) % 16 == 0 && place > 0
      invariant 0 <= place <= 7 && x < Pow(16, place + 1)
    {
      SkipZero(x, place);
      place := place - 1;
    }
    NotSkipped(x, place);
    ghost var ds := Digits(x, Pow(16, place), 16);
    DigitsNumeral(x, place, 16);
    out := [];
    DecodedNone();
    while place >= 0
      invariant -1 <= place <= 7 && AllHex(out, upper)
      invariant Decoded(out) + Digits(x, if place < 0 then 0 else Pow(16, place), 16) == ds
    {
      DigitsStep(x, Pow(16, place), 16);
      if place > 0 { PowDown(16, place - 1); } else { PowOne(16); }
      var digit := x / Pow(16, place) % 16;
      DecodedNext(out, digit, upper);
      out := out + [Glyph(digit, upper)];
      place := place - 1;
    }
    NoHexDigits(x);
    assert Decoded(out) == ds;
  }

  lemma HexPowers()
    ensures Pow(16, 8) == U32
  {
    assert Pow(16, 4) == 65536;
  }

  lemma NoHexDigits(x: nat)
    ensures Digits(x, 0, 16) == []
  {
  }

  /** A zero digit in front can be skipped. */
  lemma SkipZero(x: nat, m: nat)
    requires x < Pow(16, m + 1) && x / Pow(16, m) % 16 == 0
    ensures x < Pow(16, m)
  {
    assert Pow(16, m + 1) == 16 * Pow(16, m);
    SmallQuotient(x, Pow(16, m));
  }

  lemma SmallQuotient(x: nat, p: nat)
    requires 0 < p && x < 16 * p
    ensures x / p < 16 && (x / p == 0 ==> x < p)
  {
    var q := x / p;
    assert x == q * p + x % p;
    assert q * p < 16 * p;
  }

  lemma NotSkipped(x: nat, m: nat)
    requires x < Pow(16, m + 1) && (x / Pow(16, m) % 16 != 0 || m == 0)
    ensures Pow(16, m) <= x || m == 0
  {
  }
}
