/** What the scanned decimal says about the number in the text
    (sdk/core/core/src/az_json_parser.c, lines 117-241). */
module JsonNumberValue {
  import opened Basics
  import opened JsonNumber
  import opened Decimal

  // ---- 16-bit arithmetic ----

  lemma Wrap16Periodic(a: int, m: int)
    ensures Wrap16(a + m * 0x1_0000) == Wrap16(a)
  {
    var q, r := (a + 0x8000) / 0x1_0000, (a + 0x8000) % 0x1_0000;
    assert a + m * 0x1_0000 + 0x8000 == (q + m) * 0x1_0000 + r;
  }

  lemma Wrap16Congruent(a: int) returns (m: int)
    ensures Wrap16(a) == a + m * 0x1_0000
  {
    m := -((a + 0x8000) / 0x1_0000);
  }

  lemma Wrap16Add(a: int, b: int)
    ensures Wrap16(Wrap16(a) + b) == Wrap16(a + b)
  {
    var m := Wrap16Congruent(a);
    Wrap16Periodic(a + b, m);
  }

  lemma Wrap16Step(a: int, d: int)
    ensures Wrap16(Wrap16(a) * 10 + d) == Wrap16(a * 10 + d)
  {
    var m := Wrap16Congruent(a);
    Wrap16Periodic(a * 10 + d, 10 * m);
  }

  lemma Wrap16Neg(a: int, b: int)
    ensures Wrap16(a - Wrap16(b)) == Wrap16(a - b)
  {
    var m := Wrap16Congruent(b);
    Wrap16Periodic(a - b, -m);
  }

  // ---- The digit loop ----

  /** After digits denoting `d`, with decimal point so placed that the number is
      d * 10^e, and `k` digits dropped. */
  ghost predicate Holds(n: Dec, d: nat, e: int, k: nat) {
    && n.value <= DEC_NUMBER_MAX
    && n.value * Pow10(k) <= d < (n.value + 1) * Pow10(k)
    && (n.remainder <==> d != n.value * Pow10(k))
    && n.exp == Wrap16(e + k)
    && (k > 0 ==> n.value > DEC_NUMBER_MAX / 10)
  }

  lemma DropScales(v: nat, p: nat, d: nat, x: nat)
    requires v * p <= d < (v + 1) * p && x < 10
    ensures v * (p * 10) <= d * 10 + x < (v + 1) * (p * 10)
    ensures d * 10 + x == v * (p * 10) <==> d == v * p && x == 0
  {
    assert v * (p * 10) == (v * p) * 10;
    assert (v + 1) * (p * 10) == ((v + 1) * p) * 10;
  }

  lemma AddDigitHolds(n: Dec, c: byte, offset: int, d: nat, e: int, k: nat) returns (k': nat)
    requires IsDigit(c) && Holds(n, d, e, k)
    ensures Holds(AddDigit(n, c, offset), d * 10 + (c - 0x30), e + offset, k')
    ensures AddDigit(n, c, offset).negative == n.negative
  {
    var x := c - 0x30;
    Wrap16Add(e + k, offset);
    Wrap16Add(e + k, offset + 1);
    if n.value <= (DEC_NUMBER_MAX - x) / 10 {
      k' := 0;
      assert k == 0;
    } else {
      k' := k + 1;
      DropScales(n.value, Pow10(k), d, x);
    }
  }

  lemma {:induction false} FoldHolds(n: Dec, p: bytes, ds: bytes, offset: int, e: int, k: nat) returns (k': nat)
    requires AllDigits(p) && AllDigits(ds) && Holds(n, Val(p), e, k)
    ensures AllDigits(p + ds)
    ensures Holds(Fold(n, ds, offset), Val(p + ds), e + offset * |ds|, k')
    ensures Fold(n, ds, offset).negative == n.negative
    decreases ds
  {
    hide Holds, Val, AddDigit;
    if ds == [] {
      assert p + ds == p;
      k' := k;
    } else {
      var m := AddDigit(n, ds[0], offset);
      ValSnoc(p, ds[0]);
      k' := AddDigitHolds(n, ds[0], offset, Val(p), e, k);
      assert p + ds == (p + [ds[0]]) + ds[1..];
      assert e + offset + offset * |ds[1..]| == e + offset * |ds|;
      k' := FoldHolds(m, p + [ds[0]], ds[1..], offset, e + offset, k');
    }
  }

  lemma {:induction false} FoldExpWraps(e: int, p: bytes, ds: bytes)
    requires AllDigits(p) && AllDigits(ds) && e == Wrap16(Val(p))
    ensures AllDigits(p + ds) && FoldExp(e, ds) == Wrap16(Val(p + ds))
    decreases ds
  {
    hide Val, Wrap16;
    if ds == [] {
      assert p + ds == p;
    } else {
      var x := ds[0] - 0x30;
      ValSnoc(p, ds[0]);
      Wrap16Step(Val(p), x);
      assert p + ds == (p + [ds[0]]) + ds[1..];
      FoldExpWraps(Wrap16(e * 10 + x), p + [ds[0]], ds[1..]);
    }
  }

  // ---- Whole numbers ----

  /** The digits of a number without its point. */
  function Significand(n: Num): (ds: bytes)
    requires WFNum(n)
    ensures AllDigits(ds)
  {
    n.whole + n.frac
  }

  function ExpValue(e: Exp): int
    requires WFExp(e)
  {
    if e.NoExp? then 0 else if e.sign == Some(0x2D) then -(Val(e.digits) as int) else Val(e.digits)
  }

  /** The power of ten that goes with the significand. */
  function Exponent(n: Num): int
    requires WFNum(n)
  {
    ExpValue(n.exp) - |n.frac|
  }

  function StripZeros(ds: bytes): (r: bytes) {
    if ds != [] && ds[0] == 0x30 then StripZeros(ds[1..]) else ds
  }

  /** How many significant digits there are beyond the eighteenth. */
  function Excess(ds: bytes): nat {
    var m := |StripZeros(ds)|;
    if m <= 18 then 0 else m - 18
  }

  lemma WithExpHolds(m: Dec, e: Exp, d: nat, x: int, k: nat)
    requires WFExp(e) && Holds(m, d, x, k)
    ensures Holds(WithExp(m, e), d, ExpValue(e) + x, k)
    ensures WithExp(m, e).negative == m.negative
  {
    hide Val, Wrap16;
    if e.Exp? {
      assert Wrap16(0) == 0 by { Wrap16Zero(); }
      assert Val([]) == 0 by { ValNone(); }
      FoldExpWraps(0, [], e.digits);
      assert [] + e.digits == e.digits;
      var v: int := Val(e.digits);
      if SignOf(e) == 1 {
        Wrap16Add(v, m.exp);
        Wrap16Add(x + k, v);
      } else {
        Wrap16Neg(m.exp, v);
        Wrap16Add(x + k, -v);
      }
    }
  }

  lemma Wrap16Zero()
    ensures Wrap16(0) == 0
  {
  }

  lemma ValNone()
    ensures Val([]) == 0
  {
  }

  /** The loop invariant at the end of a number, the number of dropped digits being
      whatever goes beyond eighteen. */
  lemma ScannedHolds(n: Num)
    requires WFNum(n)
    ensures Holds(Scanned(n), Val(Significand(n)), Exponent(n), Excess(Significand(n)))
    ensures Scanned(n).negative == n.minus
  {
    hide Holds, Val;
    var z := ZERO.(negative := n.minus);
    ZeroHolds(z);
    var k := FoldHolds(z, [], n.whole, 0, 0, 0);
    assert [] + n.whole == n.whole;
    k := FoldHolds(Fold(z, n.whole, 0), n.whole, n.frac, -1, 0, k);
    var m := Fold(Fold(z, n.whole, 0), n.frac, -1);
    WithExpHolds(m, n.exp, Val(Significand(n)), -|n.frac|, k);
    DroppedIsExcess(Scanned(n), Significand(n), Exponent(n), k);
  }

  lemma ZeroHolds(z: Dec)
    requires z.value == 0 && z.exp == 0 && !z.remainder
    ensures Holds(z, Val([]), 0, 0)
  {
  }

  lemma {:induction false} ValBounds(ds: bytes)
    requires AllDigits(ds)
    ensures Val(ds) < Pow10(|ds|)
    decreases |ds|
  {
    if ds != [] {
      ValBounds(ds[..|ds| - 1]);
    }
  }

  lemma {:induction false} ValAtLeast(ds: bytes)
    requires AllDigits(ds) && ds != [] && ds[0] != 0x30
    ensures Val(ds) >= Pow10(|ds| - 1)
    decreases |ds|
  {
    if |ds| > 1 {
      ValAtLeast(ds[..|ds| - 1]);
    }
  }

  lemma {:induction false} StripKeepsVal(ds: bytes)
    requires AllDigits(ds)
    ensures AllDigits(StripZeros(ds)) && Val(StripZeros(ds)) == Val(ds)
    ensures StripZeros(ds) != [] ==> StripZeros(ds)[0] != 0x30
    decreases |ds|
  {
    hide Val, AllDigits;
    if ds != [] && ds[0] == 0x30 {
      AllDigitsCons(ds);
      StripKeepsVal(ds[1..]);
      assert ds == [0x30] + ds[1..];
      OneZero();
      ValAppend([0x30], ds[1..]);
    }
  }

  lemma OneZero()
    ensures AllDigits([0x30]) && Val([0x30]) == 0
  {
    assert [0x30 as byte][..0] == [];
  }

  lemma {:induction false} PowMono(a: nat, b: nat)
    requires a <= b
    ensures Pow10(a) <= Pow10(b)
    decreases b
  {
    if a < b {
      PowMono(a, b - 1);
    }
  }

  lemma DroppedIsExcess(m: Dec, ds: bytes, e: int, k: nat)
    requires AllDigits(ds) && Holds(m, Val(ds), e, k)
    ensures k == Excess(ds)
  {
    hide Val;
    var s := StripZeros(ds);
    StripKeepsVal(ds);
    Pow18();
    ValBounds(s);
    if k > 0 {
      MulMono(Pow10(17), m.value, Pow10(k));
      MulMono(m.value + 1, Pow10(18), Pow10(k));
      PowAdd(17, k);
      PowAdd(18, k);
      if |s| > 18 + k {
        ValAtLeast(s);
        PowMono(18 + k, |s| - 1);
      } else if |s| < 18 + k {
        PowMono(|s|, 17 + k);
      }
    } else if |s| > 18 {
      ValAtLeast(s);
      PowMono(18, |s| - 1);
    }
  }

  /** Up to eighteen significant digits nothing is lost. */
  lemma EighteenDigitsAreExact(n: Num)
    requires WFNum(n) && |StripZeros(Significand(n))| <= 18
    ensures Scanned(n) == Dec(n.minus, Val(Significand(n)), false, Wrap16(Exponent(n)))
  {
    hide Scanned, Val, Wrap16;
    ScannedHolds(n);
    assert Pow10(0) == 1;
  }

  // ---- As real numbers ----

  function PowR(e: int): (r: real)
    ensures r > 0.0
    decreases if e < 0 then -e else e
  {
    if e == 0 then 1.0 else if e > 0 then PowR(e - 1) * 10.0 else PowR(e + 1) / 10.0
  }

  lemma PowRStep(e: int)
    ensures PowR(e + 1) == PowR(e) * 10.0
  {
  }

  lemma Pow10Step(k: nat)
    ensures Pow10(k + 1) as real == Pow10(k) as real * 10.0
  {
  }

  lemma {:induction false} PowRAdd(e: int, k: nat)
    ensures PowR(e + k) == PowR(e) * (Pow10(k) as real)
    decreases k
  {
    hide PowR, Pow10;
    if k == 0 {
      PowRAddZero(e);
    } else {
      PowRAdd(e, k - 1);
      PowRAddStep(e, k - 1);
    }
  }

  lemma PowRAddZero(e: int)
    ensures PowR(e) == PowR(e) * (Pow10(0) as real)
  {
  }

  lemma PowRAddStep(e: int, k: nat)
    requires PowR(e + k) == PowR(e) * (Pow10(k) as real)
    ensures PowR(e + (k + 1)) == PowR(e) * (Pow10(k + 1) as real)
  {
    hide PowR, Pow10;
    PowRStep(e + k);
    Pow10Step(k);
    RealAssoc(PowR(e + (k + 1)), PowR(e + k), PowR(e), Pow10(k) as real, Pow10(k + 1) as real);
  }

  lemma RealAssoc(x: real, y: real, a: real, b: real, z: real)
    requires x == y * 10.0 && y == a * b && z == b * 10.0
    ensures x == a * z
  {
    assert (a * b) * 10.0 == a * (b * 10.0);
  }

  /** d * 10^e */
  function Scaled(d: nat, e: int): real {
    (d as real) * PowR(e)
  }

  /** The absolute value of the number in the text. */
  function Magnitude(n: Num): real
    requires WFNum(n)
  {
    Scaled(Val(Significand(n)), Exponent(n))
  }

  /** `x` lies between the decimal and the next one with the same exponent. */
  predicate Brackets(m: Dec, x: real) {
    InBracket(m.value, PowR(m.exp), x)
  }

  predicate InBracket(v: nat, q: real, x: real) {
    (v as real) * q <= x < ((v + 1) as real) * q
  }

  /** The exponent that the digits and the text call for fits an int16_t. */
  predicate ExponentFits(n: Num)
    requires WFNum(n)
  {
    -0x8000 <= Exponent(n) + Excess(Significand(n)) < 0x8000
  }

  lemma ScaleBracket(v: nat, p: nat, d: nat, q: real)
    requires q > 0.0
    ensures v * p <= d ==> (v as real) * (q * (p as real)) <= (d as real) * q
    ensures d < v * p ==> (d as real) * q < (v as real) * (q * (p as real))
    ensures d == v * p ==> (d as real) * q == (v as real) * (q * (p as real))
  {
    var vp := (v * p) as real;
    assert vp == (v as real) * (p as real);
    assert (v as real) * (q * (p as real)) == vp * q;
    if v * p <= d {
      RealMono(vp, d as real, q);
    }
    if d < v * p {
      RealStrict(d as real, vp, q);
    }
  }

  lemma RealMono(a: real, b: real, q: real)
    requires a <= b && q > 0.0
    ensures a * q <= b * q
  {
  }

  lemma RealStrict(a: real, b: real, q: real)
    requires a < b && q > 0.0
    ensures a * q < b * q
  {
  }

  lemma RemainderIsExact(m: Dec, d: nat, e: int, k: nat)
    requires Holds(m, d, e, k) && -0x8000 <= e + k < 0x8000
    ensures m.remainder <==> Scaled(m.value, m.exp) != Scaled(d, e)
  {
    hide PowR, Pow10;
    PowRAdd(e, k);
    ScaleBracket(m.value, Pow10(k), d, PowR(e));
    if m.remainder {
      ScaleStrict(m.value, Pow10(k), d, PowR(e));
    }
  }

  /** When the exponent fits, the sticky remainder says exactly whether the decimal is
      equal to the number. */
  lemma RemainderExactly(n: Num)
    requires WFNum(n) && ExponentFits(n)
    ensures Scanned(n).remainder <==> Scaled(Scanned(n).value, Scanned(n).exp) != Magnitude(n)
  {
    hide Scanned, Holds, Scaled;
    ScannedHolds(n);
    RemainderIsExact(Scanned(n), Val(Significand(n)), Exponent(n), Excess(Significand(n)));
  }

  lemma ScaleStrict(v: nat, p: nat, d: nat, q: real)
    requires q > 0.0 && v * p < d
    ensures (v as real) * (q * (p as real)) < (d as real) * q
  {
    var vp := (v * p) as real;
    assert (v as real) * (q * (p as real)) == vp * q;
    RealStrict(vp, d as real, q);
  }

  lemma BracketsWhenFitting(m: Dec, d: nat, e: int, k: nat)
    requires Holds(m, d, e, k)
    ensures InBracket(m.value, PowR(m.exp), Scaled(d, e)) <==> d == 0 || -0x8000 <= e + k < 0x8000
  {
    hide PowR, InBracket, Scaled;
    UnwrappedBrackets(m, d, e, k);
    if d == 0 {
      MulGrows(m.value, Pow10(k));
      ZeroBrackets(m.exp, e);
    } else if !(-0x8000 <= e + k < 0x8000) {
      PositiveValue(m, d, e, k);
      WrapMisses(m.value, e + k, Scaled(d, e));
    }
  }

  /** The decimal brackets the number exactly when the number is zero or the exponent fits. */
  lemma BracketsExactly(n: Num)
    requires WFNum(n)
    ensures Brackets(Scanned(n), Magnitude(n)) <==> Val(Significand(n)) == 0 || ExponentFits(n)
  {
    hide Scanned, Holds, InBracket, Scaled;
    ScannedHolds(n);
    BracketsWhenFitting(Scanned(n), Val(Significand(n)), Exponent(n), Excess(Significand(n)));
  }

  /** Before the exponent is cut to sixteen bits the decimal brackets the number. */
  lemma UnwrappedBrackets(m: Dec, d: nat, e: int, k: nat)
    requires Holds(m, d, e, k)
    ensures InBracket(m.value, PowR(e + k), Scaled(d, e))
  {
    hide Pow10, PowR, Wrap16;
    PowRAdd(e, k);
    ScaledBracket(m.value, Pow10(k), d, PowR(e), PowR(e + k));
  }

  lemma ScaledBracket(v: nat, p: nat, d: nat, q: real, x: real)
    requires q > 0.0 && x == q * (p as real) && v * p <= d < (v + 1) * p
    ensures (v as real) * x <= (d as real) * q < ((v + 1) as real) * x
  {
    ScaleBracket(v, p, d, q);
    ScaleBracket(v + 1, p, d, q);
  }

  lemma ZeroBrackets(a: int, e: int)
    ensures InBracket(0, PowR(a), Scaled(0, e))
  {
  }

  lemma PositiveValue(m: Dec, d: nat, e: int, k: nat)
    requires Holds(m, d, e, k) && d > 0
    ensures m.value > 0
  {
    if k == 0 {
      assert Pow10(k) == 1;
    }
  }

  lemma PowRJump(a: int, b: int)
    requires a + 19 <= b
    ensures PowR(b) >= PowR(a) * (Pow10(19) as real)
  {
    hide PowR, Pow10;
    PowRAdd(a, b - a);
    PowMono(19, b - a);
    RealMono(Pow10(19) as real, Pow10(b - a) as real, PowR(a));
  }

  /** An exponent that was wrapped is off by at least 2^16, far more than the eighteen
      digits of the value can make up for. */
  lemma WrapMisses(v: nat, a: int, x: real)
    requires 0 < v <= DEC_NUMBER_MAX && !(-0x8000 <= a < 0x8000)
    requires InBracket(v, PowR(a), x)
    ensures !InBracket(v, PowR(Wrap16(a)), x)
  {
    hide Wrap16, Pow10, PowR, InBracket;
    var c := Wrap16Congruent(a);
    var w := Wrap16(a);
    WrapRange(a);
    Pow19();
    if c < 0 {
      PowRJump(w, a);
    } else {
      PowRJump(a, w);
    }
    Misses(v, PowR(w), PowR(a), x);
  }

  /** Two scales that far apart have no common bracket. */
  lemma Misses(v: nat, q: real, r: real, x: real)
    requires 0 < v <= DEC_NUMBER_MAX && q > 0.0 && r > 0.0 && InBracket(v, r, x)
    requires r >= q * (((DEC_NUMBER_MAX + 1) * 10) as real) || q >= r * (((DEC_NUMBER_MAX + 1) * 10) as real)
    ensures !InBracket(v, q, x)
  {
    if r >= q * (((DEC_NUMBER_MAX + 1) * 10) as real) {
      TooSmall(v, q, r);
    } else {
      TooSmall(v, r, q);
    }
  }

  lemma WrapRange(a: int)
    ensures -0x8000 <= Wrap16(a) < 0x8000
  {
  }

  lemma Pow19()
    ensures Pow10(19) == (DEC_NUMBER_MAX + 1) * 10
  {
    Pow18();
  }

  lemma TooSmall(v: nat, q: real, r: real)
    requires 0 < v <= DEC_NUMBER_MAX && q > 0.0 && r >= q * (((DEC_NUMBER_MAX + 1) * 10) as real)
    ensures ((v + 1) as real) * q <= (v as real) * r
  {
    RealMono((v + 1) as real, ((DEC_NUMBER_MAX + 1) * 10) as real, q);
    RealMono(1.0, v as real, r);
  }

  /** The text 1e65536. */
  function OneE65536(): Num {
    Num(false, [0x31], [], Exp(LOWER_E, None, [0x36, 0x35, 0x35, 0x33, 0x36]))
  }

  lemma OneE65536Parts()
    ensures WFNum(OneE65536()) && Significand(OneE65536()) == [0x31] && Exponent(OneE65536()) == 65536
  {
    hide Val;
    Digits65536();
    assert [0x31 as byte] + [] == [0x31];
  }

  lemma ExcessOne()
    ensures Excess([0x31]) == 0
  {
    OneOne();
  }

  /** A text whose exponent wraps: 1e65536 is read as 1 with exponent 0. */
  lemma WrappedExponent()
    ensures WFNum(OneE65536())
    ensures Scanned(OneE65536()) == Dec(false, 1, false, 0)
    ensures !Brackets(Scanned(OneE65536()), Magnitude(OneE65536()))
  {
    hide Val, Scanned, Brackets, Magnitude, StripZeros, Wrap16, Significand, Exponent, Excess, WFNum;
    OneE65536Parts();
    ExcessOne();
    OneOne();
    EighteenDigitsAreExact(OneE65536());
    BracketsExactly(OneE65536());
    Wrap16Periodic(0, 1);
    Wrap16Zero();
  }

  lemma Digits65536()
    ensures var ds: bytes := [0x36, 0x35, 0x35, 0x33, 0x36]; AllDigits(ds) && Val(ds) == 65536
  {
    hide Val;
    ValNone();
    var ds: bytes := [];
    for i := 0 to 5
      invariant ds == [0x36, 0x35, 0x35, 0x33, 0x36][..i]
      invariant AllDigits(ds) && Val(ds) == [0, 6, 65, 655, 6553, 65536][i]
    {
      ValSnoc(ds, [0x36, 0x35, 0x35, 0x33, 0x36][i]);
      ds := ds + [[0x36, 0x35, 0x35, 0x33, 0x36][i]];
    }
    assert ds == [0x36, 0x35, 0x35, 0x33, 0x36];
  }

  lemma OneOne()
    ensures AllDigits([0x31]) && Val([0x31]) == 1 && StripZeros([0x31]) == [0x31]
  {
    assert [0x31 as byte][..0] == [];
  }
}
