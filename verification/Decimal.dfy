/** Reading and printing 64-bit decimals (sdk/core/core/src/az_span.c, lines 51-72 and
    304-392). */
module Decimal {
  import opened Basics
  import opened JsonNumber

  /** The number that a digit string denotes. */
  function Val(ds: bytes): nat
    requires AllDigits(ds)
  {
    if ds == [] then 0 else Val(ds[..|ds| - 1]) * 10 + (ds[|ds| - 1] - 0x30)
  }

  /** The loop of `az_span_to_uint64`, from `value` on. */
  function Accumulate(s: bytes, value: uint64): (r: Outcome<uint64>)
    decreases |s|
  {
    if s == [] then Success(value)
    else if !IsDigit(s[0]) then Failure(UnexpectedChar)
    else
      var d := s[0] - 0x30;
      if (UINT64_MAX - d) / 10 < value then Failure(UnexpectedChar)
      else Accumulate(s[1..], value * 10 + d)
  }

  /** `az_span_to_uint64` */
  function ToUint64(s: bytes): Outcome<uint64> {
    if s == [] then Failure(EOF) else Accumulate(s, 0)
  }

  /** The canonical digits of `n`: no leading zero. */
  function Digits(n: nat): (ds: bytes)
    ensures ds != []
  {
    if n < 10 then [n + 0x30] else Digits(n / 10) + [n % 10 + 0x30]
  }

  lemma {:induction false} ValAppend(a: bytes, b: bytes)
    requires AllDigits(a) && AllDigits(b)
    ensures AllDigits(a + b) && Val(a + b) == Val(a) * Pow10(|b|) + Val(b)
    decreases |b|
  {
    if b == [] {
      assert a + b == a;
    } else {
      var c := b[..|b| - 1];
      ValAppend(a, c);
      assert (a + b)[..|a + b| - 1] == a + c;
      Distribute(Val(a), Pow10(|c|), Val(c), b[|b| - 1] - 0x30);
    }
  }

  lemma Distribute(a: int, p: int, c: int, d: int)
    ensures (a * p + c) * 10 + d == a * (p * 10) + (c * 10 + d)
  {
  }

  function Pow10(k: nat): (r: nat)
    ensures r > 0
  {
    if k == 0 then 1 else Pow10(k - 1) * 10
  }

  lemma {:induction false} PowAdd(a: nat, b: nat)
    ensures Pow10(a + b) == Pow10(a) * Pow10(b)
    decreases b
  {
    if b > 0 {
      PowAdd(a, b - 1);
    }
  }

  lemma Pow18()
    ensures Pow10(18) == DEC_NUMBER_MAX + 1 && Pow10(17) == DEC_NUMBER_MAX / 10 + 1
  {
    assert Pow10(4) == 10_000;
    PowAdd(4, 4);
    PowAdd(8, 8);
    PowAdd(16, 1);
    PowAdd(17, 1);
    assert Pow10(1) == 10;
  }

  lemma MulMono(a: nat, b: nat, c: nat)
    requires a <= b
    ensures a * c <= b * c
  {
  }

  lemma ValSnoc(p: bytes, c: byte)
    requires AllDigits(p) && IsDigit(c)
    ensures AllDigits(p + [c]) && Val(p + [c]) == Val(p) * 10 + (c - 0x30)
  {
    assert (p + [c])[..|p + [c]| - 1] == p;
  }

  lemma AllDigitsCons(s: bytes)
    requires s != [] && IsDigit(s[0])
    ensures AllDigits(s) <==> AllDigits(s[1..])
  {
    assert s == [s[0]] + s[1..];
  }

  /** From `value`, the loop reads a digit string exactly when the result fits. */
  lemma {:induction false} AccumulateExactly(s: bytes, p: bytes, value: uint64)
    requires AllDigits(p) && Val(p) == value
    ensures Accumulate(s, value).Success? <==> AllDigits(s) && Val(p + s) <= UINT64_MAX
    ensures Accumulate(s, value).Success? ==> Accumulate(s, value).value == Val(p + s)
    ensures Accumulate(s, value).Failure? ==> Accumulate(s, value).error == UnexpectedChar
    decreases |s|
  {
    hide Val, AllDigits;
    if s == [] {
      assert p + s == p;
      assert AllDigits(s) by { NoneIsDigits(); }
    } else if !IsDigit(s[0]) {
      NotAllDigits(s);
    } else {
      var q := p + [s[0]];
      var d := s[0] - 0x30;
      ValSnoc(p, s[0]);
      AllDigitsCons(s);
      assert p + s == q + s[1..];
      if (UINT64_MAX - d) / 10 < value {
        if AllDigits(s) {
          ValGrows(q, s[1..]);
        }
      } else {
        AccumulateExactly(s[1..], q, value * 10 + d);
      }
    }
  }

  lemma NoneIsDigits()
    ensures AllDigits([])
  {
  }

  lemma NotAllDigits(s: bytes)
    requires s != [] && !IsDigit(s[0])
    ensures !AllDigits(s)
  {
  }

  lemma ValGrows(a: bytes, b: bytes)
    requires AllDigits(a) && AllDigits(b)
    ensures AllDigits(a + b) && Val(a) <= Val(a + b)
  {
    ValAppend(a, b);
    MulGrows(Val(a), Pow10(|b|));
  }

  lemma MulGrows(a: nat, b: nat)
    requires b > 0
    ensures a <= a * b
  {
  }

  /** Succeeds exactly on the non-empty digit strings that denote a 64-bit number. */
  lemma ToUint64Exactly(s: bytes)
    ensures ToUint64(s).Success? <==> s != [] && AllDigits(s) && Val(s) <= UINT64_MAX
    ensures ToUint64(s).Success? ==> ToUint64(s).value == Val(s)
    ensures ToUint64(s).Failure? ==> ToUint64(s).error == if s == [] then EOF else UnexpectedChar
  {
    AccumulateExactly(s, [], 0);
    assert [] + s == s;
  }

  lemma {:induction false} DigitsDenote(n: nat)
    ensures AllDigits(Digits(n)) && Val(Digits(n)) == n
    ensures Digits(n)[0] == 0x30 ==> n == 0
    ensures |Digits(n)| == 1 <==> n < 10
  {
    var ds := Digits(n);
    if n < 10 {
      assert ds[..|ds| - 1] == [];
    } else {
      DigitsDenote(n / 10);
      assert ds[..|ds| - 1] == Digits(n / 10);
      assert Val(ds) == n / 10 * 10 + n % 10;
    }
  }

  /** Reading inverts printing. */
  lemma Uint64RoundTrip(n: uint64)
    ensures ToUint64(Digits(n)) == Success(n)
  {
    DigitsDenote(n);
    ToUint64Exactly(Digits(n));
  }
}
