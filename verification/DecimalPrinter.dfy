/** The two digit printers (sdk/core/core/src/az_span.c, lines 304-392). They append one
    digit at a time, by different loops; both print the canonical digits. */
module DecimalPrinter {
  import opened Basics
  import opened JsonNumber
  import opened Decimal
  import opened Spans

  /** What of `text` is written when only `room` bytes are left. */
  function Cut(text: bytes, room: nat): bytes {
    if |text| <= room then text else text[..room]
  }

  // ---- Division by powers of ten ----

  lemma DivModUnique(a: nat, p: nat, q: nat, r: nat)
    requires p > 0 && a == q * p + r && r < p
    ensures a / p == q && a % p == r
  {
    var x := a / p;
    assert a == x * p + a % p;
    if x < q {
      MulMono(x + 1, q, p);
    }
    if q < x {
      MulMono(q + 1, x, p);
    }
  }

  lemma LeadingDigit(n: nat, p: nat)
    requires p > 0 && n < p * 10
    ensures n / p < 10
  {
    assert n == (n / p) * p + n % p;
    if n / p >= 10 {
      MulMono(10, n / p, p);
    }
  }

  /** `n` in exactly `k` digits, the most significant first. */
  function Padded(n: nat, k: nat): (ds: bytes)
    requires n < Pow10(k)
    ensures |ds| == k
    decreases k
  {
    if k == 0 then []
    else
      LeadingDigit(n, Pow10(k - 1));
      [n / Pow10(k - 1) + 0x30] + Padded(n % Pow10(k - 1), k - 1)
  }

  lemma SplitOff(n: nat, p: nat)
    requires p > 0
    ensures (n / 10) / p == n / (p * 10)
    ensures (n / 10) % p == (n % (p * 10)) / 10
    ensures (n % (p * 10)) % 10 == n % 10
  {
    SplitParts(n, p, n / (p * 10), n % (p * 10));
  }

  lemma SplitParts(n: nat, p: nat, q: nat, r: nat)
    requires p > 0 && r < p * 10 && n == q * (p * 10) + r
    ensures (n / 10) / p == q && (n / 10) % p == r / 10 && r % 10 == n % 10
  {
    var m := q * p;
    assert q * (p * 10) == m * 10;
    DivModUnique(n, 10, m + r / 10, r % 10);
    DivModUnique(n / 10, p, q, r / 10);
  }

  lemma {:induction false} PaddedLast(n: nat, k: nat)
    requires k >= 1 && n < Pow10(k)
    ensures n / 10 < Pow10(k - 1)
    ensures Padded(n, k) == Padded(n / 10, k - 1) + [n % 10 + 0x30]
    decreases k
  {
    if k == 1 {
      assert Pow10(0) == 1;
      assert Padded(n % 1, 0) == [];
    } else {
      SplitOff(n, Pow10(k - 2));
      PaddedLast(n % Pow10(k - 1), k - 1);
      assert Pow10(k - 1) == Pow10(k - 2) * 10;
    }
  }

  lemma {:induction false} PaddedIsDigits(n: nat, k: nat)
    requires k >= 1 && n < Pow10(k) && (k == 1 || n >= Pow10(k - 1))
    ensures Padded(n, k) == Digits(n)
    decreases k
  {
    PaddedLast(n, k);
    if k == 1 {
      assert Pow10(1) == 10;
      assert Pow10(0) == 1;
      assert Padded(n / 10, 0) == [];
    } else {
      assert Pow10(k - 1) == Pow10(k - 2) * 10;
      if k == 2 {
        assert Pow10(1) == 10;
      }
      PaddedIsDigits(n / 10, k - 1);
    }
  }

  lemma PowerStep(j: nat)
    ensures j > 0 ==> Pow10(j) / 10 == Pow10(j - 1)
    ensures Pow10(j) > 1 <==> j > 0
  {
  }

  lemma Power19()
    ensures Pow10(19) == 10_000_000_000_000_000_000
    ensures Pow10(20) > UINT64_MAX
  {
    Pow18();
    assert Pow10(20) == Pow10(19) * 10;
  }

  // ---- The printers ----

  /** `now` has been written of `before + text`, `rest` is still to come; nothing that has
      been left out so far would have fitted. */
  ghost predicate Pending(capacity: nat, before: bytes, text: bytes, now: bytes, rest: bytes) {
    && |before| <= capacity && |now| <= capacity
    && before + Cut(text, capacity - |before|) == now + Cut(rest, capacity - |now|)
    && |before| + |text| == |now| + |rest|
  }

  lemma PendingStart(capacity: nat, before: bytes, text: bytes)
    requires |before| <= capacity
    ensures Pending(capacity, before, text, before, text)
  {
  }

  lemma PendingStep(capacity: nat, before: bytes, text: bytes, now: bytes, b: byte, more: bytes)
    requires Pending(capacity, before, text, now, [b] + more)
    ensures |now| < capacity ==> Pending(capacity, before, text, now + [b], more)
    ensures |now| == capacity ==> now == before + Cut(text, capacity - |before|) && |before| + |text| > capacity
  {
  }

  lemma PendingEnd(capacity: nat, before: bytes, text: bytes, now: bytes)
    requires Pending(capacity, before, text, now, [])
    ensures now == before + Cut(text, capacity - |before|) && |before| + |text| <= capacity
  {
  }

  /** `text` has been appended up to the first byte that does not fit. */
  ghost predicate Printed(self: Span, out: Span, r: Outcome<()>, before: bytes, after: bytes, text: bytes)
    requires |before| <= self.capacity
  {
    && out.Valid() && out == self.(length := |after|)
    && after == before + Cut(text, self.capacity - |before|)
    && (r.Success? <==> |before| + |text| <= self.capacity)
    && (r.Failure? ==> r.error == BufferOverflow)
  }

  /** One digit of `text`, `more` being the digits that are to follow it. */
  method AppendDigit(self: Span, b: byte, ghost before: bytes, ghost text: bytes, ghost more: bytes)
    returns (r: Outcome<()>, out: Span)
    requires self.Valid() && Pending(self.capacity, before, text, self.Contents(), [b] + more)
    modifies self.buf
    ensures out.Valid() && out == self.(length := |out.Contents()|)
    ensures r.Success? ==> Pending(self.capacity, before, text, out.Contents(), more)
    ensures r.Failure? ==> |before| <= self.capacity && Printed(self, out, r, before, out.Contents(), text)
  {
    hide Pending, Cut, Overwrite;
    PendingStep(self.capacity, before, text, self.Contents(), b, more);
    var a := Append(self, [b]);
    if a.Failure? {
      assert |before| <= self.capacity by { PendingBounds(self.capacity, before, text, self.Contents(), [b] + more); }
      return Failure(a.error), self;
    }
    return Success(()), a.value;
  }

  lemma PendingBounds(capacity: nat, before: bytes, text: bytes, now: bytes, rest: bytes)
    requires Pending(capacity, before, text, now, rest)
    ensures |before| <= capacity
  {
  }

  /** `az_span_append_uint64` */
  method AppendUint64(self: Span, n: uint64) returns (r: Outcome<()>, out: Span)
    requires self.Valid()
    modifies self.buf
    ensures out.Valid() && Printed(self, out, r, old(self.Contents()), out.Contents(), Digits(n))
  {
    hide Pending, Cut, Overwrite;
    ghost var before, text := self.Contents(), Digits(n);
    PendingStart(self.capacity, before, text);
    if n == 0 {
      DigitsZero();
      assert [0x30] + [] == text;
      r, out := AppendDigit(self, 0x30, before, text, []);
      if r.Success? {
        PendingEnd(self.capacity, before, text, out.Contents());
      }
      return;
    }
    var div: nat, j := FindDivisor(n);
    assert Pending(self.capacity, before, text, self.Contents(), Padded(n, j + 1));
    r, out := AppendPadded(self, n, div, j, before, text);
  }

  /** The power of ten of the leading digit, searched from the largest one down. */
  method FindDivisor(n: uint64) returns (div: nat, ghost j: nat)
    requires n > 0
    ensures div == Pow10(j) && n < Pow10(j + 1) && Padded(n, j + 1) == Digits(n)
  {
    div, j := 10_000_000_000_000_000_000, 19;
    Power19();
    while Quotient(n, div) == 0
      invariant div == Pow10(j) && n < Pow10(j + 1)
      decreases j
    {
      PowerDown(n, j);
      div := div / 10;
      j := j - 1;
    }
    PowerUp(n, div);
    PaddedIsDigits(n, j + 1);
  }

  /** The printing loop of `az_span_append_uint64`: while `div` exceeds one, and then the
      last digit. */
  method AppendPadded(self: Span, n: nat, start: nat, ghost k: nat, ghost before: bytes, ghost text: bytes)
    returns (r: Outcome<()>, out: Span)
    requires self.Valid() && start == Pow10(k) && n < Pow10(k + 1)
    requires Pending(self.capacity, before, text, self.Contents(), Padded(n, k + 1))
    modifies self.buf
    ensures out.Valid() && |before| <= self.capacity && Printed(self, out, r, before, out.Contents(), text)
  {
    hide Pending, Cut, Overwrite, Quotient, Remainder, Padded;
    var div: nat, nn: nat := start, n;
    ghost var j: nat := k;
    out := self;
    while div > 1
      invariant div == Pow10(j) && nn < Pow10(j + 1)
      invariant out.Valid() && out == self.(length := |out.Contents()|)
      invariant Pending(self.capacity, before, text, out.Contents(), Padded(nn, j + 1))
      decreases j
    {
      OneIsLowest(j);
      PaddedStep(nn, j);
      r, out := AppendDigit(out, Quotient(nn, div) + 0x30, before, text, Padded(Remainder(nn, div), j));
      if r.Failure? {
        return;
      }
      nn := Remainder(nn, div);
      div := div / 10;
      j := j - 1;
    }
    LowestIsOne(j);
    PaddedStep(nn, 0);
    r, out := AppendDigit(out, nn + 0x30, before, text, []);
    if r.Success? {
      PendingEnd(self.capacity, before, text, out.Contents());
    }
  }

  function Quotient(a: nat, b: nat): nat
    requires b > 0
  {
    a / b
  }

  function Remainder(a: nat, b: nat): nat
    requires b > 0
  {
    a % b
  }

  lemma DigitsZero()
    ensures Digits(0) == [0x30]
  {
  }

  lemma PowerDown(n: nat, j: nat)
    requires n > 0 && n / Pow10(j) == 0
    ensures j > 0 && n < Pow10(j) && Pow10(j) / 10 == Pow10(j - 1)
  {
    if n >= Pow10(j) {
      QuotientPositive(n, Pow10(j));
    }
    PowerStep(j);
  }

  lemma QuotientPositive(n: nat, p: nat)
    requires 0 < p <= n
    ensures n / p >= 1
  {
    assert n == (n / p) * p + n % p;
  }

  lemma PowerUp(n: nat, p: nat)
    requires p > 0 && n / p != 0
    ensures n >= p
  {
    if n < p {
      DivModUnique(n, p, 0, n);
    }
  }

  lemma OneIsLowest(j: nat)
    requires Pow10(j) > 1
    ensures j > 0 && Pow10(j) / 10 == Pow10(j - 1)
  {
    PowerStep(j);
  }

  lemma LowestIsOne(j: nat)
    requires Pow10(j) <= 1
    ensures j == 0
  {
    PowerStep(j);
  }

  lemma PaddedStep(n: nat, j: nat)
    requires n < Pow10(j + 1)
    ensures var q, r := Quotient(n, Pow10(j)), Remainder(n, Pow10(j));
      && q < 10 && r < Pow10(j)
      && Padded(n, j + 1) == [q + 0x30] + Padded(r, j)
    ensures j == 0 ==> n < 10 && Padded(n, j + 1) == [n + 0x30] + []
  {
    LeadingDigit(n, Pow10(j));
    if j == 0 {
      PowerZero(n);
      assert Padded(n % 1, 0) == [];
    }
  }

  function Int64Text(n: int): bytes {
    if n < 0 then [MINUS] + Digits(-n) else Digits(n)
  }

  /** Reading a signed number: a minus sign, and digits. */
  function ReadSigned(s: bytes): Outcome<int> {
    if s != [] && s[0] == 0x2D then
      match ToUint64(s[1..]) case Success(v) => Outcome<int>.Success(-(v as int)) case Failure(e) => Failure(e)
    else
      match ToUint64(s) case Success(v) => Outcome<int>.Success(v) case Failure(e) => Failure(e)
  }

  lemma SignedDigits(n: uint64)
    ensures Digits(n)[0] != 0x2D
    ensures ReadSigned(Digits(n)) == Outcome<int>.Success(n)
    ensures ReadSigned([0x2D] + Digits(n)) == Outcome<int>.Success(-(n as int))
  {
    hide ToUint64, Digits;
    DigitsDenote(n);
    Uint64RoundTrip(n);
    ConsParts(0x2D, Digits(n));
  }

  /** The text of a signed number starts with a minus sign exactly when it is negative,
      and is read back as it. */
  lemma Int64RoundTrip(n: int)
    requires -0x8000_0000_0000_0000 < n < 0x8000_0000_0000_0000
    ensures Int64Text(n) != [] && (Int64Text(n)[0] == 0x2D <==> n < 0)
    ensures ReadSigned(Int64Text(n)) == Success(n)
    ensures ToUint64(if n < 0 then Int64Text(n)[1..] else Int64Text(n)) == Success(if n < 0 then -n else n)
  {
    hide ToUint64, Digits, ReadSigned;
    var m: uint64 := if n < 0 then -n else n;
    SignedDigits(m);
    Uint64RoundTrip(m);
    ConsParts(0x2D, Digits(m));
  }

  /** `az_span_append_int64`. INT64_MIN is excluded: negating it overflows. */
  method AppendInt64(self: Span, n: int) returns (r: Outcome<()>, out: Span)
    requires self.Valid() && -0x8000_0000_0000_0000 < n < 0x8000_0000_0000_0000
    modifies self.buf
    ensures out.Valid() && Printed(self, out, r, old(self.Contents()), out.Contents(), Int64Text(n))
    ensures r.Success? ==>
      && old(self.Contents()) <= out.Contents()
      && ReadSigned(out.Contents()[self.length..]) == Success(n)
  {
    hide Digits, ReadSigned, Overwrite;
    Int64RoundTrip(n);
    ghost var before := self.Contents();
    if n < 0 {
      r, out := AppendSigned(self, -n);
    } else {
      r, out := AppendUint64(self, n);
    }
    assert r.Success? ==> out.Contents() == before + Int64Text(n);
    assert (before + Int64Text(n))[self.length..] == Int64Text(n);
  }

  /** A minus sign and the digits of `n`. */
  method AppendSigned(self: Span, n: uint64) returns (r: Outcome<()>, out: Span)
    requires self.Valid()
    modifies self.buf
    ensures out.Valid() && Printed(self, out, r, old(self.Contents()), out.Contents(), [MINUS] + Digits(n))
  {
    hide Pending, Cut, Overwrite;
    ghost var before, text := self.Contents(), [MINUS] + Digits(n);
    PendingStart(self.capacity, before, text);
    r, out := AppendDigit(self, MINUS, before, text, Digits(n));
    if r.Failure? {
      return;
    }
    ghost var signed := out.Contents();
    PendingBounds2(self.capacity, before, text, signed, Digits(n));
    r, out := AppendUint64(out, n);
  }

  lemma PendingBounds2(capacity: nat, before: bytes, text: bytes, now: bytes, rest: bytes)
    requires Pending(capacity, before, text, now, rest)
    ensures |before| <= capacity && |now| <= capacity
    ensures before + Cut(text, capacity - |before|) == now + Cut(rest, capacity - |now|)
    ensures |before| + |text| == |now| + |rest|
  {
  }

  // ---- Doubles ----

  /** The doubles whose magnitude the conversion to uint64_t can take. */
  type Double = x: real | -18446744073709551616.0 < x < 18446744073709551616.0

  predicate Integral(x: real) {
    x == x.Floor as real
  }

  /** What is written for `x`: a minus sign if it is negative, and the digits if it is integral. */
  function DoubleText(x: Double): bytes {
    if x < 0.0 then [MINUS] + MagnitudeText(-x) else MagnitudeText(x)
  }

  function MagnitudeText(x: real): bytes
    requires x >= 0.0
  {
    if Integral(x) then Digits(x.Floor) else []
  }

  ghost predicate PrintedDouble(self: Span, out: Span, r: Outcome<()>, before: bytes, after: bytes, x: Double)
    requires |before| <= self.capacity
  {
    var text := DoubleText(x);
    && out.Valid() && out == self.(length := |after|)
    && after == before + Cut(text, self.capacity - |before|)
    && (r.Success? <==> |before| + |text| <= self.capacity && Integral(x))
    && (r.Failure? ==> r.error == if |before| + |text| > self.capacity then BufferOverflow else NotImplemented)
  }

  /** `az_span_append_double` */
  method AppendDouble(self: Span, x: Double) returns (r: Outcome<()>, out: Span)
    requires self.Valid()
    modifies self.buf
    ensures out.Valid() && PrintedDouble(self, out, r, old(self.Contents()), out.Contents(), x)
  {
    hide Pending, Cut, Overwrite, MagnitudeText, Integral, Digits;
    ghost var before, text := self.Contents(), DoubleText(x);
    PendingStart(self.capacity, before, text);
    if x == 0.0 {
      DoubleZero();
      assert [0x30] + [] == text;
      r, out := AppendDigit(self, 0x30, before, text, []);
      if r.Success? {
        PendingEnd(self.capacity, before, text, out.Contents());
      }
      return;
    }
    out := self;
    var value := x;
    if x < 0.0 {
      r, out := AppendDigit(self, MINUS, before, text, MagnitudeText(-x));
      if r.Failure? {
        return;
      }
      value := -x;
      IntegralNeg(x);
    }
    PendingBounds2(self.capacity, before, text, out.Contents(), MagnitudeText(value));
    MagnitudeIs(value);
    var u := value.Floor;
    if value == u as real {
      r, out := AppendDigits(out, u);
      return;
    }
    PendingEnd(self.capacity, before, text, out.Contents());
    return Failure(NotImplemented), out;
  }

  lemma MagnitudeIs(x: real)
    requires 0.0 <= x < 18446744073709551616.0
    ensures 0 <= x.Floor <= UINT64_MAX
    ensures x == x.Floor as real <==> Integral(x)
    ensures MagnitudeText(x) == if Integral(x) then Digits(x.Floor) else []
  {
  }

  lemma DoubleZero()
    ensures Integral(0.0) && DoubleText(0.0) == [0x30]
  {
    assert (0.0).Floor == 0;
  }

  lemma IntegralNeg(x: real)
    ensures Integral(x) <==> Integral(-x)
  {
    if Integral(x) {
      assert -x == (-(x.Floor)) as real;
    }
    if Integral(-x) {
      assert x == (-((-x).Floor)) as real;
    }
  }

  /** The digit loop of `az_span_append_double`. */
  method AppendDigits(self: Span, n: uint64) returns (r: Outcome<()>, out: Span)
    requires self.Valid()
    modifies self.buf
    ensures out.Valid() && Printed(self, out, r, old(self.Contents()), out.Contents(), Digits(n))
  {
    hide Pending, Cut, Overwrite;
    ghost var before, text := self.Contents(), Digits(n);
    PendingStart(self.capacity, before, text);
    var base: nat, k := FindBase(n);
    assert Pending(self.capacity, before, text, self.Contents(), Padded(n, k + 1));
    r, out := AppendFromBase(self, n, base, k, before, text);
  }

  /** The power of ten of the leading digit. */
  method FindBase(n: nat) returns (base: nat, ghost j: nat)
    ensures base == Pow10(j) && n < Pow10(j + 1) && Padded(n, j + 1) == Digits(n)
  {
    base, j := 1, 0;
    var i := n;
    PowerZero(n);
    while 10 <= i
      invariant base == Pow10(j) && Quotient(n, base) == i && (j == 0 || i > 0)
      decreases i
    {
      BaseUp(n, j);
      i := i / 10;
      base := base * 10;
      j := j + 1;
    }
    BaseFound(n, j);
  }

  /** The do-while loop that prints. */
  method AppendFromBase(self: Span, n: nat, start: nat, ghost k: nat, ghost before: bytes, ghost text: bytes)
    returns (r: Outcome<()>, out: Span)
    requires self.Valid() && start == Pow10(k) && n < Pow10(k + 1)
    requires Pending(self.capacity, before, text, self.Contents(), Padded(n, k + 1))
    modifies self.buf
    ensures out.Valid() && |before| <= self.capacity && Printed(self, out, r, before, out.Contents(), text)
  {
    hide Pending, Cut, Overwrite, Quotient, Remainder, Padded;
    var u: nat, base: nat := n, start;
    ghost var j: nat := k;
    out := self;
    while true
      invariant base == Pow10(j) && u < Pow10(j + 1)
      invariant out.Valid() && out == self.(length := |out.Contents()|)
      invariant Pending(self.capacity, before, text, out.Contents(), Padded(u, j + 1))
      decreases j
    {
      PaddedStep(u, j);
      r, out := AppendDigit(out, Quotient(u, base) + 0x30, before, text, Padded(Remainder(u, base), j));
      if r.Failure? {
        return;
      }
      u := Remainder(u, base);
      BaseDown(j);
      base := base / 10;
      if !(1 <= base) {
        PendingEnd(self.capacity, before, text, out.Contents());
        return;
      }
      j := j - 1;
    }
  }

  lemma PowerZero(n: nat)
    ensures Pow10(0) == 1 && n / 1 == n
  {
  }

  lemma BaseUp(n: nat, j: nat)
    ensures Pow10(j + 1) == Pow10(j) * 10 && Quotient(n, Pow10(j) * 10) == Quotient(n, Pow10(j)) / 10
  {
    var p := Pow10(j);
    var a := n / p;
    assert n == a * p + n % p;
    var q, d := a / 10, a % 10;
    var r := d * p + n % p;
    assert a * p == (q * 10 + d) * p == q * (p * 10) + d * p;
    MulMono(d, 9, p);
    DivModUnique(n, p * 10, q, r);
  }

  lemma BaseFound(n: nat, j: nat)
    requires Quotient(n, Pow10(j)) < 10 && (j == 0 || Quotient(n, Pow10(j)) > 0)
    ensures n < Pow10(j + 1) && Padded(n, j + 1) == Digits(n)
  {
    var p := Pow10(j);
    assert n == (n / p) * p + n % p;
    MulMono(n / p, 9, p);
    assert Pow10(j + 1) == p * 10;
    if j > 0 {
      PowerUp(n, p);
    }
    PaddedIsDigits(n, j + 1);
  }

  lemma BaseDown(j: nat)
    ensures j == 0 ==> Pow10(j) / 10 == 0
    ensures j > 0 ==> Pow10(j) / 10 == Pow10(j - 1)
    ensures j == 0 ==> forall n: nat | n < 1 :: Padded(n, 0) == []
  {
    if j == 0 {
      assert Pow10(0) == 1;
    } else {
      PowerStep(j);
    }
  }

  /** The same of what is printed for an integral double. */
  lemma DoubleRoundTrip(x: Double)
    requires Integral(x)
    ensures DoubleText(x) != [] && (DoubleText(x)[0] == 0x2D <==> x < 0.0)
    ensures ReadSigned(DoubleText(x)) == Success(x.Floor)
  {
    hide Digits, ReadSigned;
    var m := if x < 0.0 then -x else x;
    IntegralNeg(x);
    MagnitudeIs(m);
    SignedDigits(m.Floor);
    assert x < 0.0 ==> (-x).Floor == -(x.Floor);
  }

  /** Both printers print the text that `az_span_to_uint64` reads back. */
  lemma PrintersAgree(n: uint64)
    ensures DoubleText(n as real) == Digits(n) && ToUint64(DoubleText(n as real)) == Success(n)
  {
    assert (n as real).Floor == n;
    Uint64RoundTrip(n);
  }
}
