/** The JSON number scanner (sdk/core/core/src/az_json_parser.c, lines 101-241):
    a decimal of at most 18 digits, a sticky remainder and a 16-bit exponent. */
module JsonNumber {
  import opened Basics

  /** 10^18 - 1 */
  const DEC_NUMBER_MAX: nat := 999_999_999_999_999_999

  const MINUS: byte := 0x2D
  const PLUS: byte := 0x2B
  const LOWER_E: byte := 0x65
  const UPPER_E: byte := 0x45

  /** `az_dec_number`; `exp` is an int16_t. */
  datatype Dec = Dec(negative: bool, value: nat, remainder: bool, exp: int)

  const ZERO := Dec(false, 0, false, 0)

  /** Conversion of an int to int16_t. */
  function Wrap16(x: int): (r: int)
    ensures -0x8000 <= r < 0x8000
    ensures -0x8000 <= x < 0x8000 ==> r == x
  {
    (x + 0x8000) % 0x1_0000 - 0x8000
  }

  lemma Spelled()
    ensures [MINUS, PLUS, DOT] == Ascii("-+.") && [LOWER_E, UPPER_E] == Ascii("eE")
  {
  }

  predicate IsE(c: byte) {
    c == LOWER_E || c == UPPER_E
  }

  /** One step of the digit loop: keep the digit while it fits, else count it in the exponent. */
  function AddDigit(n: Dec, c: byte, offset: int): Dec
    requires IsDigit(c)
  {
    var d := c - 0x30;
    if n.value <= (DEC_NUMBER_MAX - d) / 10 then
      n.(value := n.value * 10 + d, exp := Wrap16(n.exp + offset))
    else
      n.(remainder := n.remainder || d != 0, exp := Wrap16(n.exp + offset + 1))
  }

  /** `az_span_reader_get_json_number_int`, started on a digit. */
  function DigitRun(s: bytes, n: Dec, offset: int): (r: (Dec, bytes))
    requires s != [] && IsDigit(s[0])
    ensures |r.1| < |s|
  {
    var m := AddDigit(n, s[0], offset);
    if |s| == 1 || !IsDigit(s[1]) then (m, s[1..]) else DigitRun(s[1..], m, offset)
  }

  /** The digits of an exponent, accumulated in an int16_t. */
  function ExpRun(s: bytes, e: int): (r: (int, bytes))
    requires s != [] && IsDigit(s[0])
    ensures |r.1| < |s|
  {
    var f := Wrap16(e * 10 + (s[0] - 0x30));
    if |s| == 1 || !IsDigit(s[1]) then (f, s[1..]) else ExpRun(s[1..], f)
  }

  function IntPart(s: bytes, n: Dec): (r: (Dec, bytes))
    requires s != [] && IsDigit(s[0])
    ensures |r.1| < |s|
  {
    if s[0] != 0x30 then DigitRun(s, n, 0) else (n, s[1..])
  }

  function FracPart(s: bytes, n: Dec): (r: Result<Dec, bytes>)
    ensures |r.rest| <= |s|
    ensures r.Fail? ==> r.error in {EOF, UnexpectedChar}
  {
    if s == [] || s[0] != DOT then Ok(n, s)
    else if |s| == 1 then Fail(EOF, s[1..])
    else if !IsDigit(s[1]) then Fail(UnexpectedChar, s[1..])
    else var (m, t) := DigitRun(s[1..], n, -1); Ok(m, t)
  }

  function ExpDigits(s: bytes, n: Dec, sign: int): (r: Result<Dec, bytes>)
    ensures |r.rest| <= |s|
    ensures r.Fail? ==> r.error in {EOF, UnexpectedChar}
  {
    if s == [] then Fail(EOF, s)
    else if !IsDigit(s[0]) then Fail(UnexpectedChar, s)
    else var (e, t) := ExpRun(s, 0); Ok(n.(exp := Wrap16(n.exp + e * sign)), t)
  }

  function ExpPart(s: bytes, n: Dec): (r: Result<Dec, bytes>)
    ensures |r.rest| <= |s|
    ensures r.Fail? ==> r.error in {EOF, UnexpectedChar}
  {
    if s == [] || !IsE(s[0]) then Ok(n, s)
    else if |s| == 1 then Fail(EOF, s[1..])
    else if s[1] == MINUS then ExpDigits(s[2..], n, -1)
    else if s[1] == PLUS then ExpDigits(s[2..], n, 1)
    else ExpDigits(s[1..], n, 1)
  }

  function Unsigned(s: bytes, n: Dec): (r: Result<Dec, bytes>)
    requires s != [] && IsDigit(s[0])
    ensures |r.rest| < |s|
    ensures r.Fail? ==> r.error in {EOF, UnexpectedChar}
  {
    var (n, s1) := IntPart(s, n);
    var (n, s2) :- FracPart(s1, n);
    ExpPart(s2, n)
  }

  /** `az_span_reader_get_json_number_digit_rest`, started on a digit or a minus sign. */
  function NumberRest(s: bytes): (r: Result<Dec, bytes>)
    requires s != [] && (IsDigit(s[0]) || s[0] == MINUS)
    ensures |r.rest| < |s|
    ensures r.Fail? ==> r.error in {EOF, UnexpectedChar}
  {
    if s[0] != MINUS then Unsigned(s, ZERO)
    else if |s| == 1 then Fail(EOF, s[1..])
    else if !IsDigit(s[1]) then Fail(UnexpectedChar, s[1..])
    else Unsigned(s[1..], ZERO.(negative := true))
  }

  // ---- The grammar of section 6 of RFC 8259 ----

  /** `exp` of a number text; the digits are never empty in a well-formed number. */
  datatype Exp = NoExp | Exp(e: byte, sign: Option<byte>, digits: bytes)

  /** A number text cut into its parts; an empty `frac` means there is no fraction. */
  datatype Num = Num(minus: bool, whole: bytes, frac: bytes, exp: Exp)

  predicate AllDigits(b: bytes) {
    forall i | 0 <= i < |b| :: IsDigit(b[i])
  }

  predicate WFExp(e: Exp) {
    e.Exp? ==>
      e.e in {0x65, 0x45} && (e.sign.Some? ==> e.sign.value in {PLUS, MINUS}) && e.digits != [] && AllDigits(e.digits)
  }

  predicate WFNum(n: Num) {
    && n.whole != [] && AllDigits(n.whole) && (n.whole[0] == 0x30 ==> |n.whole| == 1)
    && AllDigits(n.frac)
    && WFExp(n.exp)
  }

  function OptByte(b: Option<byte>, k: bytes): bytes {
    if b.Some? then [b.value] + k else k
  }

  function ExpText(e: Exp, k: bytes): bytes {
    if e.NoExp? then k else [e.e] + OptByte(e.sign, e.digits + k)
  }

  function FracText(frac: bytes, k: bytes): bytes {
    if frac == [] then k else [DOT] + (frac + k)
  }

  /** The text of `n` followed by `k`. */
  function NumText(n: Num, k: bytes): bytes {
    OptByte(if n.minus then Some(MINUS) else None, n.whole + FracText(n.frac, ExpText(n.exp, k)))
  }

  /** What a complete number must be followed by for the scanner to stop there. */
  predicate EndsNumber(k: bytes) {
    k == [] || !(IsDigit(k[0]) || k[0] in {0x2E, 0x65, 0x45})
  }

  // ---- Scanning a text: digits ----

  function Fold(n: Dec, ds: bytes, offset: int): Dec
    requires AllDigits(ds)
    decreases ds
  {
    if ds == [] then n else Fold(AddDigit(n, ds[0], offset), ds[1..], offset)
  }

  function FoldExp(e: int, ds: bytes): int
    requires AllDigits(ds)
    decreases ds
  {
    if ds == [] then e else FoldExp(Wrap16(e * 10 + (ds[0] - 0x30)), ds[1..])
  }

  predicate NoDigit(k: bytes) {
    k == [] || !IsDigit(k[0])
  }

  lemma {:induction false} DigitRunReads(ds: bytes, k: bytes, n: Dec, offset: int)
    requires ds != [] && AllDigits(ds) && NoDigit(k)
    ensures DigitRun(ds + k, n, offset) == (Fold(n, ds, offset), k)
  {
    var s := ds + k;
    assert s[1..] == ds[1..] + k;
    if |ds| == 1 {
      assert ds[1..] + k == k;
      assert Fold(AddDigit(n, ds[0], offset), ds[1..], offset) == AddDigit(n, ds[0], offset);
    } else {
      DigitRunReads(ds[1..], k, AddDigit(n, ds[0], offset), offset);
    }
  }

  lemma {:induction false} DigitRunFound(s: bytes, n: Dec, offset: int) returns (ds: bytes)
    requires s != [] && IsDigit(s[0])
    ensures var k := DigitRun(s, n, offset).1;
      ds != [] && AllDigits(ds) && NoDigit(k) && s == ds + k && ds[0] == s[0]
  {
    if |s| == 1 || !IsDigit(s[1]) {
      ds := [s[0]];
    } else {
      var es := DigitRunFound(s[1..], AddDigit(n, s[0], offset), offset);
      ds := [s[0]] + es;
    }
  }

  lemma {:induction false} ExpRunReads(ds: bytes, k: bytes, e: int)
    requires ds != [] && AllDigits(ds) && NoDigit(k)
    ensures ExpRun(ds + k, e) == (FoldExp(e, ds), k)
  {
    hide Wrap16;
    var s := ds + k;
    var f := Wrap16(e * 10 + (s[0] - 0x30));
    assert s[1..] == ds[1..] + k;
    if |ds| == 1 {
      assert ds[1..] + k == k;
      assert FoldExp(f, ds[1..]) == f;
    } else {
      ExpRunReads(ds[1..], k, f);
    }
  }

  lemma {:induction false} ExpRunFound(s: bytes, e: int) returns (ds: bytes)
    requires s != [] && IsDigit(s[0])
    ensures var k := ExpRun(s, e).1;
      ds != [] && AllDigits(ds) && NoDigit(k) && s == ds + k
  {
    if |s| == 1 || !IsDigit(s[1]) {
      ds := [s[0]];
    } else {
      var es := ExpRunFound(s[1..], Wrap16(e * 10 + (s[0] - 0x30)));
      ds := [s[0]] + es;
    }
  }

  // ---- Scanning a text: whole numbers ----

  function SignOf(e: Exp): int {
    if e.Exp? && e.sign == Some(MINUS) then -1 else 1
  }

  lemma ExpDigitsReads(ds: bytes, k: bytes, n: Dec, sign: int)
    requires ds != [] && AllDigits(ds) && NoDigit(k)
    ensures ExpDigits(ds + k, n, sign) == Ok(n.(exp := Wrap16(n.exp + FoldExp(0, ds) * sign)), k)
  {
    ExpRunReads(ds, k, 0);
  }

  function WithExp(n: Dec, e: Exp): Dec
    requires WFExp(e)
  {
    if e.NoExp? then n else n.(exp := Wrap16(n.exp + FoldExp(0, e.digits) * SignOf(e)))
  }

  lemma ExpPartReads(e: Exp, k: bytes, n: Dec)
    requires WFExp(e) && EndsNumber(k)
    ensures ExpPart(ExpText(e, k), n) == Ok(WithExp(n, e), k)
  {
    if e.Exp? {
      var t := OptByte(e.sign, e.digits + k);
      ConsParts(e.e, t);
      ExpDigitsReads(e.digits, k, n, SignOf(e));
      if e.sign.Some? {
        ConsParts(e.sign.value, e.digits + k);
        assert ([e.e] + t)[2..] == e.digits + k;
      }
    }
  }

  lemma FracPartReads(frac: bytes, k: bytes, n: Dec)
    requires AllDigits(frac) && NoDigit(k) && (k == [] || k[0] != DOT)
    ensures FracPart(FracText(frac, k), n) == Ok(Fold(n, frac, -1), k)
  {
    if frac != [] {
      DigitRunReads(frac, k, n, -1);
      assert ([DOT] + (frac + k))[1..] == frac + k;
    }
  }

  lemma IntPartReads(i: bytes, k: bytes, n: Dec)
    requires i != [] && AllDigits(i) && (i[0] == 0x30 ==> |i| == 1)
    requires NoDigit(k) && n.value == 0 && n.exp == 0
    ensures IntPart(i + k, n) == (Fold(n, i, 0), k)
  {
    if i[0] == 0x30 {
      assert (i + k)[1..] == k;
      assert Fold(AddDigit(n, i[0], 0), i[1..], 0) == AddDigit(n, i[0], 0) == n;
    } else {
      DigitRunReads(i, k, n, 0);
    }
  }

  /** The decimal that the scanner computes from the parts of a number. */
  function Scanned(n: Num): Dec
    requires WFNum(n)
  {
    WithExp(Fold(Fold(ZERO.(negative := n.minus), n.whole, 0), n.frac, -1), n.exp)
  }

  lemma UnsignedReads(n: Num, k: bytes)
    requires WFNum(n) && EndsNumber(k)
    ensures Unsigned(n.whole + FracText(n.frac, ExpText(n.exp, k)), ZERO.(negative := n.minus))
         == Ok(Scanned(n), k)
  {
    var z := ZERO.(negative := n.minus);
    var i := Fold(z, n.whole, 0);
    var et := ExpText(n.exp, k);
    IntPartReads(n.whole, FracText(n.frac, et), z);
    FracPartReads(n.frac, et, i);
    ExpPartReads(n.exp, k, Fold(i, n.frac, -1));
  }

  /** A well-formed number followed by anything that does not continue it is
      consumed exactly. */
  lemma NumberReads(n: Num, k: bytes)
    requires WFNum(n) && EndsNumber(k)
    ensures NumText(n, k) != [] && (IsDigit(NumText(n, k)[0]) || NumText(n, k)[0] == MINUS)
    ensures NumberRest(NumText(n, k)) == Ok(Scanned(n), k)
  {
    UnsignedReads(n, k);
    var u := n.whole + FracText(n.frac, ExpText(n.exp, k));
    assert u[0] == n.whole[0];
    if n.minus {
      ConsParts(MINUS, u);
    }
  }

  lemma ExpPartFound(s: bytes, n: Dec) returns (e: Exp)
    requires ExpPart(s, n).Ok?
    ensures WFExp(e) && s == ExpText(e, ExpPart(s, n).rest)
  {
    if s == [] || !IsE(s[0]) {
      e := NoExp;
    } else if s[1] == MINUS || s[1] == PLUS {
      var ds := ExpRunFound(s[2..], 0);
      e := Exp(s[0], Some(s[1]), ds);
      assert s == [s[0]] + ([s[1]] + s[2..]);
    } else {
      var ds := ExpRunFound(s[1..], 0);
      e := Exp(s[0], None, ds);
      assert s == [s[0]] + s[1..];
    }
  }

  lemma FracPartFound(s: bytes, n: Dec) returns (f: bytes)
    requires FracPart(s, n).Ok?
    ensures AllDigits(f) && s == FracText(f, FracPart(s, n).rest)
  {
    f := [];
    if s != [] && s[0] == DOT {
      f := DigitRunFound(s[1..], n, -1);
      assert s == [DOT] + s[1..];
    }
  }

  lemma IntPartFound(s: bytes, n: Dec) returns (i: bytes)
    requires s != [] && IsDigit(s[0])
    ensures i != [] && AllDigits(i) && (i[0] == 0x30 ==> |i| == 1) && s == i + IntPart(s, n).1
  {
    if s[0] == 0x30 {
      i := [s[0]];
    } else {
      i := DigitRunFound(s, n, 0);
    }
  }

  /** Whatever the scanner accepts starts with the text of a well-formed number, and
      that number is what it consumed. */
  lemma NumberFound(s: bytes) returns (n: Num)
    requires s != [] && (IsDigit(s[0]) || s[0] == MINUS) && NumberRest(s).Ok?
    ensures WFNum(n) && s == NumText(n, NumberRest(s).rest)
  {
    var minus := s[0] == MINUS;
    var u := if minus then s[1..] else s;
    var z := ZERO.(negative := minus);
    var i := IntPartFound(u, z);
    var (m, s1) := IntPart(u, z);
    var f := FracPartFound(s1, m);
    var fr := FracPart(s1, m);
    var e := ExpPartFound(fr.rest, fr.value);
    n := Num(minus, i, f, e);
    if minus {
      assert s == [MINUS] + u;
    }
  }
}
