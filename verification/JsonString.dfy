/** JSON string bodies: the character reader and the escape tables
    (sdk/core/core/src/az_json_string.c) and the scan to the closing quote. */
module JsonString {
  import opened Basics

  const QUOTE: byte := 0x22
  const BACKSLASH: byte := 0x5C
  const LOWER_U: byte := 0x75

  function HexDigit(c: byte): (r: Option<nat>)
    ensures r.Some? ==> r.value < 16
  {
    if IsDigit(c) then Some(c - 0x30)
    else if 0x61 <= c <= 0x66 then Some(c - 0x61 + 10)
    else if 0x41 <= c <= 0x46 then Some(c - 0x41 + 10)
    else None
  }

  /** `_az_number_to_upper_hex` */
  function UpperHex(n: nat): (c: byte)
    requires n < 16
    ensures HexDigit(c) == Some(n)
  {
    if n < 10 then n + 0x30 else n + 0x41 - 10
  }

  function EscDecode(c: byte): Option<byte> {
    if c == BACKSLASH || c == QUOTE || c == 0x2F then Some(c)
    else if c == 0x62 then Some(0x08)
    else if c == 0x66 then Some(0x0C)
    else if c == 0x6E then Some(0x0A)
    else if c == 0x72 then Some(0x0D)
    else if c == 0x74 then Some(0x09)
    else None
  }

  /** The escape sequence of a byte, empty when it needs none. */
  function EscEncode(c: byte): bytes {
    if c == BACKSLASH then [BACKSLASH, BACKSLASH]
    else if c == QUOTE then [BACKSLASH, QUOTE]
    else if c == 0x08 then [BACKSLASH, 0x62]
    else if c == 0x0C then [BACKSLASH, 0x66]
    else if c == 0x0A then [BACKSLASH, 0x6E]
    else if c == 0x0D then [BACKSLASH, 0x72]
    else if c == 0x09 then [BACKSLASH, 0x74]
    else []
  }

  /** The digits of a \u escape, most significant first. */
  function HexUnit(s: bytes, n: nat, acc: nat): (r: Result<nat, bytes>)
    ensures |r.rest| <= |s|
    ensures r.Ok? ==> |s| == |r.rest| + n
    ensures r.Fail? ==> r.error in {EOF, UnexpectedChar}
  {
    if n == 0 then Ok(acc, s)
    else if s == [] then Fail(EOF, s)
    else match HexDigit(s[0])
      case None => Fail(UnexpectedChar, s)
      case Some(d) => HexUnit(s[1..], n - 1, acc * 16 + d)
  }

  /** One character of a string body, as `_az_span_reader_read_json_string_char` reads it. */
  function StringChar(s: bytes): (r: Result<nat, bytes>)
    ensures |r.rest| <= |s|
    ensures r.Ok? ==> |r.rest| < |s|
    ensures r.Fail? && r.error == ItemNotFound <==> s == []
    ensures r.Fail? && r.error == StringEnd <==> s != [] && s[0] == QUOTE
    ensures r.Fail? && r.error == StringEnd ==> r.rest == s
    ensures r.Fail? ==> r.error in {ItemNotFound, StringEnd, EOF, UnexpectedChar}
  {
    if s == [] then Fail(ItemNotFound, s)
    else if s[0] == QUOTE then Fail(StringEnd, s)
    else if s[0] == BACKSLASH then
      if |s| == 1 then Fail(EOF, s[1..])
      else if s[1] == LOWER_U then
        HexUnit(s[2..], 4, 0)
      else match EscDecode(s[1])
        case Some(b) => Ok(b, s[2..])
        case None => Fail(UnexpectedChar, s[2..])
    else if s[0] < 0x20 then Fail(UnexpectedChar, s)
    else Ok(s[0], s[1..])
  }

  /** From just after the opening quote to just after the closing one. */
  function StringRest(s: bytes): (r: Result<bytes, bytes>)
    ensures |r.rest| <= |s|
    ensures r.Ok? ==> |s| == |r.value| + 1 + |r.rest|
    decreases |s|
    ensures r.Fail? ==> r.error in {EOF, UnexpectedChar}
  {
    match StringChar(s)
    case Ok(_, t) =>
      (match StringRest(t)
       case Ok(body, u) => Ok(s[..|s| - |t|] + body, u)
       case Fail(e, u) => Fail(e, u))
    case Fail(e, t) =>
      if e == StringEnd then Ok([], t[1..])
      else if e == ItemNotFound then Fail(EOF, t)
      else Fail(e, t)
  }

  // ---- The grammar of section 7 of RFC 8259, over bytes ----

  /** The hex digits of section 2.3 of RFC 5234, in both cases, in the order of their values. */
  predicate HexStandsFor(c: byte, v: nat) {
    v < 16 && (c == Ascii("0123456789ABCDEF")[v] || c == Ascii("0123456789abcdef")[v])
  }

  lemma HexAlphabets(v: nat)
    requires v < 16
    ensures Ascii("0123456789ABCDEF")[v] == if v < 10 then 0x30 + v else 0x41 + (v - 10)
    ensures Ascii("0123456789abcdef")[v] == if v < 10 then 0x30 + v else 0x61 + (v - 10)
  {
    hide Ascii;
    UpperAlphabet(v);
    LowerAlphabet(v);
  }

  lemma UpperAlphabet(v: nat)
    requires v < 16
    ensures Ascii("0123456789ABCDEF")[v] == if v < 10 then 0x30 + v else 0x41 + (v - 10)
  {
  }

  lemma LowerAlphabet(v: nat)
    requires v < 16
    ensures Ascii("0123456789abcdef")[v] == if v < 10 then 0x30 + v else 0x61 + (v - 10)
  {
  }

  lemma HexDigitExactly(c: byte, v: nat)
    ensures HexDigit(c) == Some(v) <==> HexStandsFor(c, v)
  {
    hide Ascii;
    if v < 16 {
      HexAlphabets(v);
    }
  }

  /** The writers use upper case. */
  lemma UpperHexExactly(n: nat)
    requires n < 16
    ensures UpperHex(n) == Ascii("0123456789ABCDEF")[n]
  {
    hide Ascii;
    HexAlphabets(n);
  }

  predicate IsPlain(b: byte) {
    0x20 <= b && b != QUOTE && b != BACKSLASH
  }

  predicate AllHex(b: bytes) {
    forall i | 0 <= i < |b| :: HexDigit(b[i]).Some?
  }

  /** The letters of the two-byte escapes, and what they stand for. */
  predicate IsEscape(b: byte) {
    b in {0x22, 0x5C, 0x2F, 0x62, 0x66, 0x6E, 0x72, 0x74}
  }

  predicate EscapeStandsFor(b: byte, v: nat) {
    (b, v) in {(0x22, 0x22), (0x5C, 0x5C), (0x2F, 0x2F), (0x62, 0x08), (0x66, 0x0C), (0x6E, 0x0A), (0x72, 0x0D),
               (0x74, 0x09)}
  }

  /** The length of the grammar's first character in `b`: an unescaped byte, a
      two-byte escape or a \uXXXX escape; 0 when `b` does not start with one. */
  function CharLen(b: bytes): (n: nat)
    ensures n <= |b|
  {
    if b == [] then 0
    else if IsPlain(b[0]) then 1
    else if b[0] != BACKSLASH || |b| == 1 then 0
    else if IsEscape(b[1]) then 2
    else if |b| >= 6 && b[1] == LOWER_U && AllHex(b[2..6]) then 6
    else 0
  }

  /** A sequence of grammar characters. */
  predicate IsStringBody(b: bytes) {
    b == [] || (CharLen(b) > 0 && IsStringBody(b[CharLen(b)..]))
  }

  function HexValue(h: bytes, acc: nat): nat
    requires AllHex(h)
  {
    if h == [] then acc else HexValue(h[1..], acc * 16 + HexDigit(h[0]).value)
  }

  lemma {:induction false} HexUnitReads(h: bytes, k: bytes, acc: nat)
    requires AllHex(h)
    ensures HexUnit(h + k, |h|, acc) == Ok(HexValue(h, acc), k)
  {
    if h == [] {
      assert h + k == k;
    } else {
      assert (h + k)[1..] == h[1..] + k;
      HexUnitReads(h[1..], k, acc * 16 + HexDigit(h[0]).value);
    }
  }

  lemma {:induction false} HexUnitFound(s: bytes, n: nat, acc: nat)
    requires HexUnit(s, n, acc).Ok?
    ensures n <= |s| && AllHex(s[..n]) && HexUnit(s, n, acc) == Ok(HexValue(s[..n], acc), s[n..])
  {
    if n > 0 {
      HexUnitFound(s[1..], n - 1, acc * 16 + HexDigit(s[0]).value);
      assert s[..n] == [s[0]] + s[1..][..n - 1];
      assert s[..n][1..] == s[1..][..n - 1];
    }
  }

  /** The reader accepts exactly the grammar's characters and consumes exactly one. */
  lemma StringCharIsGrammar(s: bytes)
    ensures StringChar(s).Ok? <==> CharLen(s) > 0
    ensures StringChar(s).Ok? ==> StringChar(s).rest == s[CharLen(s)..]
  {
    if |s| >= 2 && s[0] == BACKSLASH && s[1] == LOWER_U {
      if StringChar(s).Ok? {
        HexUnitFound(s[2..], 4, 0);
        assert s[2..][..4] == s[2..6];
      }
      if CharLen(s) > 0 {
        HexUnitReads(s[2..6], s[6..], 0);
        assert s[2..] == s[2..6] + s[6..];
      }
    }
  }

  /** What one character of the grammar stands for. */
  predicate StandsFor(c: bytes, v: nat) {
    || (|c| == 1 && v == c[0])
    || (|c| == 2 && EscapeStandsFor(c[1], v))
    || (|c| == 6 && AllHex(c[2..])
        && v == HexDigit(c[2]).value * 0x1000 + HexDigit(c[3]).value * 0x100
                + HexDigit(c[4]).value * 0x10 + HexDigit(c[5]).value)
  }

  lemma FourHex(h: bytes)
    requires |h| == 4 && AllHex(h)
    ensures HexValue(h, 0)
         == HexDigit(h[0]).value * 0x1000 + HexDigit(h[1]).value * 0x100 + HexDigit(h[2]).value * 0x10 + HexDigit(h[3]).value
  {
    hide HexDigit;
    var a, b, c, d := h[0], h[1], h[2], h[3];
    assert h[1..] == [b, c, d] && [b, c, d][1..] == [c, d] && [c, d][1..] == [d] && [d][1..] == [];
    var x, y, z, w := HexDigit(a).value, HexDigit(b).value, HexDigit(c).value, HexDigit(d).value;
    assert HexValue([d], (x * 16 + y) * 16 + z) == ((x * 16 + y) * 16 + z) * 16 + w;
    assert HexValue([c, d], x * 16 + y) == ((x * 16 + y) * 16 + z) * 16 + w;
    assert HexValue([b, c, d], x) == ((x * 16 + y) * 16 + z) * 16 + w;
  }

  /** The value that is read is the one that the character stands for. */
  lemma StringCharValue(s: bytes)
    requires StringChar(s).Ok?
    ensures CharLen(s) > 0 && StandsFor(s[..CharLen(s)], StringChar(s).value)
  {
    StringCharIsGrammar(s);
    if CharLen(s) == 6 {
      HexUnitFound(s[2..], 4, 0);
      assert s[2..][..4] == s[2..6] == s[..6][2..];
      FourHex(s[2..6]);
    }
  }

  lemma CharLenLocal(b: bytes, k: bytes)
    requires CharLen(b) > 0
    ensures CharLen(b + k) == CharLen(b)
    ensures (b + k)[CharLen(b)..] == b[CharLen(b)..] + k
  {
    if |b| >= 6 {
      assert (b + k)[2..6] == b[2..6];
    }
  }

  lemma CharLenPrefix(s: bytes, b: bytes)
    requires CharLen(s) > 0
    ensures CharLen(s[..CharLen(s)] + b) == CharLen(s)
  {
    var n := CharLen(s);
    if n == 6 {
      assert (s[..n] + b)[2..6] == s[2..6];
    }
  }

  lemma StringRestMore(s: bytes, t: bytes, body: bytes, k: bytes)
    requires StringChar(s).Ok? && StringChar(s).rest == t && StringRest(t) == Ok(body, k)
    ensures |t| <= |s| && StringRest(s) == Ok(s[..|s| - |t|] + body, k)
  {
    hide StringChar;
  }

  lemma StringRestEnds(k: bytes)
    ensures StringRest([] + ([QUOTE] + k)) == Ok([], k)
  {
    assert [] + ([QUOTE] + k) == [QUOTE] + k;
  }

  lemma FirstOf(b: bytes, n: nat, q: bytes)
    requires n <= |b|
    ensures (b + q)[..n] == b[..n] && b[..n] + b[n..] == b && |b + q| - |b[n..] + q| == n
  {
  }

  /** A well-formed body, a quote and anything else: the scan returns exactly the body. */
  lemma {:induction false} StringRestReads(b: bytes, k: bytes)
    requires IsStringBody(b)
    ensures StringRest(b + ([QUOTE] + k)) == Ok(b, k)
  {
    hide StringRest, StringChar, CharLen;
    if b == [] {
      StringRestEnds(k);
    } else {
      var q := [QUOTE] + k;
      var n := CharLen(b);
      StringCharIsGrammar(b + q);
      CharLenLocal(b, q);
      StringRestReads(b[n..], k);
      FirstOf(b, n, q);
      StringRestMore(b + q, b[n..] + q, b[n..], k);
    }
  }

  lemma BodyExtends(s: bytes, b: bytes)
    requires CharLen(s) > 0 && IsStringBody(b)
    ensures IsStringBody(s[..CharLen(s)] + b)
  {
    CharLenPrefix(s, b);
    assert (s[..CharLen(s)] + b)[CharLen(s)..] == b;
  }

  /** Conversely, whatever the scan accepts is a well-formed body and a quote. */
  lemma {:induction false} StringRestFound(s: bytes, b: bytes, k: bytes)
    requires StringRest(s) == Ok(b, k)
    ensures IsStringBody(b)
    ensures s == b + ([QUOTE] + k)
  {
    StringCharIsGrammar(s);
    if StringChar(s).Ok? {
      var n := CharLen(s);
      var c := StringRest(s[n..]).value;
      StringRestFound(s[n..], c, k);
      BodyExtends(s, c);
      Regroup(s, n, c, [QUOTE] + k);
    } else {
      assert s == [QUOTE] + k;
    }
  }

  // ---- Decoding a body ----

  /** The units that reading a body character by character yields, None when a read fails. */
  function Units(b: bytes): Option<seq<nat>>
    decreases |b|
  {
    match StringChar(b)
    case Ok(u, t) =>
      (match Units(t)
       case Some(us) => Some([u] + us)
       case None => None)
    case Fail(e, _) => if e == ItemNotFound then Some([]) else None
  }

  /** Exactly the well-formed bodies decode. */
  lemma {:induction false} UnitsDefined(b: bytes)
    ensures Units(b).Some? <==> IsStringBody(b)
  {
    StringCharIsGrammar(b);
    match StringChar(b)
    case Ok(_, t) => UnitsDefined(t);
    case Fail(_, _) =>
  }
}
