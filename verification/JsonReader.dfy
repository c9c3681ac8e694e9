/** The readers of the JSON parser as they are written: loops that advance a span
    (sdk/core/core/src/az_json_string.c, lines 87-137; sdk/core/core/src/az_json_parser.c,
    lines 88-265). Each is proved against the function that specifies it. */
module JsonReader {
  import opened Basics
  import opened Views
  import opened JsonString
  import opened JsonNumber
  import opened JsonSyntax
  import opened JsonMachine

  method SkipWhiteSpace(self: View) returns (rest: View)
    ensures rest.bytes == SkipSpace(self.bytes)
    ensures Stripped(self.bytes, rest.bytes)
    ensures rest == self || Tight(rest)
  {
    hide Stripped;
    SkipSpaceExactly(self.bytes);
    rest := self;
    if |rest.bytes| == 0 {
      return;
    }
    while IsSpace(rest.bytes[0])
      invariant rest.bytes != [] && SkipSpace(rest.bytes) == SkipSpace(self.bytes)
      invariant rest == self || Tight(rest)
      decreases |rest.bytes|
    {
      rest := Slice(rest, 1, -1);
      if |rest.bytes| == 0 {
        return;
      }
    }
  }

  method HexToDigit(c: byte) returns (digit: Option<nat>)
    ensures digit == HexDigit(c)
  {
    if IsDigit(c) {
      return Some(c - 0x30);
    } else if 0x61 <= c <= 0x66 {
      return Some(c - (0x61 - 10));
    } else if 0x41 <= c <= 0x46 {
      return Some(c - (0x41 - 10));
    }
    return None;
  }

  /** `_az_span_reader_read_json_string_char` */
  method ReadStringChar(self: View) returns (r: Result<nat, View>)
    ensures Seen(r) == StringChar(self.bytes)
    ensures r.rest == self || Tight(r.rest)
  {
    if |self.bytes| == 0 {
      return Fail(ItemNotFound, self);
    }
    var result := self.bytes[0];
    if result == QUOTE {
      return Fail(StringEnd, self);
    }
    if result == BACKSLASH {
      var reader := Slice(self, 1, -1);
      if |reader.bytes| == 0 {
        return Fail(EOF, reader);
      }
      var c := reader.bytes[0];
      reader := Slice(reader, 1, -1);
      assert reader.bytes == self.bytes[2..];
      if c == LOWER_U {
        var unit := 0;
        for i := 0 to 4
          invariant Tight(reader)
          invariant HexUnit(self.bytes[2..], 4, 0) == HexUnit(reader.bytes, 4 - i, unit)
        {
          if |reader.bytes| == 0 {
            return Fail(EOF, reader);
          }
          var digit := HexToDigit(reader.bytes[0]);
          if digit.None? {
            return Fail(UnexpectedChar, reader);
          }
          unit := unit * 16 + digit.value;
          reader := Slice(reader, 1, -1);
        }
        return Ok(unit, reader);
      }
      var b := EscDecode(c);
      if b.None? {
        return Fail(UnexpectedChar, reader);
      }
      return Ok(b.value, reader);
    }
    if result < 0x20 {
      return Fail(UnexpectedChar, self);
    }
    return Ok(result, Slice(self, 1, -1));
  }

  function Prepend(p: bytes, r: Result<bytes, bytes>): Result<bytes, bytes> {
    if r.Ok? then Ok(p + r.value, r.rest) else r
  }

  lemma PrependTwice(p: bytes, c: bytes, r: Result<bytes, bytes>)
    ensures Prepend(p, Prepend(c, r)) == Prepend(p + c, r)
  {
    if r.Ok? {
      assert p + (c + r.value) == (p + c) + r.value;
    }
  }

  lemma StringRestStep(s: bytes, p: bytes)
    requires StringChar(s).Ok?
    ensures var t := StringChar(s).rest;
      |t| <= |s| && t == s[|s| - |t|..]
      && Prepend(p, StringRest(s)) == Prepend(p + s[..|s| - |t|], StringRest(t))
  {
    StringCharIsGrammar(s);
    var t := StringChar(s).rest;
    PrependTwice(p, s[..|s| - |t|], StringRest(t));
  }

  /** `az_span_reader_get_json_string_rest`. The length of the body is a difference of
      capacities, so the reader has to be tight; every caller has just sliced it. */
  method GetStringRest(self: View) returns (r: Result<bytes, View>)
    requires Tight(self)
    ensures Seen(r) == StringRest(self.bytes)
    ensures Tight(r.rest)
  {
    hide StringChar, StringRest;
    var initial := self.capacity;
    var reader: View := self;
    assert self.bytes[..0] == [];
    PrependNone(StringRest(self.bytes));
    while true
      invariant Tight(reader) && |reader.bytes| <= |self.bytes|
      invariant reader.bytes == self.bytes[|self.bytes| - |reader.bytes|..]
      invariant StringRest(self.bytes)
             == Prepend(self.bytes[..|self.bytes| - |reader.bytes|], StringRest(reader.bytes))
      decreases |reader.bytes|
    {
      var c := ReadStringChar(reader);
      StringRestUnfold(reader.bytes);
      if c.Fail? {
        if c.error == StringEnd {
          var count := initial - c.rest.capacity;
          assert self.bytes[..count] + [] == self.bytes[..count];
          return Ok(self.bytes[..count], Slice(c.rest, 1, -1));
        }
        if c.error == ItemNotFound {
          return Fail(EOF, c.rest);
        }
        return Fail(c.error, c.rest);
      }
      ghost var done := |self.bytes| - |reader.bytes|;
      StringRestStep(reader.bytes, self.bytes[..done]);
      assert self.bytes[..done] + reader.bytes[..|reader.bytes| - |c.rest.bytes|]
          == self.bytes[..|self.bytes| - |c.rest.bytes|];
      reader := c.rest;
    }
  }

  lemma PrependNone(r: Result<bytes, bytes>)
    ensures Prepend([], r) == r
  {
    if r.Ok? {
      assert [] + r.value == r.value;
    }
  }

  lemma StringRestUnfold(s: bytes)
    ensures var c := StringChar(s);
      c.Fail? ==>
        StringRest(s) == (if c.error == StringEnd then Ok([], s[1..])
                          else if c.error == ItemNotFound then Fail(EOF, c.rest)
                          else Fail(c.error, c.rest))
    ensures StringChar(s).Fail? && StringChar(s).error == StringEnd ==> StringChar(s).rest == s
    ensures StringChar(s).Ok? ==> |StringChar(s).rest| < |s|
  {
  }

  /** `az_span_reader_get_json_number_int` */
  method GetNumberInt(self: View, n: Dec, offset: int, first: byte) returns (m: Dec, rest: View)
    requires self.bytes != [] && self.bytes[0] == first && IsDigit(first)
    ensures (m, rest.bytes) == DigitRun(self.bytes, n, offset)
    ensures Tight(rest)
  {
    var c := first;
    m := n;
    rest := self;
    while true
      invariant rest.bytes != [] && rest.bytes[0] == c && IsDigit(c)
      invariant DigitRun(self.bytes, n, offset) == DigitRun(rest.bytes, m, offset)
      decreases |rest.bytes|
    {
      var d := c - 0x30;
      if m.value <= (DEC_NUMBER_MAX - d) / 10 {
        m := m.(value := m.value * 10 + d, exp := Wrap16(m.exp + offset));
      } else {
        if d != 0 {
          m := m.(remainder := true);
        }
        m := m.(exp := Wrap16(m.exp + (offset + 1)));
      }
      rest := Slice(rest, 1, -1);
      if |rest.bytes| == 0 {
        return;
      }
      c := rest.bytes[0];
      if !IsDigit(c) {
        return;
      }
    }
  }

  /** The exponent after its sign, in `az_span_reader_get_json_number_digit_rest`. */
  method GetExponentDigits(self: View, n: Dec, sign: int) returns (r: Result<Dec, View>)
    ensures Seen(r) == ExpDigits(self.bytes, n, sign)
    ensures r.rest == self || Tight(r.rest)
  {
    if |self.bytes| == 0 {
      return Fail(EOF, self);
    }
    var c := self.bytes[0];
    if !IsDigit(c) {
      return Fail(UnexpectedChar, self);
    }
    var e := 0;
    var reader := self;
    while true
      invariant reader.bytes != [] && reader.bytes[0] == c && IsDigit(c)
      invariant ExpRun(self.bytes, 0) == ExpRun(reader.bytes, e)
      decreases |reader.bytes|
    {
      e := Wrap16(e * 10 + (c - 0x30));
      reader := Slice(reader, 1, -1);
      if |reader.bytes| == 0 {
        break;
      }
      c := reader.bytes[0];
      if !IsDigit(c) {
        break;
      }
    }
    return Ok(n.(exp := Wrap16(n.exp + e * sign)), reader);
  }

  /** The fraction and the exponent, if any. */
  method GetNumberTail(self: View, n: Dec) returns (r: Result<Dec, View>)
    requires Tight(self)
    ensures Seen(r) == var f := FracPart(self.bytes, n); if f.Fail? then f else ExpPart(f.rest, f.value)
    ensures Tight(r.rest)
  {
    hide DigitRun, ExpDigits;
    var reader, m := self, n;
    if |reader.bytes| == 0 {
      return Ok(m, reader);
    }
    if reader.bytes[0] == DOT {
      reader := Slice(reader, 1, -1);
      if |reader.bytes| == 0 {
        return Fail(EOF, reader);
      }
      if !IsDigit(reader.bytes[0]) {
        return Fail(UnexpectedChar, reader);
      }
      m, reader := GetNumberInt(reader, m, -1, reader.bytes[0]);
    }
    if |reader.bytes| == 0 {
      return Ok(m, reader);
    }
    if IsE(reader.bytes[0]) {
      ghost var at := reader.bytes;
      reader := Slice(reader, 1, -1);
      if |reader.bytes| == 0 {
        return Fail(EOF, reader);
      }
      var sign := 1;
      var c := reader.bytes[0];
      if c == MINUS || c == PLUS {
        if c == MINUS {
          sign := -1;
        }
        reader := Slice(reader, 1, -1);
        assert reader.bytes == at[2..];
      }
      r := GetExponentDigits(reader, m, sign);
      return;
    }
    return Ok(m, reader);
  }

  /** `az_span_reader_get_json_number_digit_rest` */
  method GetNumber(self: View) returns (r: Result<Dec, View>)
    requires self.bytes != [] && (IsDigit(self.bytes[0]) || self.bytes[0] == MINUS)
    ensures Seen(r) == NumberRest(self.bytes)
    ensures Tight(r.rest)
  {
    hide FracPart, ExpPart, DigitRun;
    var reader := self;
    var n := ZERO;
    var o := reader.bytes[0];
    if o == MINUS {
      n := n.(negative := true);
      reader := Slice(reader, 1, -1);
      if |reader.bytes| == 0 {
        return Fail(EOF, reader);
      }
      o := reader.bytes[0];
      if !IsDigit(o) {
        return Fail(UnexpectedChar, reader);
      }
    }
    if o != 0x30 {
      n, reader := GetNumberInt(reader, n, 0, o);
    } else {
      reader := Slice(reader, 1, -1);
    }
    r := GetNumberTail(reader, n);
  }
}
