/** The pointer readers as they are written (sdk/core/core/src/az_json_pointer.c), the
    comparison loop (sdk/core/core/src/az_json_get.c, lines 9-28) and the index reader
    (sdk/core/core/src/az_span.c, lines 51-72). */
module PointerReader {
  import opened Basics
  import opened Views
  import opened JsonString
  import opened JsonReader
  import opened JsonPointer
  import opened Decimal

  method ReadPointerChar(self: View) returns (r: Result<byte, View>)
    ensures Seen(r) == PointerChar(self.bytes)
    ensures r.rest == self || Tight(r.rest)
  {
    if |self.bytes| == 0 {
      return Fail(ItemNotFound, self);
    }
    var result := self.bytes[0];
    if result == SLASH {
      return Fail(PointerTokenEnd, self);
    }
    var reader := Slice(self, 1, -1);
    if result == TILDE {
      if |reader.bytes| == 0 {
        return Fail(EOF, reader);
      }
      var e := reader.bytes[0];
      reader := Slice(reader, 1, -1);
      assert reader.bytes == self.bytes[2..];
      if e == 0x30 {
        return Ok(TILDE, reader);
      } else if e == 0x31 {
        return Ok(SLASH, reader);
      }
      return Fail(UnexpectedChar, reader);
    }
    return Ok(result, reader);
  }

  lemma TokenRestStep(s: bytes, p: bytes)
    requires PointerChar(s).Ok?
    ensures var t := PointerChar(s).rest;
      |t| < |s| && t == s[|s| - |t|..]
      && Prepend(p, TokenRest(s)) == Prepend(p + s[..|s| - |t|], TokenRest(t))
  {
    PointerCharFound(s);
    hide PointerChar, Prepend;
    var t := PointerChar(s).rest;
    assert TokenRest(s) == Prepend(s[..|s| - |t|], TokenRest(t)) by { TokenRestMore(s); }
    PrependTwice(p, s[..|s| - |t|], TokenRest(t));
  }

  lemma TokenRestMore(s: bytes)
    requires PointerChar(s).Ok?
    ensures var t := PointerChar(s).rest;
      |t| < |s| && TokenRest(s) == Prepend(s[..|s| - |t|], TokenRest(t))
  {
    hide PointerChar;
  }

  lemma TokenRestUnfold(s: bytes)
    ensures var c := PointerChar(s);
      c.Fail? ==>
        TokenRest(s) == (if c.error == ItemNotFound || c.error == PointerTokenEnd then Ok([], c.rest)
                         else Fail(c.error, c.rest))
    ensures PointerChar(s).Fail? && PointerChar(s).error in {ItemNotFound, PointerTokenEnd} ==> PointerChar(s).rest == s
  {
  }

  lemma TakeSplit(s: bytes, n: nat, rest: nat)
    requires n + rest <= |s|
    ensures s[..n] + s[n..][..|s| - n - rest] == s[..|s| - rest] && s[|s| - rest..] == s[n..][|s| - n - rest..]
  {
  }

  /** The loop of `_az_span_reader_read_json_pointer_token`; the length of the token is a
      difference of capacities, so the reader has to be tight. */
  method ReadTokenRest(self: View) returns (r: Result<bytes, View>)
    requires Tight(self)
    ensures Seen(r) == TokenRest(self.bytes)
    ensures Tight(r.rest)
  {
    hide PointerChar, TokenRest;
    var initial := self.capacity;
    var reader: View := self;
    ghost var start := self.bytes;
    assert start[..0] == [];
    PrependNone(TokenRest(start));
    while true
      invariant Tight(reader) && |reader.bytes| <= |start|
      invariant reader.bytes == start[|start| - |reader.bytes|..]
      invariant TokenRest(start) == Prepend(start[..|start| - |reader.bytes|], TokenRest(reader.bytes))
      decreases |reader.bytes|
    {
      var c := ReadPointerChar(reader);
      TokenRestUnfold(reader.bytes);
      if c.Fail? {
        if c.error == ItemNotFound || c.error == PointerTokenEnd {
          var count := initial - c.rest.capacity;
          assert start[..count] + [] == start[..count];
          return Ok(self.bytes[..count], c.rest);
        }
        return Fail(c.error, c.rest);
      }
      ghost var done := |start| - |reader.bytes|;
      TokenRestStep(reader.bytes, start[..done]);
      TakeSplit(start, done, |c.rest.bytes|);
      reader := c.rest;
    }
  }

  /** `_az_span_reader_read_json_pointer_token` */
  method ReadPointerToken(self: View) returns (r: Result<bytes, View>)
    ensures Seen(r) == PointerToken(self.bytes)
    ensures r.rest == self || Tight(r.rest)
  {
    hide TokenRest;
    if |self.bytes| == 0 {
      return Fail(ItemNotFound, self);
    }
    if self.bytes[0] != SLASH {
      return Fail(UnexpectedChar, self);
    }
    var reader: View := Slice(self, 1, -1);
    if |reader.bytes| == 0 {
      TokenRestNone();
      return Ok(reader.bytes, reader);
    }
    r := ReadTokenRest(reader);
  }

  lemma TokenRestNone()
    ensures TokenRest([]) == Ok([], [])
  {
  }

  /** `_az_span_reader_read_json_pointer_token_char` */
  method ReadPointerTokenChar(self: View) returns (r: Result<byte, View>)
    ensures Seen(r) == TokenChar(self.bytes)
  {
    r := ReadPointerChar(self);
    if r.Fail? && r.error == PointerTokenEnd {
      return Fail(UnexpectedChar, r.rest);
    }
  }

  /** `az_json_pointer_token_eq_json_string`: true exactly when both decode, and to the
      same units. */
  method PointerTokenEqJsonString(pt: bytes, js: bytes) returns (equal: bool)
    ensures equal == TokenEq(pt, js)
    ensures equal <==> TokenUnits(pt).Some? && TokenUnits(pt) == Units(js)
  {
    hide TokenChar, StringChar, TokenUnits, Units;
    TokenEqExactly(pt, js);
    var p: View, j: View := View(pt, |pt|), View(js, |js|);
    while true
      invariant TokenEq(p.bytes, j.bytes) == TokenEq(pt, js)
      decreases |p.bytes|
    {
      var pc := ReadPointerTokenChar(p);
      var jc := ReadStringChar(j);
      TokenCharShrinks(p.bytes);
      if jc.Fail? && jc.error == ItemNotFound && pc.Fail? && pc.error == ItemNotFound {
        return true;
      }
      if jc.Fail? || pc.Fail? {
        return false;
      }
      if pc.value != jc.value {
        return false;
      }
      p, j := pc.rest, jc.rest;
    }
  }

  lemma TokenCharShrinks(s: bytes)
    ensures TokenChar(s).Ok? ==> |TokenChar(s).rest| < |s|
  {
  }

  /** `az_span_to_uint64` */
  method SpanToUint64(self: bytes) returns (r: Outcome<uint64>)
    ensures r == ToUint64(self)
  {
    if |self| <= 0 {
      return Failure(EOF);
    }
    var value: uint64 := 0;
    for i := 0 to |self|
      invariant Accumulate(self[i..], value) == Accumulate(self, 0)
    {
      var result := self[i];
      if !IsDigit(result) {
        return Failure(UnexpectedChar);
      }
      var d := result - 0x30;
      if (UINT64_MAX - d) / 10 < value {
        return Failure(UnexpectedChar);
      }
      assert self[i..][1..] == self[i + 1..];
      value := value * 10 + d;
    }
    return Success(value);
  }
}
