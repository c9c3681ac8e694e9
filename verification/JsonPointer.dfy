/** JSON pointers (sdk/core/core/src/az_json_pointer.c) and the comparison of a pointer
    token with a member name (sdk/core/core/src/az_json_get.c, lines 9-28). */
module JsonPointer {
  import opened Basics
  import opened JsonString

  const TILDE: byte := 0x7E

  function PointerChar(s: bytes): (r: Result<byte, bytes>)
    ensures |r.rest| <= |s| && (r.Ok? ==> |r.rest| < |s|)
    ensures r.Fail? && r.error == ItemNotFound <==> s == []
    ensures r.Fail? && r.error == PointerTokenEnd <==> s != [] && s[0] == SLASH
    ensures r.Fail? && r.error in {ItemNotFound, PointerTokenEnd} ==> r.rest == s
    ensures r.Fail? ==> r.error in {ItemNotFound, PointerTokenEnd, EOF, UnexpectedChar}
  {
    if s == [] then Fail(ItemNotFound, s)
    else if s[0] == SLASH then Fail(PointerTokenEnd, s)
    else if s[0] == TILDE then
      if |s| == 1 then Fail(EOF, s[1..])
      else if s[1] == 0x30 then Ok(TILDE, s[2..])
      else if s[1] == 0x31 then Ok(SLASH, s[2..])
      else Fail(UnexpectedChar, s[2..])
    else Ok(s[0], s[1..])
  }

  /** Characters up to a separator or the end. */
  function TokenRest(s: bytes): (r: Result<bytes, bytes>)
    ensures |r.rest| <= |s|
    ensures r.Fail? ==> r.error in {EOF, UnexpectedChar}
    decreases |s|
  {
    match PointerChar(s)
    case Ok(_, t) =>
      (match TokenRest(t)
       case Ok(token, u) => Ok(s[..|s| - |t|] + token, u)
       case Fail(e, u) => Fail(e, u))
    case Fail(e, t) =>
      if e == ItemNotFound || e == PointerTokenEnd then Ok([], t) else Fail(e, t)
  }

  /** `_az_span_reader_read_json_pointer_token` */
  function PointerToken(s: bytes): (r: Result<bytes, bytes>)
    ensures r.Ok? ==> |r.rest| < |s|
    ensures r.Fail? && r.error == ItemNotFound ==> s == []
  {
    if s == [] then Fail(ItemNotFound, s)
    else if s[0] != SLASH then Fail(UnexpectedChar, s)
    else TokenRest(s[1..])
  }

  /** `_az_span_reader_read_json_pointer_token_char` */
  function TokenChar(s: bytes): (r: Result<byte, bytes>)
    ensures r.Ok? ==> |r.rest| < |s|
    ensures r.Fail? && r.error == ItemNotFound <==> s == []
  {
    var r := PointerChar(s);
    if r.Fail? && r.error == PointerTokenEnd then Fail(UnexpectedChar, r.rest) else r
  }

  /** `az_json_pointer_token_eq_json_string` */
  function TokenEq(pt: bytes, js: bytes): bool
    decreases |pt|
  {
    var p := TokenChar(pt);
    var j := StringChar(js);
    if j.Fail? && j.error == ItemNotFound && p.Fail? && p.error == ItemNotFound then true
    else if j.Fail? || p.Fail? then false
    else if p.value != j.value then false
    else TokenEq(p.rest, j.rest)
  }

  /** The units that a pointer token decodes to, None when it is not well formed. */
  function TokenUnits(pt: bytes): Option<seq<nat>>
    decreases |pt|
  {
    match TokenChar(pt)
    case Ok(u, t) =>
      (match TokenUnits(t)
       case Some(us) => Some([u] + us)
       case None => None)
    case Fail(e, _) => if e == ItemNotFound then Some([]) else None
  }

  /** The comparison is equality of the decoded units, both being well formed. */
  lemma {:induction false} TokenEqExactly(pt: bytes, js: bytes)
    ensures TokenEq(pt, js) <==> TokenUnits(pt).Some? && TokenUnits(pt) == Units(js)
    decreases |pt|
  {
    var p := TokenChar(pt);
    var j := StringChar(js);
    if p.Ok? && j.Ok? {
      TokenEqExactly(p.rest, j.rest);
      var a, b := TokenUnits(p.rest), Units(j.rest);
      if a.Some? && b.Some? {
        assert [p.value as nat] + a.value == [j.value] + b.value ==> a.value == b.value by {
          assert ([p.value as nat] + a.value)[1..] == a.value;
          assert ([j.value] + b.value)[1..] == b.value;
        }
        assert [p.value as nat] + a.value == [j.value] + b.value ==> p.value == j.value by {
          assert ([p.value as nat] + a.value)[0] == p.value;
          assert ([j.value] + b.value)[0] == j.value;
        }
      }
    }
  }

  // ---- The characters of section 3 of RFC 6901, and what section 4 says they stand for ----

  predicate PointerStandsFor(c: bytes, v: byte) {
    || (c == [v] && v !in {0x2F, 0x7E})
    || (c == Ascii("~0") && v == 0x7E)
    || (c == Ascii("~1") && v == 0x2F)
  }

  lemma PointerEscapes()
    ensures Ascii("~0") == [0x7E, 0x30] && Ascii("~1") == [0x7E, 0x31]
  {
  }

  /** The reader takes exactly one character and yields what it stands for; writing escapes
      a byte to a character that stands for it. */
  lemma PointerCharExactly(s: bytes)
    ensures PointerChar(s).Ok? ==>
      var n := |s| - |PointerChar(s).rest|;
      PointerStandsFor(s[..n], PointerChar(s).value) && s[n..] == PointerChar(s).rest
    ensures forall c: bytes, v: byte | c <= s && PointerStandsFor(c, v) :: PointerChar(s) == Ok(v, s[|c|..])
    ensures PointerChar(s).Fail? ==>
      PointerChar(s).error == if s == [] then ItemNotFound
                              else if s[0] == 0x2F then PointerTokenEnd
                              else if s == [0x7E] then EOF
                              else UnexpectedChar
  {
    PointerEscapes();
    hide Ascii;
  }

  lemma EscapeByteExactly(b: byte)
    ensures PointerStandsFor(EscapeByte(b), b)
  {
    PointerEscapes();
    hide Ascii;
  }

  // ---- Writing pointers: sections 3 and 4 of RFC 6901 ----

  function EscapeByte(b: byte): bytes {
    if b == TILDE then [TILDE, 0x30] else if b == SLASH then [TILDE, 0x31] else [b]
  }

  function Escape(token: bytes): bytes {
    if token == [] then [] else EscapeByte(token[0]) + Escape(token[1..])
  }

  function Join(tokens: seq<bytes>): bytes {
    if tokens == [] then [] else [SLASH] + (Escape(tokens[0]) + Join(tokens[1..]))
  }

  lemma EscapedCharReads(b: byte, k: bytes)
    ensures PointerChar(EscapeByte(b) + k) == Ok(b, k)
    ensures |EscapeByte(b) + k| == |EscapeByte(b)| + |k|
    ensures (EscapeByte(b) + k)[..|EscapeByte(b)|] == EscapeByte(b)
  {
    var s := EscapeByte(b) + k;
    assert s[|EscapeByte(b)|..] == k;
  }

  lemma {:induction false} TokenRestReads(token: bytes, k: bytes)
    requires k == [] || k[0] == SLASH
    ensures TokenRest(Escape(token) + k) == Ok(Escape(token), k)
  {
    hide PointerChar, EscapeByte;
    if token == [] {
      assert Escape(token) + k == k;
      assert PointerChar(k).Fail?;
    } else {
      var e, es := EscapeByte(token[0]), Escape(token[1..]);
      EscapedCharReads(token[0], es + k);
      assert (e + es) + k == e + (es + k);
      TokenRestReads(token[1..], k);
    }
  }

  lemma {:induction false} EscapeUnits(token: bytes)
    ensures TokenUnits(Escape(token)) == Some(token)
  {
    if token != [] {
      EscapedCharReads(token[0], Escape(token[1..]));
      EscapeUnits(token[1..]);
      assert [token[0]] + token[1..] == token;
    }
  }

  /** Reading a token of a joined pointer yields the first token and leaves the others,
      empty tokens included. */
  lemma JoinReads(tokens: seq<bytes>)
    ensures tokens == [] ==> PointerToken(Join(tokens)) == Fail(ItemNotFound, [])
    ensures tokens != [] ==> PointerToken(Join(tokens)) == Ok(Escape(tokens[0]), Join(tokens[1..]))
    ensures tokens != [] ==> TokenUnits(Escape(tokens[0])) == Some(tokens[0])
  {
    if tokens != [] {
      var k := Join(tokens[1..]);
      ConsParts(SLASH, Escape(tokens[0]) + k);
      TokenRestReads(tokens[0], k);
      EscapeUnits(tokens[0]);
    }
  }

  /** All tokens of a pointer, decoded; None when reading fails. */
  function Tokens(p: bytes): Option<seq<bytes>>
    decreases |p|
  {
    match PointerToken(p)
    case Ok(t, q) =>
      (match Tokens(q)
       case Some(ts) => Some([Unescape(t)] + ts)
       case None => None)
    case Fail(e, _) => if e == ItemNotFound then Some([]) else None
  }

  function Unescape(pt: bytes): bytes
    decreases |pt|
  {
    match TokenChar(pt)
    case Ok(u, t) => [u] + Unescape(t)
    case Fail(_, _) => []
  }

  lemma {:induction false} UnescapeEscape(token: bytes)
    ensures Unescape(Escape(token)) == token
  {
    if token != [] {
      EscapedCharReads(token[0], Escape(token[1..]));
      UnescapeEscape(token[1..]);
    }
  }

  lemma PointerCharFound(s: bytes)
    requires PointerChar(s).Ok?
    ensures var (c, t) := (PointerChar(s).value, PointerChar(s).rest);
      s[..|s| - |t|] == EscapeByte(c) && s[|s| - |t|..] == t
  {
  }

  lemma UnescapeCons(b: byte, t: bytes)
    requires Escape(Unescape(t)) == t
    ensures Escape(Unescape(EscapeByte(b) + t)) == EscapeByte(b) + t
  {
    EscapedCharReads(b, t);
    ConsParts(b, Unescape(t));
  }

  lemma {:induction false} TokenRestFound(s: bytes)
    requires TokenRest(s).Ok?
    ensures var (t, k) := (TokenRest(s).value, TokenRest(s).rest);
      Escape(Unescape(t)) == t && s == t + k && (k == [] || k[0] == SLASH)
    decreases |s|
  {
    hide PointerChar, Escape, Unescape, EscapeByte;
    var c := PointerChar(s);
    if c.Ok? {
      TokenRestFound(c.rest);
      PointerCharFound(s);
      UnescapeCons(c.value, TokenRest(c.rest).value);
      Regroup(s, |s| - |c.rest|, TokenRest(c.rest).value, TokenRest(c.rest).rest);
    } else {
      UnescapeNone();
      assert s == [] + s;
    }
  }

  lemma UnescapeNone()
    ensures Escape(Unescape([])) == []
  {
  }

  /** The pointers whose tokens can all be read are exactly the joined ones, and reading
      and joining are inverse to each other. */
  lemma {:induction false} PointersAreJoins(p: bytes)
    requires Tokens(p).Some?
    ensures Join(Tokens(p).value) == p
    decreases |p|
  {
    var r := PointerToken(p);
    if r.Ok? {
      TokenRestFound(p[1..]);
      PointersAreJoins(r.rest);
      var ts := Tokens(r.rest).value;
      assert ([Unescape(r.value)] + ts)[1..] == ts;
      assert p == [SLASH] + p[1..];
    }
  }

  lemma {:induction false} JoinTokens(tokens: seq<bytes>)
    ensures Tokens(Join(tokens)) == Some(tokens)
  {
    JoinReads(tokens);
    if tokens != [] {
      JoinTokens(tokens[1..]);
      UnescapeEscape(tokens[0]);
      assert [tokens[0]] + tokens[1..] == tokens;
    }
  }
}
