/** Percent-encoding (sdk/core/core/src/az_span.c, lines 102-150) and the form body built
    from it (sdk/core/core/src/az_aad.c, lines 32-85). */
module UrlEncode {
  import opened Basics
  import opened JsonString
  import opened Separated
  import opened Spans

  const PERCENT: byte := 0x25

  /** Everything but the unreserved characters of section 2.3 of RFC 3986. */
  predicate ShouldEncode(c: byte) {
    !(c == 0x2D || c == 0x5F || c == 0x2E || c == 0x7E
      || 0x30 <= c <= 0x39 || 0x41 <= c <= 0x5A || 0x61 <= c <= 0x7A)
  }

  /** The unreserved characters of section 2.3 of RFC 3986. */
  predicate Unreserved(c: byte) {
    || 'A' as int <= c <= 'Z' as int
    || 'a' as int <= c <= 'z' as int
    || '0' as int <= c <= '9' as int
    || c in Ascii("-._~")
  }

  function EncodeByte(c: byte): (r: bytes)
    ensures |r| == if ShouldEncode(c) then 3 else 1
  {
    if ShouldEncode(c) then [PERCENT, UpperHex(c / 16), UpperHex(c % 16)] else [c]
  }

  /** Unreserved characters stand for themselves, all others become a percent sign and two
      upper-case hex digits (section 2.1 of RFC 3986). */
  lemma EncodeByteExactly(c: byte)
    ensures EncodeByte(c) == if Unreserved(c) then [c]
                             else [0x25, Ascii("0123456789ABCDEF")[c / 16], Ascii("0123456789ABCDEF")[c % 16]]
  {
    ReservedExactly(c);
    hide Ascii, UpperHex, ShouldEncode, Unreserved;
    UpperHexExactly(c / 16);
    UpperHexExactly(c % 16);
  }

  lemma ReservedExactly(c: byte)
    ensures ShouldEncode(c) <==> !Unreserved(c)
  {
    assert Ascii("-._~") == [0x2D, 0x2E, 0x5F, 0x7E];
  }

  function Encoded(s: bytes): bytes {
    if s == [] then [] else Encoded(s[..|s| - 1]) + EncodeByte(s[|s| - 1])
  }

  /** Percent-decoding, of section 2.1 of RFC 3986. */
  function Decoded(s: bytes): bytes
    decreases |s|
  {
    if s == [] then []
    else if s[0] == PERCENT && |s| >= 3 && HexDigit(s[1]).Some? && HexDigit(s[2]).Some? then
      [HexDigit(s[1]).value * 16 + HexDigit(s[2]).value] + Decoded(s[3..])
    else [s[0]] + Decoded(s[1..])
  }

  lemma DecodeByte(c: byte, k: bytes)
    ensures Decoded(EncodeByte(c) + k) == [c] + Decoded(k)
  {
    var s := EncodeByte(c) + k;
    assert s[|EncodeByte(c)|..] == k;
  }

  lemma EncodedLast(i: bytes, c: byte)
    ensures Encoded(i + [c]) == Encoded(i) + EncodeByte(c)
  {
    assert (i + [c])[..|i + [c]| - 1] == i;
  }

  lemma {:induction false} EncodedFirst(s: bytes)
    requires s != []
    ensures Encoded(s) == EncodeByte(s[0]) + Encoded(s[1..])
    decreases |s|
  {
    hide EncodeByte;
    var i, c := s[..|s| - 1], s[|s| - 1];
    if i == [] {
      assert s[1..] == [];
    } else {
      EncodedFirst(i);
      EncodedLast(i[1..], c);
      assert s[1..] == i[1..] + [c];
    }
  }

  /** Decoding is a left inverse of encoding. */
  lemma {:induction false} DecodeEncoded(s: bytes)
    ensures Decoded(Encoded(s)) == s
    decreases |s|
  {
    if s != [] {
      EncodedFirst(s);
      DecodeByte(s[0], Encoded(s[1..]));
      DecodeEncoded(s[1..]);
      assert [s[0]] + s[1..] == s;
    }
  }

  predicate NoAmp(s: bytes) {
    forall i | 0 <= i < |s| :: s[i] != AMP
  }

  /** An encoded text holds unreserved characters and percent escapes only, hence none of
      the separators of a form body. */
  lemma {:induction false} EncodedIsSafe(s: bytes)
    ensures forall i | 0 <= i < |Encoded(s)| :: Encoded(s)[i] == 0x25 || Unreserved(Encoded(s)[i])
    ensures NoAmp(Encoded(s))
    decreases |s|
  {
    if s != [] {
      EncodedIsSafe(s[..|s| - 1]);
      EncodeByteIsSafe(s[|s| - 1]);
    }
  }

  lemma EncodeByteIsSafe(c: byte)
    ensures forall i | 0 <= i < |EncodeByte(c)| :: EncodeByte(c)[i] == 0x25 || Unreserved(EncodeByte(c)[i])
    ensures NoAmp(EncodeByte(c))
  {
    ReservedExactly(c);
    HexIsUnreserved(c / 16);
    HexIsUnreserved(c % 16);
  }

  lemma HexIsUnreserved(n: nat)
    requires n < 16
    ensures Unreserved(UpperHex(n)) && UpperHex(n) != AMP
  {
  }

  /** How many bytes the encoding takes: the sizing pass. */
  method EncodedSize(src: bytes) returns (size: nat)
    ensures size == |Encoded(src)|
  {
    size := 0;
    for i := 0 to |src|
      invariant size == |Encoded(src[..i])|
    {
      assert src[..i + 1][..i] == src[..i];
      size := size + if ShouldEncode(src[i]) then 3 else 1;
    }
    assert src[..|src|] == src;
  }

  lemma {:induction false} EncodedMonotone(s: bytes, i: nat)
    requires i <= |s|
    ensures |Encoded(s[..i])| <= |Encoded(s)|
    decreases |s|
  {
    if i < |s| {
      EncodedMonotone(s[..|s| - 1], i);
      assert s[..|s| - 1][..i] == s[..i];
    } else {
      assert s[..i] == s;
    }
  }

  lemma EncodedSnoc(s: bytes, i: nat)
    requires i < |s|
    ensures Encoded(s[..i + 1]) == Encoded(s[..i]) + EncodeByte(s[i])
  {
    assert s[..i + 1][..i] == s[..i];
  }

  /** `az_span_copy_url_encode`: it succeeds exactly when the encoding fits. */
  method CopyUrlEncode(dst: Span, src: bytes) returns (r: Outcome<Span>)
    requires dst.Valid()
    modifies dst.buf
    ensures r.Success? <==> |Encoded(src)| <= dst.capacity
    ensures r.Success? ==>
      && r.value == dst.(length := |Encoded(src)|)
      && dst.buf[..] == Overwrite(old(dst.buf[..]), dst.ptr, Encoded(src))
    ensures r.Failure? ==> r.error == BufferOverflow && unchanged(dst.buf)
  {
    hide Encoded;
    var size := EncodedSize(src);
    if dst.capacity < size {
      return Failure(BufferOverflow);
    }
    ghost var b := dst.buf[..];
    assert src[..0] == [];
    EncodedNone();
    var s := 0;
    for i := 0 to |src|
      invariant s == |Encoded(src[..i])| && s <= size
      invariant dst.buf[..] == Overwrite(b, dst.ptr, Encoded(src[..i]))
    {
      EncodedMonotone(src, i + 1);
      EncodedSnoc(src, i);
      var e := EncodeByte(src[i]);
      WriteEncoded(dst.buf, dst.ptr + s, src[i]);
      OverwriteTwice(b, dst.ptr, Encoded(src[..i]), e);
      s := s + |e|;
    }
    assert src[..|src|] == src;
    return Success(dst.(length := s));
  }

  lemma EncodedNone()
    ensures Encoded([]) == []
  {
  }

  /** The body of the writing loop. */
  method WriteEncoded(buf: array<byte>, at: nat, c: byte)
    requires at + |EncodeByte(c)| <= buf.Length
    modifies buf
    ensures buf[..] == Overwrite(old(buf[..]), at, EncodeByte(c))
  {
    if !ShouldEncode(c) {
      buf[at] := c;
    } else {
      buf[at] := PERCENT;
      buf[at + 1] := UpperHex(c / 16);
      buf[at + 2] := UpperHex(c % 16);
    }
  }

  lemma OverwriteTwice(b: bytes, at: nat, x: bytes, y: bytes)
    requires at + |x| + |y| <= |b|
    ensures Overwrite(Overwrite(b, at, x), at + |x|, y) == Overwrite(b, at, x + y)
  {
  }

  /** `_az_span_append_with_url_encode` */
  method AppendUrlEncoded(self: Span, src: bytes) returns (r: Outcome<Span>)
    requires self.Valid()
    modifies self.buf
    ensures r.Success? <==> self.length + |Encoded(src)| <= self.capacity
    ensures r.Success? ==>
      && r.value == self.(length := self.length + |Encoded(src)|)
      && r.value.Contents() == old(self.Contents()) + Encoded(src)
    ensures r.Failure? ==> r.error == BufferOverflow && unchanged(self.buf)
  {
    hide Encoded, Overwrite;
    var remaining := self.capacity - self.length;
    var room := Span(self.buf, self.ptr + self.length, 0, remaining);
    ghost var b := self.buf[..];
    var c := CopyUrlEncode(room, src);
    if c.Failure? {
      return Failure(c.error);
    }
    r := Success(Span(self.buf, self.ptr, self.length + c.value.length, self.capacity));
    AppendedContents(b, self.ptr, self.length, Encoded(src));
    ghost var end := self.ptr + self.length + |Encoded(src)|;
    assert self.buf[self.ptr..end] == self.buf[..][self.ptr..end];
    assert b[self.ptr..self.ptr + self.length] == old(self.buf[self.ptr..self.ptr + self.length]);
  }

  // ---- The token request body ----

  // grant_type, client_credentials, client_id, scope, client_secret
  const GRANT_TYPE: bytes := [0x67, 0x72, 0x61, 0x6E, 0x74, 0x5F, 0x74, 0x79, 0x70, 0x65]
  const CREDENTIALS: bytes := [
    0x63, 0x6C, 0x69, 0x65, 0x6E, 0x74, 0x5F, 0x63, 0x72, 0x65, 0x64, 0x65, 0x6E, 0x74, 0x69, 0x61, 0x6C, 0x73]
  const ID_NAME: bytes := [0x63, 0x6C, 0x69, 0x65, 0x6E, 0x74, 0x5F, 0x69, 0x64]
  const SCOPE_NAME: bytes := [0x73, 0x63, 0x6F, 0x70, 0x65]
  const SECRET_NAME: bytes := [0x63, 0x6C, 0x69, 0x65, 0x6E, 0x74, 0x5F, 0x73, 0x65, 0x63, 0x72, 0x65, 0x74]

  // grant_type=client_credentials&client_id=
  const CLIENT_ID: bytes := (GRANT_TYPE + ([0x3D] + CREDENTIALS)) + ([0x26] + (ID_NAME + [0x3D]))
  // &scope=
  const SCOPE: bytes := [0x26] + (SCOPE_NAME + [0x3D])
  // &client_secret=
  const CLIENT_SECRET: bytes := [0x26] + (SECRET_NAME + [0x3D])

  function SecretText(secret: bytes): bytes {
    if secret == [] then [] else CLIENT_SECRET + Encoded(secret)
  }

  function BodyText(clientId: bytes, scopes: bytes, secret: bytes): bytes {
    CLIENT_ID + (Encoded(clientId) + (SCOPE + (Encoded(scopes) + SecretText(secret))))
  }

  /** `_az_aad_build_body`: it succeeds exactly when the whole text fits. */
  method AadBuildBody(body: Span, clientId: bytes, scopes: bytes, secret: bytes) returns (r: Outcome<Span>)
    requires body.Valid()
    modifies body.buf
    ensures r.Success? <==> body.length + |BodyText(clientId, scopes, secret)| <= body.capacity
    ensures r.Success? ==>
      && r.value.Valid() && r.value.buf == body.buf
      && r.value.Contents() == old(body.Contents()) + BodyText(clientId, scopes, secret)
    ensures r.Failure? ==> r.error == BufferOverflow
  {
    hide Encoded, Overwrite, CLIENT_ID, SCOPE, CLIENT_SECRET;
    ghost var c := body.Contents();
    r := Append(body, CLIENT_ID);
    if r.Failure? {
      return;
    }
    r := AppendUrlEncoded(r.value, clientId);
    if r.Failure? {
      return;
    }
    r := Append(r.value, SCOPE);
    if r.Failure? {
      return;
    }
    r := AppendUrlEncoded(r.value, scopes);
    if r.Failure? {
      return;
    }
    if |secret| > 0 {
      r := Append(r.value, CLIENT_SECRET);
      if r.Failure? {
        return;
      }
      r := AppendUrlEncoded(r.value, secret);
      if r.Failure? {
        return;
      }
      Regroup7(c, CLIENT_ID, Encoded(clientId), SCOPE, Encoded(scopes), CLIENT_SECRET, Encoded(secret));
    } else {
      Regroup7(c, CLIENT_ID, Encoded(clientId), SCOPE, Encoded(scopes), [], []);
      assert r.value.Contents() + [] + [] == r.value.Contents();
      ghost var none: bytes := [];
      assert none + none == none;
    }
  }

  lemma Regroup7(c: bytes, x1: bytes, x2: bytes, x3: bytes, x4: bytes, x5: bytes, x6: bytes)
    ensures c + x1 + x2 + x3 + x4 + x5 + x6 == c + (x1 + (x2 + (x3 + (x4 + (x5 + x6)))))
  {
  }

  // ---- Reading the form back ----

  function DecodedFields(fields: seq<FormField>): seq<FormField> {
    if fields == [] then []
    else [FormField(Decoded(fields[0].name), Decoded(fields[0].value))] + DecodedFields(fields[1..])
  }

  /** Cut at ampersands, each field at its first equal sign, and percent-decode. */
  function FormDecode(s: bytes): seq<FormField> {
    DecodedFields(Fields(s))
  }

  /** A name of the form: unreserved characters only. */
  predicate PlainName(s: bytes) {
    forall i | 0 <= i < |s| :: s[i] == 0x5F || 0x61 <= s[i] <= 0x7A
  }

  lemma {:induction false} PlainDecodes(s: bytes)
    requires PlainName(s)
    ensures Decoded(s) == s && AMP !in s && EQUALS !in s
    decreases |s|
  {
    if s != [] {
      PlainDecodes(s[1..]);
      assert [s[0]] + s[1..] == s;
    }
  }

  lemma GrantTypeSpelled()
    ensures GRANT_TYPE == Ascii("grant_type") && PlainName(GRANT_TYPE)
  {
  }

  lemma CredentialsSpelled()
    ensures CREDENTIALS == Ascii("client_credentials") && PlainName(CREDENTIALS)
  {
  }

  lemma IdSpelled()
    ensures ID_NAME == Ascii("client_id") && PlainName(ID_NAME)
  {
  }

  lemma ScopeSpelled()
    ensures SCOPE_NAME == Ascii("scope") && PlainName(SCOPE_NAME)
  {
  }

  lemma SecretSpelled()
    ensures SECRET_NAME == Ascii("client_secret") && PlainName(SECRET_NAME)
  {
  }

  /** A field with an encoded value, and what follows it. */
  lemma EncodedFieldReads(name: bytes, value: bytes, k: bytes)
    requires PlainName(name) && (k == [] || k[0] == AMP)
    ensures FormDecode(name + ([EQUALS] + (Encoded(value) + k)))
         == [FormField(name, value)] + if k == [] then [] else FormDecode(k[1..])
  {
    EncodedIsSafe(value);
    PlainFieldReads(name, Encoded(value), k);
    DecodeEncoded(value);
  }

  lemma PlainFieldReads(name: bytes, value: bytes, k: bytes)
    requires PlainName(name) && NoAmp(value) && (k == [] || k[0] == AMP)
    ensures FormDecode(name + ([EQUALS] + (value + k)))
         == [FormField(name, Decoded(value))] + if k == [] then [] else FormDecode(k[1..])
  {
    hide Fields, Decoded, PlainName;
    PlainDecodes(name);
    if k == [] {
      FieldsLast(name, value);
      assert value + k == value;
      assert [FormField(name, value)] + [] == [FormField(name, value)];
      FieldDecodes(FormField(name, value), []);
      NoFields();
    } else {
      FieldsFirst(name, value, k[1..]);
      Grouped(name, [EQUALS], value, AMP, k);
      FieldDecodes(FormField(name, value), Fields(k[1..]));
    }
  }

  lemma Grouped(a: bytes, b: bytes, c: bytes, sep: byte, k: bytes)
    requires k != [] && k[0] == sep
    ensures a + (b + (c + k)) == a + (b + c) + ([sep] + k[1..])
  {
  }

  lemma NoFields()
    ensures DecodedFields([]) == []
  {
  }

  lemma FieldDecodes(f: FormField, rest: seq<FormField>)
    ensures DecodedFields([f] + rest)
         == [FormField(Decoded(f.name), Decoded(f.value))] + DecodedFields(rest)
  {
    hide Decoded;
    assert ([f] + rest)[1..] == rest;
  }

  lemma SecretDecodes(secret: bytes)
    requires secret != []
    ensures SecretText(secret) != [] && SecretText(secret)[0] == AMP
    ensures FormDecode(SecretText(secret)[1..]) == [FormField(Ascii("client_secret"), secret)]
  {
    hide FormDecode, Encoded, Ascii, PlainName, SECRET_NAME;
    SecretSpelled();
    var n := SECRET_NAME;
    EncodedFieldReads(n, secret, []);
    assert ([AMP] + (n + [EQUALS]) + Encoded(secret))[1..] == n + ([EQUALS] + (Encoded(secret) + []));
  }

  lemma ScopeDecodes(scopes: bytes, k: bytes)
    requires k == [] || k[0] == AMP
    ensures var s := SCOPE + (Encoded(scopes) + k);
      && s != [] && s[0] == AMP
      && FormDecode(s[1..]) == [FormField(Ascii("scope"), scopes)] + if k == [] then [] else FormDecode(k[1..])
  {
    hide FormDecode, Encoded, Ascii, PlainName, SCOPE_NAME;
    ScopeSpelled();
    var n := SCOPE_NAME;
    EncodedFieldReads(n, scopes, k);
    assert ([AMP] + (n + [EQUALS]) + (Encoded(scopes) + k))[1..] == n + ([EQUALS] + (Encoded(scopes) + k));
  }

  lemma ClientDecodes(clientId: bytes, k: bytes)
    requires k != [] && k[0] == AMP
    ensures FormDecode(CLIENT_ID + (Encoded(clientId) + k))
         == [FormField(Ascii("grant_type"), Ascii("client_credentials")), FormField(Ascii("client_id"), clientId)]
            + FormDecode(k[1..])
  {
    hide FormDecode, Encoded, Ascii, PlainName, GRANT_TYPE, CREDENTIALS, ID_NAME;
    GrantTypeSpelled();
    CredentialsSpelled();
    IdSpelled();
    var r := ID_NAME + ([EQUALS] + (Encoded(clientId) + k));
    EncodedFieldReads(ID_NAME, clientId, k);
    PlainDecodes(CREDENTIALS);
    PlainFieldReads(GRANT_TYPE, CREDENTIALS, [AMP] + r);
    ConsParts(AMP, r);
    GroupedTwice(GRANT_TYPE, [EQUALS], CREDENTIALS, [AMP], ID_NAME, Encoded(clientId) + k);
  }

  lemma GroupedTwice(a: bytes, b: bytes, c: bytes, d: bytes, e: bytes, k: bytes)
    ensures ((a + (b + c)) + (d + (e + b))) + k == a + (b + (c + (d + (e + (b + k)))))
  {
  }

  /** Decoding the body as a form gives the arguments under their names, in this order, and
      a client secret exactly when there is one. */
  lemma BodyDecodes(clientId: bytes, scopes: bytes, secret: bytes)
    ensures FormDecode(BodyText(clientId, scopes, secret))
         == [FormField(Ascii("grant_type"), Ascii("client_credentials")),
             FormField(Ascii("client_id"), clientId),
             FormField(Ascii("scope"), scopes)]
            + if secret == [] then [] else [FormField(Ascii("client_secret"), secret)]
  {
    hide FormDecode, Encoded, Ascii, CLIENT_ID, SCOPE, CLIENT_SECRET;
    if secret != [] {
      SecretDecodes(secret);
    }
    ScopeDecodes(scopes, SecretText(secret));
    ClientDecodes(clientId, SCOPE + (Encoded(scopes) + SecretText(secret)));
  }

  /** The body determines the client, the scopes and the secret. */
  lemma BodyIsUnambiguous(a: bytes, b: bytes, c: bytes, a': bytes, b': bytes, c': bytes)
    requires BodyText(a, b, c) == BodyText(a', b', c')
    ensures a == a' && b == b' && c == c'
  {
    hide FormDecode, BodyText, Ascii;
    BodyDecodes(a, b, c);
    BodyDecodes(a', b', c');
    var f, f' := FormDecode(BodyText(a, b, c)), FormDecode(BodyText(a', b', c'));
    assert f[1].value == a && f[2].value == b && (c != [] ==> |f| == 4 && f[3].value == c);
    assert f'[1].value == a' && f'[2].value == b' && (c' != [] ==> |f'| == 4 && f'[3].value == c');
  }
}
