/** The restartable reader of HTTP responses (sdk/core/core/src/az_http_response.c). */
module HttpResponse {
  import opened Basics
  import opened Views
  import opened JsonNumber
  import opened Decimal
  import opened PointerReader
  import opened Separated

  const CR: byte := 0x0D
  const LF: byte := 0x0A
  const SPACE: byte := 0x20
  const TAB: byte := 0x09
  // HTTP/
  const HTTP_SLASH: bytes := [0x48, 0x54, 0x54, 0x50, 0x2F]

  datatype StatusLine = StatusLine(major: nat, minor: nat, code: nat, reason: bytes)
  datatype Header = Header(name: bytes, value: bytes)

  lemma Spelled()
    ensures HTTP_SLASH == Ascii("HTTP/") && [CR, LF] == Ascii("\r\n")
    ensures [SPACE, TAB] == Ascii(" \t") && [COLON, DOT] == Ascii(":.")
  {
  }

  predicate IsHttpSpace(c: byte) {
    c == SPACE || c == TAB
  }

  // ---- The readers as functions ----

  /** `_az_get_digit`, which does not check the length. */
  function Digit(s: bytes): (r: Result<nat, bytes>)
    ensures |r.rest| <= |s|
  {
    if s == [] then Fail(OutOfBounds, s)
    else if !IsDigit(s[0]) then Fail(UnexpectedChar, s)
    else Ok(s[0] - 0x30, s[1..])
  }

  /** The three digits of the status code, read without a check of the length. */
  function Code(s: bytes): (r: Result<nat, bytes>)
    ensures |r.rest| <= |s|
  {
    if |s| < 3 then Fail(OutOfBounds, s)
    else match ToUint64(s[..3])
      case Failure(e) => Fail(e, s)
      case Success(code) => Ok(code, s[3..])
  }

  /** The first index of a byte that is not a space, or the length. */
  function SpaceEnd(s: bytes): (i: nat)
    ensures i <= |s| && (i < |s| ==> !IsHttpSpace(s[i])) && (forall j | 0 <= j < i :: IsHttpSpace(s[j]))
  {
    if s == [] || !IsHttpSpace(s[0]) then 0 else 1 + SpaceEnd(s[1..])
  }

  /** Up to the line feed; the byte before it is dropped. A line feed at index 0 gives a
      negative end, which the slice takes as no end at all. */
  function Reason(s: bytes): (r: Result<bytes, bytes>)
    ensures |r.rest| <= |s|
  {
    var i := IndexOf(s, LF);
    if i == |s| then Fail(ItemNotFound, s)
    else Ok(if i == 0 then s else s[..i - 1], s[i + 1..])
  }

  /** `_az_get_http_status_line` */
  function ReadStatusLine(s: bytes): Result<StatusLine, bytes> {
    var (_, s) :- Expect(s, HTTP_SLASH);
    var (major, s) :- Digit(s);
    var (_, s) :- Expect(s, [DOT]);
    var (minor, s) :- Digit(s);
    var (_, s) :- Expect(s, [SPACE]);
    var (code, s) :- Code(s);
    var (_, s) :- Expect(s, [SPACE]);
    var (reason, s) :- Reason(s);
    Ok(StatusLine(major, minor, code, reason), s)
  }

  /** The loop over a field value: the index after the carriage return and the end of the
      value without the whitespace before it. */
  function FieldValue(s: bytes, offset: nat, end: nat): (r: Outcome<(nat, nat)>)
    requires end <= offset
    ensures r.Success? ==> r.value.1 <= r.value.0 <= |s| && r.value.0 > offset
    decreases |s| - offset
  {
    if offset >= |s| then Failure(OutOfBounds)
    else if s[offset] == CR then Success((offset + 1, end))
    else if IsHttpSpace(s[offset]) then FieldValue(s, offset + 1, end)
    else if s[offset] <= SPACE then Failure(UnexpectedChar)
    else FieldValue(s, offset + 1, offset + 1)
  }

  function ReadValue(s: bytes): (r: Result<bytes, bytes>)
    ensures |r.rest| <= |s|
  {
    match FieldValue(s, 0, 0)
    case Failure(e) => Fail(e, s)
    case Success((next, end)) =>
      var (_, t) :- Expect(s[next..], [LF]);
      Ok(s[..end], t)
  }

  function ReadHeader(s: bytes): (r: Result<Header, bytes>)
    ensures |r.rest| <= |s| && (r.Ok? ==> |r.rest| < |s|)
  {
    var i := IndexOf(s, COLON);
    if i == |s| then Fail(ItemNotFound, s)
    else
      var t := s[i + 1..];
      var j := SpaceEnd(t);
      if j == |t| then Fail(ItemNotFound, t)
      else
        var (value, u) :- ReadValue(t[j..]);
        Ok(Header(s[..i], value), u)
  }

  // ---- The state machine ----

  datatype NextKind = AtStatusLine | AtHeader | AtBody | AtEof

  datatype State = State(kind: NextKind, remaining: bytes)

  function StatusLineCall(response: bytes, st: State): (Outcome<StatusLine>, State) {
    match ReadStatusLine(response)
    case Ok(line, s) => (Success(line), State(AtHeader, s))
    case Fail(e, s) => (Failure(e), State(st.kind, s))
  }

  function HeaderCall(st: State): (r: (Outcome<Header>, State))
    ensures |r.1.remaining| <= |st.remaining| && (r.0.Success? ==> |r.1.remaining| < |st.remaining|)
  {
    if st.kind == AtBody then (Failure(ItemNotFound), st)
    else if st.kind != AtHeader then (Failure(HttpInvalidState), st)
    else if st.remaining == [] then (Failure(OutOfBounds), st)
    else if st.remaining[0] == CR then
      match Expect(st.remaining, [CR, LF])
      case Ok(_, s) => (Failure(ItemNotFound), State(AtBody, s))
      case Fail(e, s) => (Failure(e), State(st.kind, s))
    else
      match ReadHeader(st.remaining)
      case Ok(h, s) => (Success(h), State(st.kind, s))
      case Fail(e, s) => (Failure(e), State(st.kind, s))
  }

  /** Headers until a call does not return one. */
  function SkipHeaders(st: State): State
    decreases |st.remaining|
  {
    var (h, st1) := HeaderCall(st);
    if h.Success? then SkipHeaders(st1) else st1
  }

  function BodyFrom(st: State): (Outcome<bytes>, State) {
    (Success(st.remaining), State(AtEof, st.remaining))
  }

  function BodyCall(response: bytes, st: State): (Outcome<bytes>, State) {
    if st.kind == AtBody then BodyFrom(st)
    else if st.kind == AtHeader then BodyFrom(SkipHeaders(st))
    else
      var (line, st1) := StatusLineCall(response, st);
      if line.Failure? then (Failure(line.error), st1)
      else BodyFrom(SkipHeaders(st1))
  }

  // ---- Well-formed responses: sections 3.1.2 and 3.2 of RFC 7230, without obs-fold ----

  /** A header field with the optional whitespace around its value. */
  datatype Field = Field(name: bytes, before: bytes, value: bytes, after: bytes)
  datatype Response = Response(major: byte, minor: byte, code: bytes, reason: bytes, fields: seq<Field>, body: bytes)

  /** The optional whitespace of section 3.2.3: space and horizontal tab. */
  predicate IsOws(c: byte) {
    c in {0x20, 0x09}
  }

  predicate AllHttpSpace(s: bytes) {
    forall i | 0 <= i < |s| :: IsOws(s[i])
  }

  /** Visible bytes with spaces and tabs between them only. */
  predicate WFValue(v: bytes) {
    && (forall i | 0 <= i < |v| :: v[i] > 0x20 || IsOws(v[i]))
    && (v != [] ==> !IsOws(v[0]) && !IsOws(v[|v| - 1]))
  }

  predicate WFField(f: Field) {
    && f.name != [] && f.name[0] != CR && (forall i | 0 <= i < |f.name| :: f.name[i] != COLON)
    && AllHttpSpace(f.before) && AllHttpSpace(f.after) && WFValue(f.value)
  }

  predicate WFResponse(r: Response) {
    && IsDigit(r.major) && IsDigit(r.minor) && |r.code| == 3 && AllDigits(r.code)
    && (forall i | 0 <= i < |r.reason| :: r.reason[i] != LF)
    && (forall i | 0 <= i < |r.fields| :: WFField(r.fields[i]))
  }

  function FieldText(f: Field, k: bytes): bytes {
    f.name + ([COLON] + (f.before + (f.value + (f.after + ([CR, LF] + k)))))
  }

  function FieldsText(fields: seq<Field>, k: bytes): bytes {
    if fields == [] then k else FieldText(fields[0], FieldsText(fields[1..], k))
  }

  /** The text from the `n`-th field on. */
  function HeadersText(r: Response, n: nat): bytes
    requires n <= |r.fields|
  {
    FieldsText(r.fields[n..], [CR, LF] + r.body)
  }

  function ResponseText(r: Response): bytes {
    HTTP_SLASH + ([r.major] + ([DOT] + ([r.minor] + ([SPACE]
      + (r.code + ([SPACE] + (r.reason + ([CR, LF] + HeadersText(r, 0)))))))))
  }

  function LineOf(r: Response): StatusLine
    requires WFResponse(r)
  {
    StatusLine(r.major - 0x30, r.minor - 0x30, Val(r.code), r.reason)
  }

  function HeaderOf(f: Field): Header {
    Header(f.name, f.value)
  }

  // ---- Reading inverts printing ----

  lemma ExpectedReads(text: bytes, k: bytes)
    ensures Expect(text + k, text).Ok? && Expect(text + k, text).rest == k
  {
    assert (text + k)[..|text|] == text && (text + k)[|text|..] == k;
  }

  lemma CodeReads(code: bytes, k: bytes)
    requires |code| == 3 && AllDigits(code)
    ensures Code(code + k) == Ok(Val(code), k)
  {
    assert (code + k)[..3] == code && (code + k)[3..] == k;
    ThreeDigits(code);
    ToUint64Exactly(code);
  }

  lemma ThreeDigits(code: bytes)
    requires |code| == 3 && AllDigits(code)
    ensures Val(code) <= 999
  {
    var a, b, c := code[0], code[1], code[2];
    ValSnoc([], a);
    ValSnoc([a], b);
    ValSnoc([a, b], c);
    assert [] + [a] == [a] && [a] + [b] == [a, b] && [a, b] + [c] == code;
  }

  lemma ReasonReads(reason: bytes, k: bytes)
    requires forall i | 0 <= i < |reason| :: reason[i] != LF
    ensures Reason(reason + ([CR, LF] + k)) == Ok(reason, k)
  {
    var s := reason + ([CR, LF] + k);
    var a := reason + [CR];
    assert s == a + ([LF] + k);
    IndexOfIs(a, LF, k);
    assert s[..|a| - 1] == reason && s[|a| + 1..] == k;
  }

  lemma StatusLineReads(r: Response)
    requires WFResponse(r)
    ensures ReadStatusLine(ResponseText(r)) == Ok(LineOf(r), HeadersText(r, 0))
    ensures var line := ReadStatusLine(ResponseText(r)).value;
      line.major == r.major - 0x30 && line.minor == r.minor - 0x30 && line.code == Val(r.code) && line.reason == r.reason
  {
    hide Expect, Code, Reason, HeadersText, Val;
    var k := HeadersText(r, 0);
    var s8 := r.reason + ([CR, LF] + k);
    var s7 := [SPACE] + s8;
    var s6 := r.code + s7;
    var s5 := [SPACE] + s6;
    var s4 := [r.minor] + s5;
    var s3 := [DOT] + s4;
    var s2 := [r.major] + s3;
    ExpectedReads(HTTP_SLASH, s2);
    ConsParts(r.major, s3);
    ExpectedReads([DOT], s4);
    ConsParts(r.minor, s5);
    ExpectedReads([SPACE], s6);
    CodeReads(r.code, s7);
    ExpectedReads([SPACE], s8);
    ReasonReads(r.reason, k);
  }

  lemma {:induction false} SpaceEndIs(a: bytes, k: bytes)
    requires AllHttpSpace(a) && k != [] && !IsOws(k[0])
    ensures SpaceEnd(a + k) == |a|
  {
    var s := a + k;
    assert s[|a|] == k[0];
    assert forall i | 0 <= i < |a| :: s[i] == a[i];
  }

  /** Inside a value, at `offset`; the end moves with every byte that is not a space. */
  lemma {:induction false} ValueLoop(v: bytes, w: bytes, k: bytes, offset: nat, end: nat)
    requires WFValue(v) && AllHttpSpace(w) && offset <= |v| && end <= offset
    requires offset == |v| ==> end == |v|
    ensures FieldValue(v + (w + ([CR] + k)), offset, end) == Success((|v| + |w| + 1, |v|))
    decreases |v| - offset
  {
    var s := v + (w + ([CR] + k));
    if offset == |v| {
      TrailingLoop(v, w, k, offset);
    } else {
      assert s[offset] == v[offset];
      if IsHttpSpace(v[offset]) {
        ValueLoop(v, w, k, offset + 1, end);
      } else {
        ValueLoop(v, w, k, offset + 1, offset + 1);
      }
    }
  }

  lemma {:induction false} TrailingLoop(v: bytes, w: bytes, k: bytes, offset: nat)
    requires AllHttpSpace(w) && |v| <= offset <= |v| + |w|
    ensures FieldValue(v + (w + ([CR] + k)), offset, |v|) == Success((|v| + |w| + 1, |v|))
    decreases |v| + |w| - offset
  {
    var s := v + (w + ([CR] + k));
    if offset < |v| + |w| {
      assert s[offset] == w[offset - |v|];
      TrailingLoop(v, w, k, offset + 1);
    } else {
      assert s[offset] == CR;
    }
  }

  lemma ValueReads(v: bytes, w: bytes, k: bytes)
    requires WFValue(v) && AllHttpSpace(w)
    ensures ReadValue(v + (w + ([CR, LF] + k))) == Ok(v, k)
  {
    var s := v + (w + ([CR, LF] + k));
    assert [CR, LF] + k == [CR] + ([LF] + k);
    ValueLoop(v, w, [LF] + k, 0, 0);
    ExpectedReads([LF], k);
    assert s[|v| + |w| + 1..] == [LF] + k;
    assert s[..|v|] == v;
  }

  /** What follows the colon: the spaces end where a value starts or, without a value, at
      the end of the line. */
  lemma AfterColon(f: Field, k: bytes)
    requires WFField(f)
    ensures var t := f.before + (f.value + (f.after + ([CR, LF] + k)));
      SpaceEnd(t) < |t| && ReadValue(t[SpaceEnd(t)..]) == Ok(f.value, k)
  {
    hide ReadValue;
    var c := [CR, LF] + k;
    var v := f.value + (f.after + c);
    var t := f.before + v;
    if f.value == [] {
      var a := f.before + f.after;
      assert t == a + c;
      SpaceEndIs(a, c);
      assert t[|a|..] == [] + ([] + c);
      ValueReads([], [], k);
    } else {
      SpaceEndIs(f.before, v);
      assert t[|f.before|..] == v;
      ValueReads(f.value, f.after, k);
    }
  }

  /** A header comes out with the whitespace around its value trimmed. */
  lemma HeaderReads(f: Field, k: bytes)
    requires WFField(f)
    ensures ReadHeader(FieldText(f, k)) == Ok(HeaderOf(f), k)
    ensures HeaderOf(f).name == f.name && HeaderOf(f).value == f.value
    ensures FieldText(f, k) != [] && FieldText(f, k)[0] != CR
  {
    hide ReadValue, SpaceEnd, IndexOf;
    var t := f.before + (f.value + (f.after + ([CR, LF] + k)));
    var s := f.name + ([COLON] + t);
    IndexOfIs(f.name, COLON, t);
    AfterColon(f, k);
    NameSplit(f.name, t);
  }

  lemma NameSplit(name: bytes, t: bytes)
    requires name != []
    ensures var s := name + ([COLON] + t);
      |name| < |s| && s[0] == name[0] && s[..|name|] == name && s[|name| + 1..] == t
  {
  }

  // ---- Every sequence of calls ----

  datatype Call = GetStatusLine | GetNextHeader | GetBody
  datatype Reply = Line(line: Outcome<StatusLine>) | Head(header: Outcome<Header>) | Body(body: Outcome<bytes>)

  function Step(response: bytes, call: Call, st: State): (Reply, State) {
    match call
    case GetStatusLine => var (x, s) := StatusLineCall(response, st); (Line(x), s)
    case GetNextHeader => var (x, s) := HeaderCall(st); (Head(x), s)
    case GetBody => var (x, s) := BodyCall(response, st); (Body(x), s)
  }

  function Replies(response: bytes, calls: seq<Call>, st: State): seq<Reply>
    decreases |calls|
  {
    if calls == [] then []
    else var (x, s) := Step(response, calls[0], st); [x] + Replies(response, calls[1..], s)
  }

  /** Where a reader of `r` can be: before the status line, before the n-th header, at the
      body, or past it. */
  datatype Phase = Start | Headers(n: nat) | AtBodyPhase | Past

  predicate InPhase(r: Response, p: Phase, st: State) {
    match p
    case Start => st.kind == AtStatusLine
    case Headers(n) => n <= |r.fields| && st == State(AtHeader, HeadersText(r, n))
    case AtBodyPhase => st == State(AtBody, r.body)
    case Past => st == State(AtEof, r.body)
  }

  /** What a call promises, from the phase alone. */
  function Promise(r: Response, call: Call, p: Phase): (Reply, Phase)
    requires WFResponse(r)
  {
    match call
    case GetStatusLine => (Line(Success(LineOf(r))), Headers(0))
    case GetBody => (Body(Success(r.body)), Past)
    case GetNextHeader =>
      match p
      case Headers(n) =>
        if n < |r.fields| then (Head(Success(HeaderOf(r.fields[n]))), Headers(n + 1))
        else (Head(Failure(ItemNotFound)), AtBodyPhase)
      case AtBodyPhase => (Head(Failure(ItemNotFound)), AtBodyPhase)
      case _ => (Head(Failure(HttpInvalidState)), p)
  }

  function Promises(r: Response, calls: seq<Call>, p: Phase): seq<Reply>
    requires WFResponse(r)
    decreases |calls|
  {
    if calls == [] then []
    else var (x, q) := Promise(r, calls[0], p); [x] + Promises(r, calls[1..], q)
  }

  lemma HeaderKeeps(r: Response, p: Phase, st: State)
    requires WFResponse(r) && InPhase(r, p, st)
    ensures var (x, q) := Promise(r, GetNextHeader, p);
      x == Head(HeaderCall(st).0) && InPhase(r, q, HeaderCall(st).1)
  {
    hide ReadHeader, FieldText;
    if p.Headers? {
      if p.n < |r.fields| {
        var f := r.fields[p.n];
        assert r.fields[p.n..][0] == f && r.fields[p.n..][1..] == r.fields[p.n + 1..];
        HeaderReads(f, HeadersText(r, p.n + 1));
      } else {
        assert HeadersText(r, p.n) == [CR, LF] + r.body;
        ExpectedReads([CR, LF], r.body);
      }
    }
  }

  lemma {:induction false} SkipKeeps(r: Response, n: nat, st: State)
    requires WFResponse(r) && InPhase(r, Headers(n), st)
    ensures SkipHeaders(st) == State(AtBody, r.body)
    decreases |r.fields| - n
  {
    hide HeaderCall, InPhase;
    assert n <= |r.fields| by { HeaderIndex(r, n, st); }
    HeaderKeeps(r, Headers(n), st);
    HeaderShrinks(st);
    if n < |r.fields| {
      SkipKeeps(r, n + 1, HeaderCall(st).1);
    } else {
      BodyReached(r, HeaderCall(st).1);
    }
  }

  lemma HeaderIndex(r: Response, n: nat, st: State)
    requires InPhase(r, Headers(n), st)
    ensures n <= |r.fields|
  {
  }

  lemma BodyReached(r: Response, st: State)
    requires InPhase(r, AtBodyPhase, st)
    ensures st == State(AtBody, r.body)
  {
  }

  lemma HeaderShrinks(st: State)
    ensures HeaderCall(st).0.Success? ==> |HeaderCall(st).1.remaining| < |st.remaining|
  {
  }

  /** One call, of whatever kind and from whatever phase. */
  lemma StepKeeps(r: Response, call: Call, p: Phase, st: State)
    requires WFResponse(r) && InPhase(r, p, st)
    ensures var (x, q) := Promise(r, call, p);
      var (y, s) := Step(ResponseText(r), call, st);
      x == y && InPhase(r, q, s)
  {
    hide ReadStatusLine, HeaderCall, SkipHeaders, ResponseText, HeadersText;
    StatusLineReads(r);
    match call
    case GetStatusLine =>
    case GetNextHeader =>
      HeaderKeeps(r, p, st);
    case GetBody =>
      if p.Headers? {
        SkipKeeps(r, p.n, st);
      } else if !p.AtBodyPhase? {
        SkipKeeps(r, 0, State(AtHeader, HeadersText(r, 0)));
      }
  }

  /** The state, and the phase, after all calls. */
  function StateAfter(response: bytes, calls: seq<Call>, st: State): State
    decreases |calls|
  {
    if calls == [] then st else StateAfter(response, calls[1..], Step(response, calls[0], st).1)
  }

  function PhaseAfter(r: Response, calls: seq<Call>, p: Phase): Phase
    requires WFResponse(r)
    decreases |calls|
  {
    if calls == [] then p else PhaseAfter(r, calls[1..], Promise(r, calls[0], p).1)
  }

  lemma {:induction false} RepliesKeep(r: Response, calls: seq<Call>, p: Phase, st: State)
    requires WFResponse(r) && InPhase(r, p, st)
    ensures Replies(ResponseText(r), calls, st) == Promises(r, calls, p)
    ensures InPhase(r, PhaseAfter(r, calls, p), StateAfter(ResponseText(r), calls, st))
    decreases |calls|
  {
    hide Step, Promise, InPhase, ResponseText, WFResponse;
    if calls != [] {
      StepKeeps(r, calls[0], p, st);
      RepliesKeep(r, calls[1..], Promise(r, calls[0], p).1, Step(ResponseText(r), calls[0], st).1);
    }
  }

  /** On a well-formed response, whatever the sequence of calls, every reply is the one that
      the phase promises: the status line always, each header once per restart and in order,
      then ItemNotFound, an invalid state before the status line and after the body, and
      always the same body. And the reader is then where that phase says: before the status
      line, at the text from some header on, or at the body. */
  lemma EverySequenceOfCalls(r: Response, calls: seq<Call>, remaining: bytes)
    requires WFResponse(r)
    ensures Replies(ResponseText(r), calls, State(AtStatusLine, remaining)) == Promises(r, calls, Start)
    ensures InPhase(r, PhaseAfter(r, calls, Start), StateAfter(ResponseText(r), calls, State(AtStatusLine, remaining)))
  {
    hide ResponseText, WFResponse;
    RepliesKeep(r, calls, Start, State(AtStatusLine, remaining));
  }

  // ---- The readers as they are written ----

  method ScanUntilByte(self: View, c: byte) returns (r: Outcome<nat>)
    ensures r == if IndexOf(self.bytes, c) == |self.bytes| then Failure(ItemNotFound) else Success(IndexOf(self.bytes, c))
  {
    for index := 0 to |self.bytes|
      invariant forall i | 0 <= i < index :: self.bytes[i] != c
    {
      if self.bytes[index] == c {
        return Success(index);
      }
    }
    return Failure(ItemNotFound);
  }

  method ScanUntilNotSpace(self: View) returns (r: Outcome<nat>)
    ensures r == if SpaceEnd(self.bytes) == |self.bytes| then Failure(ItemNotFound) else Success(SpaceEnd(self.bytes))
  {
    for index := 0 to |self.bytes|
      invariant forall i | 0 <= i < index :: IsHttpSpace(self.bytes[i])
    {
      if !IsHttpSpace(self.bytes[index]) {
        return Success(index);
      }
    }
    return Failure(ItemNotFound);
  }

  /** `next` follows the first carriage return, before which all bytes are visible or
      whitespace, and `end` is where the whitespace before it starts. */
  predicate Trimmed(s: bytes, next: int, end: nat) {
    && 0 < next <= |s| && s[next - 1] == 0x0D && end < next
    && (forall i | 0 <= i < next - 1 :: s[i] > 0x20 || IsOws(s[i]))
    && AllHttpSpace(s[end..next - 1])
    && (end > 0 ==> s[end - 1] > 0x20)
  }

  lemma {:induction false} FieldValueExactly(s: bytes, offset: nat, end: nat)
    requires end <= offset <= |s| && AllHttpSpace(s[end..offset]) && (end > 0 ==> s[end - 1] > 0x20)
    requires forall i | 0 <= i < offset :: s[i] > 0x20 || IsOws(s[i])
    ensures var r := FieldValue(s, offset, end); r.Success? ==> Trimmed(s, r.value.0, r.value.1)
    decreases |s| - offset
  {
    if offset < |s| && s[offset] != CR {
      if IsHttpSpace(s[offset]) {
        assert s[end..offset + 1] == s[end..offset] + [s[offset]];
        FieldValueExactly(s, offset + 1, end);
      } else if s[offset] > SPACE {
        FieldValueExactly(s, offset + 1, offset + 1);
      }
    }
  }

  method GetDigit(self: View) returns (r: Result<nat, View>)
    ensures Seen(r) == Digit(self.bytes)
  {
    // The C code reads the byte without this check.
    if |self.bytes| == 0 {
      return Fail(OutOfBounds, self);
    }
    var c := self.bytes[0];
    if !IsDigit(c) {
      return Fail(UnexpectedChar, self);
    }
    return Ok(c - 0x30, Slice(self, 1, -1));
  }

  /** The result of an expected text is that of the function. */
  lemma ExpectedSpan(s: bytes, text: bytes)
    ensures Expect(s, text).Ok? <==> text <= s
    ensures Expect(s, text).Ok? ==> Expect(s, text).rest == s[|text|..]
    ensures Expect(s, text).Fail? ==> Expect(s, text) == Fail(if |text| > |s| then EOF else UnexpectedChar, s)
  {
  }

  method GetCodeAndReason(self: View) returns (r: Result<(nat, bytes), View>)
    ensures Seen(r) == CodeAndReason(self.bytes)
  {
    hide Expect, ToUint64;
    if |self.bytes| < 3 {
      return Fail(OutOfBounds, self);
    }
    var code := SpanToUint64(self.bytes[..3]);
    if code.Failure? {
      return Fail(code.error, self);
    }
    var reader := Slice(self, 3, -1);
    ExpectedSpan(reader.bytes, [SPACE]);
    var e := IsExpectedSpan(reader, [SPACE]);
    if e.Fail? {
      return Fail(e.error, e.rest);
    }
    reader := e.rest;
    var offset := ScanUntilByte(reader, LF);
    if offset.Failure? {
      return Fail(offset.error, reader);
    }
    var i: int := offset.value;
    var reason := Slice(reader, 0, i - 1);
    return Ok((code.value, reason.bytes), Slice(reader, i + 1, -1));
  }

  /** The second half of a status line. */
  function CodeAndReason(s: bytes): Result<(nat, bytes), bytes> {
    var (code, s) :- Code(s);
    var (_, s) :- Expect(s, [SPACE]);
    var (reason, s) :- Reason(s);
    Ok((code, reason), s)
  }

  /** `_az_get_http_status_line` */
  method GetHttpStatusLine(self: View) returns (r: Result<StatusLine, View>)
    ensures Seen(r) == ReadStatusLine(self.bytes)
  {
    hide Expect, Code, Reason, Digit;
    ExpectedSpan(self.bytes, HTTP_SLASH);
    var e := IsExpectedSpan(self, HTTP_SLASH);
    if e.Fail? {
      return Fail(e.error, e.rest);
    }
    var major := GetDigit(e.rest);
    if major.Fail? {
      return Fail(major.error, major.rest);
    }
    ExpectedSpan(major.rest.bytes, [DOT]);
    e := IsExpectedSpan(major.rest, [DOT]);
    if e.Fail? {
      return Fail(e.error, e.rest);
    }
    var minor := GetDigit(e.rest);
    if minor.Fail? {
      return Fail(minor.error, minor.rest);
    }
    ExpectedSpan(minor.rest.bytes, [SPACE]);
    e := IsExpectedSpan(minor.rest, [SPACE]);
    if e.Fail? {
      return Fail(e.error, e.rest);
    }
    var tail := GetCodeAndReason(e.rest);
    if tail.Fail? {
      return Fail(tail.error, tail.rest);
    }
    return Ok(StatusLine(major.value, minor.value, tail.value.0, tail.value.1), tail.rest);
  }

  /** The value loop and the line feed after it. */
  method GetFieldValue(self: View) returns (r: Result<bytes, View>)
    ensures Seen(r) == ReadValue(self.bytes)
    ensures r.Ok? ==>
      var next := |self.bytes| - |r.rest.bytes| - 1;
      && Trimmed(self.bytes, next, |r.value|)
      && self.bytes[..|r.value|] == r.value && self.bytes[next..] == [0x0A] + r.rest.bytes
  {
    hide Expect, Trimmed;
    FieldValueExactly(self.bytes, 0, 0);
    var offset, end := 0, 0;
    while true
      invariant end <= offset <= |self.bytes|
      invariant FieldValue(self.bytes, offset, end) == FieldValue(self.bytes, 0, 0)
      decreases |self.bytes| - offset
    {
      // The C code reads the byte without this check.
      if offset >= |self.bytes| {
        return Fail(OutOfBounds, self);
      }
      var c := self.bytes[offset];
      offset := offset + 1;
      if c == CR {
        break;
      }
      if IsHttpSpace(c) {
        continue;
      }
      if c <= SPACE {
        return Fail(UnexpectedChar, self);
      }
      end := offset;
    }
    var value := Slice(self, 0, end);
    var reader := Slice(self, offset, -1);
    ExpectedSpan(reader.bytes, [LF]);
    var e := IsExpectedSpan(reader, [LF]);
    if e.Fail? {
      return Fail(e.error, e.rest);
    }
    return Ok(value.bytes, e.rest);
  }

  lemma StatusLineMoves(response: bytes, st: State)
    ensures StatusLineCall(response, st).0.Success? ==> StatusLineCall(response, st).1.kind == AtHeader
  {
    hide ReadStatusLine;
  }

  class HttpResponseReader {
    const response: View
    var remaining: View
    var nextKind: NextKind

    ghost function Abs(): State
      reads this
    {
      State(nextKind, remaining.bytes)
    }

    constructor (response: View)
      ensures this.response == response && Abs() == State(AtStatusLine, [])
    {
      this.response := response;
      remaining := EMPTY;
      nextKind := AtStatusLine;
    }

    method ReadLine() returns (r: Outcome<StatusLine>)
      modifies this
      ensures (r, Abs()) == StatusLineCall(response.bytes, old(Abs()))
    {
      hide ReadStatusLine;
      remaining := response;
      var line := GetHttpStatusLine(remaining);
      remaining := line.rest;
      if line.Fail? {
        return Failure(line.error);
      }
      nextKind := AtHeader;
      return Success(line.value);
    }

    method ReadNextHeader() returns (r: Outcome<Header>)
      modifies this
      ensures (r, Abs()) == HeaderCall(old(Abs()))
    {
      hide Expect, ReadValue;
      if nextKind == AtBody {
        return Failure(ItemNotFound);
      }
      if nextKind != AtHeader {
        return Failure(HttpInvalidState);
      }
      // The C code reads the byte without this check.
      if |remaining.bytes| == 0 {
        return Failure(OutOfBounds);
      }
      if remaining.bytes[0] == CR {
        ExpectedSpan(remaining.bytes, [CR, LF]);
        var e := IsExpectedSpan(remaining, [CR, LF]);
        remaining := e.rest;
        if e.Fail? {
          return Failure(e.error);
        }
        nextKind := AtBody;
        return Failure(ItemNotFound);
      }
      var colon := ScanUntilByte(remaining, COLON);
      if colon.Failure? {
        return Failure(colon.error);
      }
      var name := Slice(remaining, 0, colon.value);
      remaining := Slice(remaining, colon.value + 1, -1);
      var spaces := ScanUntilNotSpace(remaining);
      if spaces.Failure? {
        return Failure(spaces.error);
      }
      remaining := Slice(remaining, spaces.value, -1);
      var value := GetFieldValue(remaining);
      remaining := value.rest;
      if value.Fail? {
        return Failure(value.error);
      }
      return Success(Header(name.bytes, value.value));
    }

    method ReadBody() returns (r: Outcome<bytes>)
      modifies this
      ensures (r, Abs()) == BodyCall(response.bytes, old(Abs()))
    {
      hide StatusLineCall, HeaderCall;
      StatusLineMoves(response.bytes, Abs());
      var section := nextKind;
      if section != AtBody {
        if section == AtEof || section == AtStatusLine {
          var line := ReadLine();
          if line.Failure? {
            return Failure(line.error);
          }
          section := nextKind;
        }
        if section == AtHeader {
          ghost var goal := SkipHeaders(Abs());
          while true
            invariant SkipHeaders(Abs()) == goal
            decreases |remaining.bytes|
          {
            HeaderShrinks(Abs());
            var h := ReadNextHeader();
            if h.Failure? {
              break;
            }
          }
        }
      }
      var body := Slice(remaining, 0, -1);
      nextKind := AtEof;
      return Success(body.bytes);
    }
  }
}
