/** The stack over whole runs: it always lists the brackets that are open in the
    bytes consumed so far (sdk/core/core/src/az_json_parser.c, lines 54-81). */
module JsonStack {
  import opened Basics
  import opened JsonString
  import opened JsonNumber
  import opened JsonSyntax
  import opened JsonMachine
  import opened JsonWalk
  import opened JsonSkip

  // ---- An independent reading of the brackets: one pass over the bytes ----

  datatype Mode = Outside | InString | Escaped
  datatype Lex = Lex(stack: seq<Kind>, mode: Mode)

  function LexByte(l: Lex, b: byte): Lex {
    match l.mode
    case Escaped => l.(mode := InString)
    case InString =>
      if b == BACKSLASH then l.(mode := Escaped) else if b == QUOTE then l.(mode := Outside) else l
    case Outside =>
      if b == QUOTE then l.(mode := InString)
      else if b == OPEN_BRACE then l.(stack := l.stack + [Object])
      else if b == OPEN_BRACKET then l.(stack := l.stack + [Array])
      else if (b == CLOSE_BRACE || b == CLOSE_BRACKET) && l.stack != [] then l.(stack := Pop(l.stack))
      else l
  }

  function LexAll(l: Lex, s: bytes): Lex
    decreases s
  {
    if s == [] then l else LexAll(LexByte(l, s[0]), s[1..])
  }

  /** The brackets opened and not closed in `s`, outside strings. */
  function OpenBrackets(s: bytes): Lex {
    LexAll(Lex([], Outside), s)
  }

  lemma {:induction false} LexConcat(l: Lex, a: bytes, b: bytes)
    ensures LexAll(l, a + b) == LexAll(LexAll(l, a), b)
    decreases a
  {
    if a == [] {
      assert a + b == b;
    } else {
      assert (a + b)[1..] == a[1..] + b;
      LexConcat(LexByte(l, a[0]), a[1..], b);
    }
  }

  predicate Neutral(s: bytes) {
    forall i | 0 <= i < |s| ::
      s[i] !in {QUOTE, OPEN_BRACE, OPEN_BRACKET, CLOSE_BRACE, CLOSE_BRACKET}
  }

  lemma {:induction false} LexNeutral(l: Lex, s: bytes)
    requires l.mode == Outside && Neutral(s)
    ensures LexAll(l, s) == l
    decreases s
  {
    if s != [] {
      LexNeutral(l, s[1..]);
    }
  }

  lemma {:induction false} LexBody(l: Lex, b: bytes)
    requires l.mode == InString && IsStringBody(b)
    ensures LexAll(l, b) == l
    decreases |b|
  {
    if b != [] {
      var n := CharLen(b);
      var c := b[..n];
      LexConcat(l, c, b[n..]);
      assert b == c + b[n..];
      LexChar(l, b);
      LexBody(l, b[n..]);
    }
  }

  lemma LexChar(l: Lex, b: bytes)
    requires l.mode == InString && CharLen(b) > 0
    ensures LexAll(l, b[..CharLen(b)]) == l
  {
    var c := b[..CharLen(b)];
    if CharLen(b) == 1 {
      assert c[1..] == [];
      assert LexAll(LexByte(l, c[0]), c[1..]) == l;
    } else {
      var m := LexByte(LexByte(l, c[0]), c[1]);
      assert m == l;
      assert c[1..][1..] == c[2..];
      assert LexAll(l, c) == LexAll(LexByte(l, c[0]), c[1..]) == LexAll(m, c[2..]);
      if CharLen(b) == 6 {
        assert c[2..] == b[2..6];
        LexHex(l, c[2..]);
      }
    }
  }

  lemma {:induction false} LexHex(l: Lex, h: bytes)
    requires l.mode == InString && AllHex(h)
    ensures LexAll(l, h) == l
    decreases h
  {
    if h != [] {
      LexHex(l, h[1..]);
    }
  }

  // ---- One consumed stretch of text ----

  /** The bytes between `s` and its suffix `t` take the brackets from `a` to `b`. */
  ghost predicate Tracks(s: bytes, t: bytes, a: seq<Kind>, b: seq<Kind>) {
    exists c :: s == c + t && LexAll(Lex(a, Outside), c) == Lex(b, Outside)
  }

  lemma TracksNone(s: bytes, a: seq<Kind>)
    ensures Tracks(s, s, a, a)
  {
    assert s == [] + s;
  }

  lemma TracksThen(s: bytes, t: bytes, u: bytes, a: seq<Kind>, b: seq<Kind>, c: seq<Kind>)
    requires Tracks(s, t, a, b) && Tracks(t, u, b, c)
    ensures Tracks(s, u, a, c)
  {
    var x :| s == x + t && LexAll(Lex(a, Outside), x) == Lex(b, Outside);
    var y :| t == y + u && LexAll(Lex(b, Outside), y) == Lex(c, Outside);
    LexConcat(Lex(a, Outside), x, y);
    assert s == (x + y) + u;
  }

  lemma TracksNeutral(c: bytes, t: bytes, a: seq<Kind>)
    requires Neutral(c)
    ensures Tracks(c + t, t, a, a)
  {
    LexNeutral(Lex(a, Outside), c);
  }

  lemma TracksByte(b: byte, t: bytes, l: Lex, m: seq<Kind>)
    requires l.mode == Outside && LexByte(l, b) == Lex(m, Outside)
    ensures Tracks([b] + t, t, l.stack, m)
  {
    assert LexAll(l, [b]) == LexAll(LexByte(l, b), []);
  }

  lemma TracksSpace(s: bytes, a: seq<Kind>)
    ensures Tracks(s, SkipSpace(s), a, a)
  {
    var ws := SkipSpaceFound(s);
    TracksNeutral(ws, SkipSpace(s), a);
  }

  lemma TracksString(b: bytes, t: bytes, a: seq<Kind>)
    requires IsStringBody(b)
    ensures Tracks([QUOTE] + (b + ([QUOTE] + t)), t, a, a)
  {
    var c := b + [QUOTE];
    var l := Lex(a, InString);
    LexBody(l, b);
    LexConcat(l, b, [QUOTE]);
    assert LexAll(l, [QUOTE]) == LexAll(LexByte(l, QUOTE), []);
    LexConcat(Lex(a, Outside), [QUOTE], c);
    assert LexAll(Lex(a, Outside), [QUOTE]) == LexAll(l, []);
    assert [QUOTE] + (b + ([QUOTE] + t)) == ([QUOTE] + c) + t;
  }

  lemma TracksNumber(n: Num, t: bytes, a: seq<Kind>)
    requires WFNum(n)
    ensures Tracks(NumText(n, t), t, a, a)
  {
    NumTextAppends(n, t);
    NumNeutral(n);
    TracksNeutral(NumText(n, []), t, a);
  }

  lemma NumNeutral(n: Num)
    requires WFNum(n)
    ensures Neutral(NumText(n, []))
  {
    var e := ExpText(n.exp, []);
    assert Neutral(e);
    var f := FracText(n.frac, e);
    assert Neutral(f);
    assert Neutral(n.whole + f);
  }

  // ---- The parser's steps ----

  lemma GetValueTracks(st: State)
    requires GetValue(st).Ok?
    ensures Tracks(st.reader, GetValue(st).rest.reader, st.stack, GetValue(st).rest.stack)
  {
    hide GetValue, NumText, Text, Tracks;
    var v, ws := ValueFound(st);
    var token, t := GetValue(st).value, GetValue(st).rest.reader;
    if token.Container? {
      TracksByte(OpenOf(token.kind), t, Lex(st.stack, Outside), st.stack + [token.kind]);
    } else {
      TracksScalar(v, t, st.stack);
    }
  }

  lemma TracksScalar(v: Json, t: bytes, a: seq<Kind>)
    requires WF(v) && !v.JContainer?
    ensures Tracks(Text(v, t), t, a, a)
  {
    hide NumText, Tracks;
    match v
    case JNull => TracksNeutral(NULL_TEXT, t, a);
    case JBoolean(b) => TracksNeutral(if b then TRUE_TEXT else FALSE_TEXT, t, a);
    case JNumber(num) => TracksNumber(num, t, a);
    case JString(body) => TracksString(body, t, a);
  }

  lemma CommaOrCloseTracks(st: State)
    requires st.stack != [] && CommaOrClose(st).Ok?
    ensures Tracks(st.reader, CommaOrClose(st).rest.reader, st.stack, CommaOrClose(st).rest.stack)
  {
    hide Tracks;
    var s := st.reader;
    if s[0] == COMMA {
      assert s == [COMMA] + s[1..];
      TracksByte(COMMA, s[1..], Lex(st.stack, Outside), st.stack);
      TracksSpace(s[1..], st.stack);
      TracksThen(s, s[1..], SkipSpace(s[1..]), st.stack, st.stack, st.stack);
    } else {
      TracksNone(s, st.stack);
    }
  }

  lemma CloseTracks(kind: Kind, st: State)
    requires ItemBegin(kind, st).Fail? && ItemBegin(kind, st).error == ItemNotFound
    ensures Tracks(st.reader, ItemBegin(kind, st).rest.reader, st.stack, ItemBegin(kind, st).rest.stack)
  {
    hide Tracks;
    var s, stack := st.reader, Pop(st.stack);
    AfterCloseProgress(stack, s[1..]);
    assert s == [CloseOf(kind)] + s[1..];
    TracksByte(CloseOf(kind), s[1..], Lex(st.stack, Outside), stack);
    TracksSpace(s[1..], stack);
    TracksThen(s, s[1..], SkipSpace(s[1..]), st.stack, stack, stack);
    var st1 := State(SkipSpace(s[1..]), stack);
    if stack != [] {
      CommaOrCloseTracks(st1);
      TracksThen(s, st1.reader, CommaOrClose(st1).rest.reader, st.stack, stack, CommaOrClose(st1).rest.stack);
    }
  }

  lemma NameTracks(kind: Kind, st: State)
    requires ItemName(kind, st).Ok?
    ensures Tracks(st.reader, ItemName(kind, st).rest.reader, st.stack, st.stack)
  {
    hide ItemName, Tracks;
    var key := NameFound(kind, st);
    var t, a := ItemName(kind, st).rest.reader, st.stack;
    if key.Key? {
      var u := key.ws + ([COLON] + (key.after + t));
      TracksString(key.name, u, a);
      var c := key.ws + ([COLON] + key.after);
      assert u == c + t;
      TracksNeutral(c, t, a);
      TracksThen(st.reader, u, t, a, a, a);
    } else {
      TracksNone(t, a);
    }
  }

  lemma ValueSpaceTracks(st: State)
    requires GetValueSpace(st).Ok?
    ensures Tracks(st.reader, GetValueSpace(st).rest.reader, st.stack, GetValueSpace(st).rest.stack)
  {
    hide GetValue, Tracks;
    GetValueTracks(st);
    var st1 := GetValue(st).rest;
    TracksSpace(st1.reader, st1.stack);
    TracksThen(st.reader, st1.reader, SkipSpace(st1.reader), st.stack, st1.stack, st1.stack);
  }

  /** The calls that a run goes on after: AZ_OK and AZ_ERROR_ITEM_NOT_FOUND. */
  predicate Tolerated<T, S>(r: Result<T, S>) {
    r.Ok? || r.error == ItemNotFound
  }

  lemma ParseItemTracks(kind: Kind, st: State)
    requires Tolerated(ParseItem(kind, st))
    ensures Tracks(st.reader, ParseItem(kind, st).rest.reader, st.stack, ParseItem(kind, st).rest.stack)
  {
    hide GetValueSpace, ReadKey, Tracks;
    ParseItemProgress(kind, st);
    if ParseItem(kind, st).Fail? {
      CloseTracks(kind, st);
    } else {
      NameTracks(kind, st);
      var st2 := ItemName(kind, st).rest;
      ValueSpaceTracks(st2);
      var st3 := GetValueSpace(st2).rest;
      TracksThen(st.reader, st2.reader, st3.reader, st.stack, st.stack, st3.stack);
      if !GetValueSpace(st2).value.Container? {
        CommaOrCloseTracks(st3);
        var st4 := CommaOrClose(st3).rest;
        TracksThen(st.reader, st3.reader, st4.reader, st.stack, st3.stack, st4.stack);
      }
    }
  }

  lemma ParseTokenTracks(st: State)
    requires ParseToken(st).Ok?
    ensures Tracks(st.reader, ParseToken(st).rest.reader, st.stack, ParseToken(st).rest.stack)
  {
    hide GetValueSpace, Tracks;
    TracksSpace(st.reader, st.stack);
    var st1 := State(SkipSpace(st.reader), st.stack);
    ValueSpaceTracks(st1);
    var st2 := GetValueSpace(st1).rest;
    TracksThen(st.reader, st1.reader, st2.reader, st.stack, st.stack, st2.stack);
  }

  lemma {:induction false} SkipTracks(st: State, target: seq<Kind>)
    requires Skip(st, target).Ok?
    ensures Tracks(st.reader, Skip(st, target).rest.reader, st.stack, Skip(st, target).rest.stack)
    ensures Skip(st, target).rest.stack == target
    decreases |st.reader|
  {
    hide ParseItem, Tracks;
    var kind := LastKind(st.stack);
    ParseItemProgress(kind, st);
    ParseItemTracks(kind, st);
    var st1 := ParseItem(kind, st).rest;
    if st1.stack != target {
      SkipTracks(st1, target);
      TracksThen(st.reader, st1.reader, Skip(st1, target).rest.reader, st.stack, st1.stack, target);
    }
  }

  // ---- Runs ----

  /** The calls of the parser's public interface. */
  datatype Call = TokenCall | ItemCall(kind: Kind) | SkipCall(token: Token<Dec>)

  function Step(call: Call, st: State): Result<(), State> {
    match call
    case TokenCall => Forget(ParseToken(st))
    case ItemCall(kind) => Forget(ParseItem(kind, st))
    case SkipCall(token) => SkipChildren(token, st)
  }

  /** The state after `calls`, None when one of them failed otherwise than with ItemNotFound. */
  function Run(calls: seq<Call>, st: State): Option<State>
    decreases |calls|
  {
    if calls == [] then Some(st)
    else
      var r := Step(calls[0], st);
      if Tolerated(r) then Run(calls[1..], r.rest) else None
  }

  lemma GetValueBounded(st: State)
    requires |st.stack| <= MAX_DEPTH
    ensures |GetValue(st).rest.stack| <= MAX_DEPTH
  {
    hide NumberRest, StringRest;
  }

  lemma ParseItemBounded(kind: Kind, st: State)
    requires |st.stack| <= MAX_DEPTH
    ensures |ParseItem(kind, st).rest.stack| <= MAX_DEPTH
  {
    hide GetValue, ReadKey;
    if st.stack != [] && st.reader != [] {
      AfterCloseProgress(Pop(st.stack), st.reader[1..]);
    }
    if ItemBegin(kind, st).Ok? && ItemName(kind, st).Ok? {
      GetValueBounded(ItemName(kind, st).rest);
    }
  }

  lemma {:induction false} SkipBounded(st: State, target: seq<Kind>)
    requires |st.stack| <= MAX_DEPTH
    ensures |Skip(st, target).rest.stack| <= MAX_DEPTH
    decreases |st.reader|
  {
    hide ParseItem;
    var kind := LastKind(st.stack);
    ParseItemProgress(kind, st);
    ParseItemBounded(kind, st);
    var r := ParseItem(kind, st);
    if Tolerated(r) && r.rest.stack != target {
      SkipBounded(r.rest, target);
    }
  }

  lemma StepTracks(call: Call, st: State)
    requires |st.stack| <= MAX_DEPTH && Tolerated(Step(call, st))
    ensures |Step(call, st).rest.stack| <= MAX_DEPTH
    ensures Tracks(st.reader, Step(call, st).rest.reader, st.stack, Step(call, st).rest.stack)
  {
    hide ParseItem, GetValue, Skip, Tracks;
    match call
    case TokenCall =>
      var st1 := State(SkipSpace(st.reader), st.stack);
      GetValueProgress(st1);
      ParseTokenTracks(st);
      GetValueBounded(st1);
    case ItemCall(kind) =>
      ParseItemTracks(kind, st);
      ParseItemBounded(kind, st);
    case SkipCall(token) =>
      TracksNone(st.reader, st.stack);
      if token.Container? && st.stack != [] {
        SkipErrors(st, Pop(st.stack));
        SkipTracks(st, Pop(st.stack));
        SkipBounded(st, Pop(st.stack));
      }
  }

  /** Skipping never reports ItemNotFound. */
  lemma {:induction false} SkipErrors(st: State, target: seq<Kind>)
    ensures Skip(st, target).Fail? ==> Skip(st, target).error != ItemNotFound
    decreases |st.reader|
  {
    hide ParseItem;
    ParseItemProgress(LastKind(st.stack), st);
    var r := ParseItem(LastKind(st.stack), st);
    if Tolerated(r) && r.rest.stack != target {
      SkipErrors(r.rest, target);
    }
  }

  lemma {:induction false} RunTracks(calls: seq<Call>, st: State)
    requires |st.stack| <= MAX_DEPTH && Run(calls, st).Some?
    ensures |Run(calls, st).value.stack| <= MAX_DEPTH
    ensures Tracks(st.reader, Run(calls, st).value.reader, st.stack, Run(calls, st).value.stack)
    decreases |calls|
  {
    hide Step, Tracks;
    if calls == [] {
      TracksNone(st.reader, st.stack);
    } else {
      StepTracks(calls[0], st);
      var st1 := Step(calls[0], st).rest;
      RunTracks(calls[1..], st1);
      var st2 := Run(calls, st).value;
      TracksThen(st.reader, st1.reader, st2.reader, st.stack, st1.stack, st2.stack);
    }
  }

  /** After any run from the start of any input: what is unread is a suffix, at most 63
      containers are open, and they are the brackets open in what has been read. */
  lemma StackIsOpenBrackets(json: bytes, calls: seq<Call>, st: State)
    requires Run(calls, State(json, [])) == Some(st)
    ensures |st.reader| <= |json| && json[|json| - |st.reader|..] == st.reader
    ensures OpenBrackets(json[..|json| - |st.reader|]) == Lex(st.stack, Outside)
    ensures |st.stack| <= MAX_DEPTH
  {
    RunTracks(calls, State(json, []));
    var c :| json == c + st.reader && LexAll(Lex([], Outside), c) == Lex(st.stack, Outside);
    assert json[..|json| - |st.reader|] == c;
  }

  // ---- Exactly when the stack makes a call fail ----

  /** The 64th open container is refused, and nothing else is refused with this error. */
  lemma OverflowExactly(st: State)
    ensures GetValue(st).Fail? && GetValue(st).error == NestingOverflow
      <==> st.reader != [] && st.reader[0] in {OPEN_BRACE, OPEN_BRACKET} && |st.stack| >= MAX_DEPTH
  {
    hide NumberRest, StringRest;
  }

  /** A call for the wrong kind of container fails with InvalidState, which is never
      returned otherwise, and changes nothing. */
  lemma WrongKindExactly(kind: Kind, st: State)
    ensures ParseItem(kind, st).Fail? && ParseItem(kind, st).error == InvalidState
      <==> st.stack == [] || Top(st.stack) != kind
    ensures st.stack == [] || Top(st.stack) != kind ==> ParseItem(kind, st).rest == st
  {
    hide ItemValue, ReadKey, AfterClose;
    if st.stack != [] && st.reader != [] {
      AfterCloseProgress(Pop(st.stack), st.reader[1..]);
    }
    if ItemBegin(kind, st).Ok? && ItemName(kind, st).Ok? {
      ItemValueProgress(ItemName(kind, st).rest);
    }
  }
}
