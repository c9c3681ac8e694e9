/** The pull parser as functions on its state: the unread bytes and the open containers
    (sdk/core/core/src/az_json_parser.c, lines 54-99 and 267-475). */
module JsonMachine {
  import opened Basics
  import opened JsonString
  import opened JsonNumber
  import opened JsonSyntax

  /** The stack lists the open containers, outermost first. */
  datatype State = State(reader: bytes, stack: seq<Kind>)

  function Top(stack: seq<Kind>): Kind
    requires stack != []
  {
    stack[|stack| - 1]
  }

  function Pop(stack: seq<Kind>): seq<Kind>
    requires stack != []
  {
    stack[..|stack| - 1]
  }

  /** The reader's result as a result of the parser: the stack is untouched. */
  function Lift<T>(r: Result<T, bytes>, stack: seq<Kind>): Result<T, State> {
    match r
    case Ok(v, t) => Ok(v, State(t, stack))
    case Fail(e, t) => Fail(e, State(t, stack))
  }

  function SkipSpace(s: bytes): (t: bytes)
    ensures |t| <= |s|
    ensures t == [] || !IsSpace(t[0])
  {
    if s != [] && IsSpace(s[0]) then SkipSpace(s[1..]) else s
  }

  /** `t` is `s` without the whitespace at its start. */
  predicate Stripped(s: bytes, t: bytes) {
    && |t| <= |s| && s[|s| - |t|..] == t && AllSpace(s[..|s| - |t|])
    && (t == [] || !IsWs(t[0]))
  }

  lemma {:induction false} SkipSpaceExactly(s: bytes)
    ensures Stripped(s, SkipSpace(s))
  {
    hide Stripped;
    if s != [] && IsSpace(s[0]) {
      SkipSpaceExactly(s[1..]);
      StrippedMore(s, SkipSpace(s[1..]));
    } else {
      StrippedNone(s);
    }
  }

  lemma StrippedMore(s: bytes, t: bytes)
    requires s != [] && IsWs(s[0]) && Stripped(s[1..], t)
    ensures Stripped(s, t)
  {
    assert s[..|s| - |t|] == [s[0]] + s[1..][..|s| - 1 - |t|];
  }

  lemma StrippedNone(s: bytes)
    requires s == [] || !IsWs(s[0])
    ensures Stripped(s, s)
  {
  }

  function Push(st: State, kind: Kind): (r: Result<(), State>)
    ensures r.Ok? <==> |st.stack| < MAX_DEPTH
    ensures r.Ok? ==> r.rest == State(st.reader, st.stack + [kind])
  {
    if |st.stack| >= MAX_DEPTH then Fail(NestingOverflow, st)
    else Ok((), State(st.reader, st.stack + [kind]))
  }

  function Literal(st: State, text: bytes, token: Token<Dec>): Result<Token<Dec>, State> {
    match Expect(st.reader, text)
    case Ok(_, t) => Ok(token, State(t, st.stack))
    case Fail(e, t) => Fail(e, State(t, st.stack))
  }

  function OpenContainer(st: State, kind: Kind): Result<Token<Dec>, State>
    requires st.reader != []
  {
    match Push(State(st.reader[1..], st.stack), kind)
    case Ok(_, st1) => Ok(Container(kind), st1)
    case Fail(e, st1) => Fail(e, st1)
  }

  /** The stack after a value token has been read. */
  function StackAfter(stack: seq<Kind>, token: Token<Dec>): seq<Kind> {
    if token.Container? then stack + [token.kind] else stack
  }

  function GetValue(st: State): (r: Result<Token<Dec>, State>)
    ensures r.Ok? ==> r.rest.stack == StackAfter(st.stack, r.value)
  {
    if st.reader == [] then Fail(EOF, st)
    else
      var c := st.reader[0];
      if IsDigit(c) || c == MINUS then
        match NumberRest(st.reader)
        case Ok(n, t) => Ok(Number(n), State(t, st.stack))
        case Fail(e, t) => Fail(e, State(t, st.stack))
      else if c == TRUE_TEXT[0] then Literal(st, TRUE_TEXT, Boolean(true))
      else if c == FALSE_TEXT[0] then Literal(st, FALSE_TEXT, Boolean(false))
      else if c == NULL_TEXT[0] then Literal(st, NULL_TEXT, Null)
      else if c == QUOTE then
        match StringRest(st.reader[1..])
        case Ok(b, t) => Ok(String(b), State(t, st.stack))
        case Fail(e, t) => Fail(e, State(t, st.stack))
      else if c == OPEN_BRACE then OpenContainer(st, Object)
      else if c == OPEN_BRACKET then OpenContainer(st, Array)
      else Fail(UnexpectedChar, st)
  }

  function GetValueSpace(st: State): (r: Result<Token<Dec>, State>)
    ensures r.Ok? ==> r.rest.stack == StackAfter(st.stack, r.value)
  {
    match GetValue(st)
    case Ok(token, st1) => Ok(token, State(SkipSpace(st1.reader), st1.stack))
    case Fail(e, st1) => Fail(e, st1)
  }

  /** `az_json_parser_parse_token`: the root value. */
  function ParseToken(st: State): Result<Token<Dec>, State> {
    if st.stack != [] then Fail(InvalidState, st)
    else
      var (token, st1) :- GetValueSpace(State(SkipSpace(st.reader), st.stack));
      if token.Container? then
        if st1.reader == [] then Fail(EOF, st1) else Ok(token, st1)
      else
        if st1.reader == [] then Ok(token, st1) else Fail(UnexpectedChar, st1)
  }

  /** `az_json_parser_read_comma_or_close`, called inside a container. */
  function CommaOrClose(st: State): Result<(), State>
    requires st.stack != []
  {
    if st.reader == [] then Fail(OutOfBounds, st)
    else if st.reader[0] == COMMA then Ok((), State(SkipSpace(st.reader[1..]), st.stack))
    else if st.reader[0] != CloseOf(Top(st.stack)) then Fail(UnexpectedChar, st)
    else Ok((), st)
  }

  /** What follows a closing bracket, `stack` being the containers still open. */
  function AfterClose(stack: seq<Kind>, tail: bytes): Result<(), State> {
    var st := State(SkipSpace(tail), stack);
    if stack == [] then Ok((), st) else CommaOrClose(st)
  }

  /** `az_json_parser_check_item_begin`: ItemNotFound when the container closes here. */
  function ItemBegin(kind: Kind, st: State): (r: Result<(), State>)
    ensures r.Ok? ==> r.rest == st && st.stack != [] && st.reader != []
  {
    if st.stack == [] || Top(st.stack) != kind then Fail(InvalidState, st)
    else if st.reader == [] then Fail(EOF, st)
    else if st.reader[0] != CloseOf(kind) then Ok((), st)
    else
      match AfterClose(Pop(st.stack), st.reader[1..])
      case Ok(_, st1) => Fail(ItemNotFound, st1)
      case Fail(e, st1) => Fail(e, st1)
  }

  /** The name of a member, with the colon and the whitespace after it. */
  function ReadKey(s: bytes): (r: Result<bytes, bytes>)
    ensures |r.rest| <= |s|
    ensures r.Ok? ==> |r.rest| < |s|
    ensures r.Fail? ==> r.error in {EOF, UnexpectedChar}
  {
    var (_, s1) :- Expect(s, [QUOTE]);
    var (name, s2) :- StringRest(s1);
    var s3 := SkipSpace(s2);
    var (_, s4) :- Expect(s3, [COLON]);
    Ok(name, SkipSpace(s4))
  }

  function ItemName(kind: Kind, st: State): (r: Result<Name, State>)
    ensures r.rest.stack == st.stack
  {
    if kind == Array then Ok(None, st)
    else
      match ReadKey(st.reader)
      case Ok(name, t) => Ok(Some(name), State(t, st.stack))
      case Fail(e, t) => Fail(e, State(t, st.stack))
  }

  /** `az_json_parser_check_item_end` */
  function ItemEnd(st: State, token: Token<Dec>): Result<(), State>
    requires st.stack != []
  {
    if token.Container? then Ok((), st) else CommaOrClose(st)
  }

  /** The value of an item and the comma or close after it. */
  function ItemValue(st: State): Result<Token<Dec>, State>
    requires st.stack != []
  {
    var (token, st1) :- GetValueSpace(st);
    var (_, st2) :- ItemEnd(st1, token);
    Ok(token, st2)
  }

  /** `az_json_parser_parse_token_member` for objects and
      `az_json_parser_parse_array_item` for arrays. */
  function ParseItem(kind: Kind, st: State): Result<(Name, Token<Dec>), State> {
    var (_, st1) :- ItemBegin(kind, st);
    var (name, st2) :- ItemName(kind, st1);
    var (token, st3) :- ItemValue(st2);
    Ok((name, token), st3)
  }

  /** `az_json_parser_done` */
  function Done(st: State): Result<(), State> {
    if |st.reader| > 0 || st.stack != [] then Fail(InvalidState, st) else Ok((), st)
  }

  // ---- Progress: every step that succeeds, and every close, consumes at least one byte ----

  predicate Advances<T>(r: Result<T, State>, s: bytes) {
    |r.rest.reader| <= |s| && (r.Ok? ==> |r.rest.reader| < |s|)
  }

  lemma GetValueProgress(st: State)
    ensures Advances(GetValue(st), st.reader)
    ensures GetValue(st).Fail? ==> GetValue(st).error in {EOF, UnexpectedChar, NestingOverflow}
  {
    hide NumberRest, StringRest;
  }

  lemma CommaOrCloseProgress(st: State)
    requires st.stack != []
    ensures |CommaOrClose(st).rest.reader| <= |st.reader|
    ensures CommaOrClose(st).rest.stack == st.stack
    ensures CommaOrClose(st).Fail? ==> CommaOrClose(st).error in {OutOfBounds, UnexpectedChar}
  {
  }

  lemma AfterCloseProgress(stack: seq<Kind>, tail: bytes)
    ensures |AfterClose(stack, tail).rest.reader| <= |tail|
    ensures AfterClose(stack, tail).rest.stack == stack
    ensures AfterClose(stack, tail).Fail? ==> AfterClose(stack, tail).error in {OutOfBounds, UnexpectedChar}
  {
  }

  lemma ItemValueProgress(st: State)
    requires st.stack != []
    ensures Advances(ItemValue(st), st.reader)
    ensures ItemValue(st).Fail? ==> ItemValue(st).error in {EOF, UnexpectedChar, NestingOverflow, OutOfBounds}
  {
    hide GetValue;
    GetValueProgress(st);
  }

  /** A close is the only source of ItemNotFound. */
  lemma ParseItemProgress(kind: Kind, st: State)
    ensures Advances(ParseItem(kind, st), st.reader)
    ensures ParseItem(kind, st).Fail? && ParseItem(kind, st).error == ItemNotFound
      ==> |ParseItem(kind, st).rest.reader| < |st.reader|
          && ItemBegin(kind, st) == Fail(ItemNotFound, ParseItem(kind, st).rest)
  {
    hide ItemValue, ReadKey;
    if ItemBegin(kind, st).Ok? && ItemName(kind, st).Ok? {
      ItemValueProgress(ItemName(kind, st).rest);
    }
  }
}
