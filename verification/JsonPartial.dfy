/** The lookup on texts that are not documents: truncated or broken ones included
    (sdk/core/core/src/az_json_get.c). It agrees with a lookup in what the traversal delivers
    before it stops. */
module JsonPartial {
  import opened Basics
  import opened JsonString
  import opened JsonNumber
  import opened JsonSyntax
  import opened JsonMachine
  import opened JsonWalk
  import opened JsonSkip
  import opened JsonPointer
  import opened JsonLookup
  import opened Decimal

  // ---- What a traversal delivers before it stops ----

  /** A tree whose containers may be cut short by the error that stopped the traversal. */
  datatype Part = PartLeaf(token: Token<Dec>) | PartNode(kind: Kind, kids: Parts)
  datatype Parts = Closed | Cut(error: Error) | More(name: Name, tree: Part, rest: Parts)

  function PartOf(token: Token<Dec>, st: State): Part
    decreases |st.reader|, 1
  {
    if token.Container? then PartNode(token.kind, PartsOf(token.kind, st)) else PartLeaf(token)
  }

  function PartsOf(kind: Kind, st: State): Parts
    decreases |st.reader|, 0
  {
    ParseItemProgress(kind, st);
    match ParseItem(kind, st)
    case Fail(e, _) => if e == ItemNotFound then Closed else Cut(e)
    case Ok((name, token), st1) =>
      More(name, PartOf(token, st1),
           match WalkValue(token, st1)
           case Fail(e, _) => Cut(e)
           case Ok(_, st2) => PartsOf(kind, st2))
  }

  function RootOf(p: Part): Token<Dec> {
    match p
    case PartLeaf(token) => token
    case PartNode(kind, _) => Container(kind)
  }

  // ---- Complete trees ----

  function Whole(t: Tree<Dec>): Part {
    match t
    case Leaf(token) => PartLeaf(token)
    case Node(kind, kids) => PartNode(kind, WholeKids(kids))
  }

  function WholeKids(kids: Kids<Dec>): Parts {
    match kids
    case NoKids => Closed
    case Kid(name, tree, rest) => More(name, Whole(tree), WholeKids(rest))
  }

  /** The error that stopped the traversal, None when every container was closed. */
  function Stop(p: Part): Option<Error> {
    match p
    case PartLeaf(_) => None
    case PartNode(_, kids) => StopOf(kids)
  }

  function StopOf(kids: Parts): Option<Error> {
    match kids
    case Closed => None
    case Cut(e) => Some(e)
    case More(_, tree, rest) => if Stop(tree).Some? then Stop(tree) else StopOf(rest)
  }

  /** A traversal that succeeds delivers the whole tree; one that fails stops with its error. */
  lemma {:induction false} PartsAreWalk(kind: Kind, st: State)
    ensures match WalkKids(kind, st)
      case Ok(kids, _) => PartsOf(kind, st) == WholeKids(kids) && StopOf(PartsOf(kind, st)) == None
      case Fail(e, _) => StopOf(PartsOf(kind, st)) == Some(e)
    decreases |st.reader|, 0
  {
    hide ParseItem;
    ParseItemProgress(kind, st);
    var r := ParseItem(kind, st);
    if r.Ok? {
      var w := WalkValue(r.value.1, r.rest);
      PartIsWalk(r.value.1, r.rest);
      if w.Ok? {
        PartsAreWalk(kind, w.rest);
      }
    }
  }

  lemma {:induction false} PartIsWalk(token: Token<Dec>, st: State)
    ensures match WalkValue(token, st)
      case Ok(t, _) => PartOf(token, st) == Whole(t) && Stop(PartOf(token, st)) == None
      case Fail(e, _) => Stop(PartOf(token, st)) == Some(e)
    decreases |st.reader|, 1
  {
    if token.Container? {
      PartsAreWalk(token.kind, st);
    }
  }

  // ---- Lookup in it ----

  datatype Reached = Reached(part: Part) | Missing | Lost(error: Error)

  function NthPart(kids: Parts, i: nat): Reached {
    match kids
    case Closed => Missing
    case Cut(e) => Lost(e)
    case More(_, tree, rest) => if i == 0 then Reached(tree) else NthPart(rest, i - 1)
  }

  function NamedPart(kids: Parts, pt: bytes): Reached {
    match kids
    case Closed => Missing
    case Cut(e) => Lost(e)
    case More(name, tree, rest) =>
      if name.Some? && TokenUnits(pt).Some? && TokenUnits(pt) == Units(name.value) then Reached(tree)
      else NamedPart(rest, pt)
  }

  /** A token; nothing there, in a scalar or in a container that was closed; a pointer that
      cannot be read; or a text that cannot be read that far. */
  datatype Answer = Found(token: Token<Dec>) | Absent | BadPointer(error: Error) | Unreadable(error: Error)

  function PartLookup(p: Part, pointer: bytes): Answer
    decreases |pointer|, 0
  {
    match PointerToken(pointer)
    case Fail(e, _) => if e == ItemNotFound then Found(RootOf(p)) else BadPointer(e)
    case Ok(pt, rest) =>
      match p
      case PartLeaf(_) => Absent
      case PartNode(Object, kids) => Continue(NamedPart(kids, pt), rest)
      case PartNode(Array, kids) =>
        match ToUint64(pt)
        case Failure(e) => BadPointer(e)
        case Success(i) => Continue(NthPart(kids, i), rest)
  }

  function Continue(r: Reached, rest: bytes): Answer
    decreases |rest|, 1
  {
    match r
    case Missing => Absent
    case Lost(e) => Unreadable(e)
    case Reached(p) => PartLookup(p, rest)
  }

  function Collapse(a: Answer): Outcome<Token<Dec>> {
    match a
    case Found(token) => Success(token)
    case Absent => Failure(ItemNotFound)
    case BadPointer(e) => Failure(e)
    case Unreadable(e) => Failure(e)
  }

  /** What the lookup should answer on any text. */
  function AnswerFor(json: bytes, pointer: bytes): Answer {
    match ParseToken(State(json, []))
    case Fail(e, _) => Unreadable(e)
    case Ok(token, st) => PartLookup(PartOf(token, st), pointer)
  }

  // ---- The streaming lookup gives that answer ----

  /** The innermost open container is the one whose token has been read. */
  predicate Opened(token: Token<Dec>, st: State) {
    token.Container? ==> st.stack != [] && Top(st.stack) == token.kind
  }

  /** The state `r` of a search and what is reached in the parts. */
  predicate Same(r: Result<Token<Dec>, State>, p: Reached) {
    match p
    case Missing => r.Fail? && r.error == ItemNotFound
    case Lost(e) => r.Fail? && r.error == e
    case Reached(part) => r.Ok? && Opened(r.value, r.rest) && part == PartOf(r.value, r.rest)
  }

  /** After an item: its value is open if it is a container, and skipping it is traversing it. */
  lemma ItemOpened(kind: Kind, st: State)
    requires st.stack != [] && Top(st.stack) == kind && ParseItem(kind, st).Ok?
    ensures var (token, st1) := (ParseItem(kind, st).value.1, ParseItem(kind, st).rest);
      && Opened(token, st1)
      && SkipChildren(token, st1) == Forget(WalkValue(token, st1))
      && (WalkValue(token, st1).Ok? ==> WalkValue(token, st1).rest.stack == st.stack)
  {
    hide ParseItem, WalkKids, SkipChildren;
    var (token, st1) := (ParseItem(kind, st).value.1, ParseItem(kind, st).rest);
    assert st.stack == Pop(st.stack) + [kind];
    ParseItemStack(kind, st, Pop(st.stack));
    SkipChildrenIsWalk(token, st1);
    if token.Container? {
      assert Pop(st1.stack) == st.stack;
      SkipFollowsWalk(token.kind, st1, st.stack, st.stack);
    }
  }

  lemma {:induction false} IndexSame(st: State, i: nat)
    requires st.stack != [] && Top(st.stack) == Array
    ensures Same(FindIndex(st, i), NthPart(PartsOf(Array, st), i))
    decreases i
  {
    hide ParseItem, SkipChildren, WalkValue, PartOf;
    ParseItemProgress(Array, st);
    var r := ParseItem(Array, st);
    if r.Ok? {
      ItemOpened(Array, st);
      var w := WalkValue(r.value.1, r.rest);
      if i > 0 && w.Ok? {
        IndexSame(w.rest, i - 1);
      }
    }
  }

  lemma {:induction false} MemberSame(st: State, pt: bytes)
    requires st.stack != [] && Top(st.stack) == Object
    ensures Same(FindMember(st, pt), NamedPart(PartsOf(Object, st), pt))
    decreases |st.reader|
  {
    hide ParseItem, SkipChildren, WalkValue, PartOf, TokenEq, TokenUnits, Units;
    ParseItemProgress(Object, st);
    var r := ParseItem(Object, st);
    if r.Ok? {
      ItemOpened(Object, st);
      if r.value.0.Some? {
        TokenEqExactly(pt, r.value.0.value);
      }
      var w := WalkValue(r.value.1, r.rest);
      if !(r.value.0.Some? && TokenEq(pt, r.value.0.value)) && w.Ok? {
        WalkShrinks(r.value.1, r.rest);
        MemberSame(w.rest, pt);
      }
    }
  }

  lemma WalkShrinks(token: Token<Dec>, st: State)
    ensures |WalkValue(token, st).rest.reader| <= |st.reader|
  {
  }

  lemma {:induction false} DescendSame(st: State, token: Token<Dec>, pointer: bytes)
    requires Opened(token, st)
    ensures Descend(st, token, pointer) == Collapse(PartLookup(PartOf(token, st), pointer))
    decreases |pointer|
  {
    hide FindIndex, FindMember, NthPart, NamedPart, PartsOf, ToUint64, PointerToken;
    var t := PointerToken(pointer);
    if t.Ok? && token.Container? {
      if token.kind == Object {
        MemberSame(st, t.value);
        var f := FindMember(st, t.value);
        if f.Ok? {
          DescendSame(f.rest, f.value, t.rest);
        }
      } else if ToUint64(t.value).Success? {
        IndexSame(st, ToUint64(t.value).value);
        var f := FindIndex(st, ToUint64(t.value).value);
        if f.Ok? {
          DescendSame(f.rest, f.value, t.rest);
        }
      }
    }
  }

  lemma RootOpened(json: bytes)
    ensures ParseToken(State(json, [])).Ok? ==>
      Opened(ParseToken(State(json, [])).value, ParseToken(State(json, [])).rest)
  {
    hide GetValue;
  }

  /** For every text and every pointer the streaming lookup returns the answer found in what
      a traversal delivers before it stops. */
  lemma LookupOnAnyText(json: bytes, pointer: bytes)
    ensures ParseByPointer(json, pointer) == Collapse(AnswerFor(json, pointer))
  {
    hide ParseToken, Descend, PartLookup, PartOf;
    RootOpened(json);
    var r := ParseToken(State(json, []));
    if r.Ok? {
      DescendSame(r.rest, r.value, pointer);
    }
  }

  // ---- The errors are those of the traversal ----

  /** Nothing that is kept comes after a stop. */
  predicate Stopped(p: Part) {
    p.PartNode? ==> StoppedParts(p.kids)
  }

  predicate StoppedParts(kids: Parts) {
    kids.More? ==>
      && Stopped(kids.tree) && StoppedParts(kids.rest)
      && (Stop(kids.tree).Some? ==> kids.rest == Cut(Stop(kids.tree).value))
  }

  lemma {:induction false} PartsAreStopped(kind: Kind, st: State)
    ensures StoppedParts(PartsOf(kind, st))
    decreases |st.reader|, 0
  {
    hide ParseItem;
    ParseItemProgress(kind, st);
    var r := ParseItem(kind, st);
    if r.Ok? {
      PartIsStopped(r.value.1, r.rest);
      PartIsWalk(r.value.1, r.rest);
      var w := WalkValue(r.value.1, r.rest);
      if w.Ok? {
        PartsAreStopped(kind, w.rest);
      }
    }
  }

  lemma {:induction false} PartIsStopped(token: Token<Dec>, st: State)
    ensures Stopped(PartOf(token, st))
    decreases |st.reader|, 1
  {
    if token.Container? {
      PartsAreStopped(token.kind, st);
    }
  }

  lemma {:induction false} NthStops(kids: Parts, i: nat)
    requires StoppedParts(kids)
    ensures match NthPart(kids, i)
      case Missing => true
      case Lost(e) => StopOf(kids) == Some(e)
      case Reached(p) => Stopped(p) && (Stop(p).Some? ==> StopOf(kids) == Stop(p))
  {
    if kids.More? && i > 0 {
      NthStops(kids.rest, i - 1);
      BeforeStop(kids);
    } else if kids.More? {
      BeforeStop(kids);
    }
  }

  lemma {:induction false} NamedStops(kids: Parts, pt: bytes)
    requires StoppedParts(kids)
    ensures match NamedPart(kids, pt)
      case Missing => true
      case Lost(e) => StopOf(kids) == Some(e)
      case Reached(p) => Stopped(p) && (Stop(p).Some? ==> StopOf(kids) == Stop(p))
  {
    hide TokenUnits, Units;
    if kids.More? {
      NamedStops(kids.rest, pt);
      BeforeStop(kids);
    }
  }

  /** Whatever stops the rest of the kids, or the first of them, stops them all. */
  lemma BeforeStop(kids: Parts)
    requires StoppedParts(kids) && kids.More?
    ensures Stop(kids.tree).Some? ==> StopOf(kids) == Stop(kids.tree) == StopOf(kids.rest)
    ensures StopOf(kids.rest).Some? ==> StopOf(kids) == StopOf(kids.rest)
  {
  }

  lemma {:induction false} UnreadableStops(p: Part, pointer: bytes)
    requires Stopped(p) && PartLookup(p, pointer).Unreadable?
    ensures Stop(p) == Some(PartLookup(p, pointer).error)
    decreases |pointer|
  {
    hide NthPart, NamedPart, ToUint64, PointerToken, Stop, StopOf;
    var t := PointerToken(pointer);
    PartStops(p);
    if p.kind == Object {
      NamedStops(p.kids, t.value);
      var r := NamedPart(p.kids, t.value);
      if r.Reached? {
        UnreadableStops(r.part, t.rest);
      }
    } else {
      var i := ToUint64(t.value).value;
      NthStops(p.kids, i);
      var r := NthPart(p.kids, i);
      if r.Reached? {
        UnreadableStops(r.part, t.rest);
      }
    }
  }

  lemma PartStops(p: Part)
    ensures p.PartNode? ==> Stop(p) == StopOf(p.kids)
  {
  }

  /** A lookup that fails because the text cannot be read reports the error with which the
      full traversal of that text fails. */
  lemma UnreadableIsWalkError(json: bytes, pointer: bytes)
    requires AnswerFor(json, pointer).Unreadable?
    ensures WalkDocument(json).Fail? && WalkDocument(json).error == AnswerFor(json, pointer).error
  {
    hide ParseToken, PartLookup, PartOf, WalkValue, Stop, Stopped;
    var r := ParseToken(State(json, []));
    if r.Ok? {
      PartIsStopped(r.value, r.rest);
      PartIsWalk(r.value, r.rest);
      UnreadableStops(PartOf(r.value, r.rest), pointer);
    }
  }
}
