/** Streaming lookup by JSON pointer (sdk/core/core/src/az_json_get.c) and the tree
    lookup that it refines. */
module JsonLookup {
  import opened Basics
  import opened JsonString
  import opened JsonNumber
  import opened JsonSyntax
  import opened JsonMachine
  import opened JsonWalk
  import opened JsonSkip
  import opened JsonPointer
  import opened Decimal

  // ---- The streaming code ----

  /** The array case of `az_json_parser_get_by_pointer_token`. */
  function FindIndex(st: State, i: nat): Result<Token<Dec>, State>
    decreases i
  {
    var (item, st1) :- ParseItem(Array, st);
    if i == 0 then Ok(item.1, st1)
    else
      var (_, st2) :- SkipChildren(item.1, st1);
      FindIndex(st2, i - 1)
  }

  /** The object case of `az_json_parser_get_by_pointer_token`. */
  function FindMember(st: State, pt: bytes): Result<Token<Dec>, State>
    decreases |st.reader|
  {
    ParseItemProgress(Object, st);
    match ParseItem(Object, st)
    case Fail(e, st1) => Fail(e, st1)
    case Ok((name, token), st1) =>
      if name.Some? && TokenEq(pt, name.value) then Ok(token, st1)
      else
        match SkipChildren(token, st1)
        case Fail(e, st2) => Fail(e, st2)
        case Ok(_, st2) => FindMember(st2, pt)
  }

  /** `az_json_parser_get_by_pointer_token` */
  function GetByToken(st: State, pt: bytes, token: Token<Dec>): Result<Token<Dec>, State> {
    if token == Container(Array) then
      match ToUint64(pt)
      case Failure(e) => Fail(e, st)
      case Success(i) => FindIndex(st, i)
    else if token == Container(Object) then FindMember(st, pt)
    else Fail(ItemNotFound, st)
  }

  /** The loop of `az_json_parse_by_pointer`. */
  function Descend(st: State, token: Token<Dec>, pointer: bytes): Outcome<Token<Dec>>
    decreases |pointer|
  {
    match PointerToken(pointer)
    case Fail(e, _) => if e == ItemNotFound then Success(token) else Failure(e)
    case Ok(pt, rest) =>
      match GetByToken(st, pt, token)
      case Fail(e, _) => Failure(e)
      case Ok(t, st1) => Descend(st1, t, rest)
  }

  /** `az_json_parse_by_pointer` */
  function ParseByPointer(json: bytes, pointer: bytes): Outcome<Token<Dec>> {
    match ParseToken(State(json, []))
    case Fail(e, _) => Failure(e)
    case Ok(token, st) => Descend(st, token, pointer)
  }

  // ---- Lookup in a tree ----

  function Nth(kids: Kids<Dec>, i: nat): Option<Tree<Dec>> {
    if kids.NoKids? then None else if i == 0 then Some(kids.tree) else Nth(kids.rest, i - 1)
  }

  /** The first kid whose name decodes to the same units as the pointer token. */
  function Named(kids: Kids<Dec>, pt: bytes): Option<Tree<Dec>> {
    if kids.NoKids? then None
    else if kids.name.Some? && TokenUnits(pt).Some? && TokenUnits(pt) == Units(kids.name.value) then Some(kids.tree)
    else Named(kids.rest, pt)
  }

  function OrNotFound(t: Option<Tree<Dec>>): Outcome<Tree<Dec>> {
    if t.Some? then Success(t.value) else Failure(ItemNotFound)
  }

  function Child(t: Tree<Dec>, pt: bytes): Outcome<Tree<Dec>> {
    match t
    case Leaf(_) => Failure(ItemNotFound)
    case Node(Object, kids) => OrNotFound(Named(kids, pt))
    case Node(Array, kids) =>
      match ToUint64(pt)
      case Failure(e) => Failure(e)
      case Success(i) => OrNotFound(Nth(kids, i))
  }

  /** Read a pointer token, go to that child, repeat. */
  function TreeLookup(t: Tree<Dec>, pointer: bytes): Outcome<Tree<Dec>>
    decreases |pointer|
  {
    match PointerToken(pointer)
    case Fail(e, _) => if e == ItemNotFound then Success(t) else Failure(e)
    case Ok(pt, rest) =>
      match Child(t, pt)
      case Failure(e) => Failure(e)
      case Success(c) => TreeLookup(c, rest)
  }

  function TokenOfOutcome(r: Outcome<Tree<Dec>>): Outcome<Token<Dec>> {
    match r
    case Success(t) => Success(RootToken(t))
    case Failure(e) => Failure(e)
  }

  // ---- Refinement ----

  /** The parser stands right after the token of `v`. */
  predicate At(v: Json, st: State, stack: seq<Kind>, tail: bytes) {
    WF(v) && (v.JContainer? ==>
                && st == Inside(v.kind, v.items, stack, tail)
                && AfterClose(stack, tail).Ok?
                && |stack| + 1 + ItemsDepth(v.items) <= MAX_DEPTH)
  }

  /** The same, of the value of an item. */
  lemma AtItem(kind: Kind, item: Items, stack: seq<Kind>, tail: bytes)
    requires item.Item? && WFItems(kind, item) && |stack| + 1 + ItemsDepth(item) <= MAX_DEPTH
    ensures At(item.value, AfterItem(kind, item, stack, tail), stack + [kind], Follow(item, [CloseOf(kind)] + tail))
  {
    hide AfterClose;
    FollowReads(kind, item, stack, tail);
  }

  /** Skipping the children of an item leads to the next one. */
  lemma SkipItem(kind: Kind, item: Items, stack: seq<Kind>, tail: bytes)
    requires item.Item? && WFItems(kind, item) && |stack| + 1 + ItemsDepth(item) <= MAX_DEPTH
    ensures var r := SkipChildren(TokenOf(item.value), AfterItem(kind, item, stack, tail));
      r.Ok? && r.rest == Inside(kind, item.next, stack, tail)
  {
    hide AfterClose, WalkKids, SkipChildren, ItemsText;
    var v := item.value;
    SkipChildrenIsWalk(TokenOf(v), AfterItem(kind, item, stack, tail));
    if v.JContainer? {
      FollowReads(kind, item, stack, tail);
      KidsRead(v.kind, v.items, stack + [kind], Follow(item, [CloseOf(kind)] + tail));
    }
  }

  /** The outcome `r` of a streaming search agrees with the child found in the tree. */
  predicate Agrees(r: Result<Token<Dec>, State>, child: Option<Tree<Dec>>, v: Json, stack: seq<Kind>, tail: bytes) {
    match child
    case None => r.Fail? && r.error == ItemNotFound
    case Some(t) => At(v, r.rest, stack, tail) && r.Ok? && r.value == TokenOf(v) && t == TreeOf(v)
  }

  lemma {:induction false} IndexAgrees(items: Items, i: nat, stack: seq<Kind>, tail: bytes)
    returns (v: Json, vstack: seq<Kind>, vtail: bytes)
    requires WFItems(Array, items) && |stack| + 1 + ItemsDepth(items) <= MAX_DEPTH
    requires AfterClose(stack, tail).Ok?
    ensures Agrees(FindIndex(Inside(Array, items, stack, tail), i), Nth(KidsOf(Array, items), i), v, vstack, vtail)
    decreases items
  {
    hide AfterClose, ParseItem, SkipChildren, Inside, AfterItem, At;
    v, vstack, vtail := JNull, [], [];
    if items.NoItems? {
      CloseReads(Array, stack, tail);
    } else {
      ItemReads(Array, items, stack, tail);
      if i == 0 {
        v, vstack, vtail := items.value, stack + [Array], Follow(items, [CloseOf(Array)] + tail);
        AtItem(Array, items, stack, tail);
      } else {
        SkipItem(Array, items, stack, tail);
        v, vstack, vtail := IndexAgrees(items.next, i - 1, stack, tail);
      }
    }
  }

  lemma {:induction false} MemberAgrees(items: Items, pt: bytes, stack: seq<Kind>, tail: bytes)
    returns (v: Json, vstack: seq<Kind>, vtail: bytes)
    requires WFItems(Object, items) && |stack| + 1 + ItemsDepth(items) <= MAX_DEPTH
    requires AfterClose(stack, tail).Ok?
    ensures Agrees(FindMember(Inside(Object, items, stack, tail), pt), Named(KidsOf(Object, items), pt), v, vstack, vtail)
    decreases items
  {
    hide AfterClose, ParseItem, SkipChildren, Inside, AfterItem, At, TokenEq, TokenUnits, Units;
    v, vstack, vtail := JNull, [], [];
    ParseItemProgress(Object, Inside(Object, items, stack, tail));
    if items.NoItems? {
      CloseReads(Object, stack, tail);
    } else {
      ItemReads(Object, items, stack, tail);
      TokenEqExactly(pt, items.key.name);
      if TokenEq(pt, items.key.name) {
        v, vstack, vtail := items.value, stack + [Object], Follow(items, [CloseOf(Object)] + tail);
        AtItem(Object, items, stack, tail);
      } else {
        SkipItem(Object, items, stack, tail);
        v, vstack, vtail := MemberAgrees(items.next, pt, stack, tail);
      }
    }
  }

  lemma {:induction false} DescendAgrees(v: Json, st: State, stack: seq<Kind>, tail: bytes, pointer: bytes)
    requires At(v, st, stack, tail)
    ensures Descend(st, TokenOf(v), pointer) == TokenOfOutcome(TreeLookup(TreeOf(v), pointer))
    decreases |pointer|
  {
    hide AfterClose, Inside, FindIndex, FindMember, Nth, Named, ToUint64, PointerToken;
    var r := PointerToken(pointer);
    if r.Ok? && v.JContainer? {
      if v.kind == Object {
        var c, cstack, ctail := MemberAgrees(v.items, r.value, stack, tail);
        var f := FindMember(st, r.value);
        if f.Ok? {
          DescendAgrees(c, f.rest, cstack, ctail, r.rest);
        }
      } else if ToUint64(r.value).Success? {
        var i := ToUint64(r.value).value;
        var c, cstack, ctail := IndexAgrees(v.items, i, stack, tail);
        var f := FindIndex(st, i);
        if f.Ok? {
          DescendAgrees(c, f.rest, cstack, ctail, r.rest);
        }
      }
    }
  }

  /** On every document and for every pointer, well formed or not, the streaming lookup
      gives the token found in the tree, or the same error. */
  lemma LookupRefines(d: Doc, pointer: bytes)
    requires WFDoc(d)
    ensures ParseByPointer(DocText(d), pointer) == TokenOfOutcome(TreeLookup(TreeOf(d.value), pointer))
  {
    hide ParseToken, Descend, TreeLookup, AfterClose;
    RootReads(d);
    AfterRoot(d.after);
    var st := ParseToken(State(DocText(d), [])).rest;
    assert At(d.value, st, [], d.after);
    DescendAgrees(d.value, st, [], d.after, pointer);
  }

  /** The same without naming the document: whenever the full traversal accepts a text,
      the lookup is a lookup in the traversal's tree. */
  lemma LookupIsWalkLookup(json: bytes, pointer: bytes)
    requires WalkDocument(json).Ok?
    ensures ParseByPointer(json, pointer) == TokenOfOutcome(TreeLookup(WalkDocument(json).value, pointer))
  {
    hide WalkDocument, ParseByPointer, TreeLookup;
    var d := DocumentFound(json);
    DocumentReads(d);
    LookupRefines(d, pointer);
  }

  // ---- Lookup along decoded tokens: section 4 of RFC 6901 ----

  /** One step along a decoded token: a member by its decoded name, an item by its index. */
  function Follows(t: Tree<Dec>, token: bytes): Outcome<Tree<Dec>> {
    match t
    case Leaf(_) => Failure(ItemNotFound)
    case Node(Object, kids) => OrNotFound(FirstNamed(kids, token))
    case Node(Array, kids) =>
      match ToUint64(token)
      case Failure(e) => Failure(e)
      case Success(i) => OrNotFound(Nth(kids, i))
  }

  function FirstNamed(kids: Kids<Dec>, token: bytes): Option<Tree<Dec>> {
    if kids.NoKids? then None
    else if kids.name.Some? && Units(kids.name.value) == Some(token) then Some(kids.tree)
    else FirstNamed(kids.rest, token)
  }

  /** The name and the tree of the i-th kid. */
  function KidAt(kids: Kids<Dec>, i: nat): Option<(Name, Tree<Dec>)> {
    if kids.NoKids? then None else if i == 0 then Some((kids.name, kids.tree)) else KidAt(kids.rest, i - 1)
  }

  predicate HasName(kid: Option<(Name, Tree<Dec>)>, token: bytes) {
    kid.Some? && kid.value.0.Some? && Units(kid.value.0.value) == Some(token)
  }

  /** The kid found is the first of that name, and none is found only if there is none. */
  lemma {:induction false} FirstNamedExactly(kids: Kids<Dec>, token: bytes) returns (i: nat)
    ensures match FirstNamed(kids, token)
      case None => forall j: nat :: !HasName(KidAt(kids, j), token)
      case Some(t) => HasName(KidAt(kids, i), token) && KidAt(kids, i).value.1 == t
                      && forall j: nat | j < i :: !HasName(KidAt(kids, j), token)
  {
    hide Units;
    i := 0;
    if kids.Kid? && !HasName(KidAt(kids, 0), token) {
      i := FirstNamedExactly(kids.rest, token);
      i := i + 1;
      forall j: nat | j < i || FirstNamed(kids, token).None?
        ensures !HasName(KidAt(kids, j), token)
      {
        if j > 0 {
          assert KidAt(kids, j) == KidAt(kids.rest, j - 1);
        }
      }
    }
  }

  lemma {:induction false} NthExactly(kids: Kids<Dec>, i: nat)
    ensures Nth(kids, i) == match KidAt(kids, i) case None => None case Some(kid) => Some(kid.1)
  {
    if kids.Kid? && i > 0 {
      NthExactly(kids.rest, i - 1);
    }
  }

  function PathLookup(t: Tree<Dec>, path: seq<bytes>): Outcome<Tree<Dec>>
    decreases |path|
  {
    if path == [] then Success(t)
    else
      match Follows(t, path[0])
      case Failure(e) => Failure(e)
      case Success(c) => PathLookup(c, path[1..])
  }

  lemma {:induction false} NamedByUnits(kids: Kids<Dec>, pt: bytes, token: bytes)
    requires TokenUnits(pt) == Some(token)
    ensures Named(kids, pt) == FirstNamed(kids, token)
  {
    if kids.Kid? {
      NamedByUnits(kids.rest, pt, token);
    }
  }

  lemma {:induction false} EscapeDigits(token: bytes)
    ensures AllDigits(Escape(token)) <==> AllDigits(token)
    ensures AllDigits(token) ==> Escape(token) == token
    ensures Escape(token) == [] <==> token == []
  {
    if token != [] {
      var e, es := EscapeByte(token[0]), Escape(token[1..]);
      EscapeDigits(token[1..]);
      assert Escape(token)[0] == e[0];
      if IsDigit(token[0]) {
        AllDigitsCons(token);
        ConsParts(token[0], es);
        AllDigitsCons([token[0]] + es);
      }
    }
  }

  /** Reading an index from the escaped token or from the decoded one is the same. */
  lemma IndexOfEscaped(token: bytes)
    ensures ToUint64(Escape(token)) == ToUint64(token)
  {
    EscapeDigits(token);
    ToUint64Exactly(token);
    ToUint64Exactly(Escape(token));
  }

  lemma {:induction false} TreeLookupIsPathLookup(t: Tree<Dec>, path: seq<bytes>)
    ensures TreeLookup(t, Join(path)) == PathLookup(t, path)
    decreases |path|
  {
    hide Named, FirstNamed, Nth, ToUint64, PointerToken, Escape;
    JoinReads(path);
    if path != [] {
      var pt := Escape(path[0]);
      IndexOfEscaped(path[0]);
      if t.Node? {
        NamedByUnits(t.kids, pt, path[0]);
      }
      if Follows(t, path[0]).Success? {
        TreeLookupIsPathLookup(Follows(t, path[0]).value, path[1..]);
      }
    }
  }

  /** For every document and every list of tokens, empty ones included: looking up the
      joined pointer in the text follows the tokens in the tree. */
  lemma LookupFollowsPath(d: Doc, path: seq<bytes>)
    requires WFDoc(d)
    ensures ParseByPointer(DocText(d), Join(path)) == TokenOfOutcome(PathLookup(TreeOf(d.value), path))
  {
    hide ParseByPointer, TreeLookup, PathLookup;
    LookupRefines(d, Join(path));
    TreeLookupIsPathLookup(TreeOf(d.value), path);
  }
}
