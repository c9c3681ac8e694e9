/** The full traversal of a document (the recursive reader of
    sdk/core/core/test/main.c, lines 40-110) and the exact language it accepts. */
module JsonWalk {
  import opened Basics
  import opened JsonString
  import opened JsonNumber
  import opened JsonSyntax
  import opened JsonMachine

  /** Everything below a token that has just been read. */
  function WalkValue(token: Token<Dec>, st: State): (r: Result<Tree<Dec>, State>)
    ensures |r.rest.reader| <= |st.reader|
    decreases |st.reader|, 1
  {
    if !token.Container? then Ok(Leaf(token), st)
    else
      match WalkKids(token.kind, st)
      case Ok(kids, st1) => Ok(Node(token.kind, kids), st1)
      case Fail(e, st1) => Fail(e, st1)
  }

  /** Items until the container closes. */
  function WalkKids(kind: Kind, st: State): (r: Result<Kids<Dec>, State>)
    ensures |r.rest.reader| <= |st.reader|
    decreases |st.reader|, 0
  {
    ParseItemProgress(kind, st);
    match ParseItem(kind, st)
    case Fail(e, st1) => if e == ItemNotFound then Ok(NoKids, st1) else Fail(e, st1)
    case Ok((name, token), st1) =>
      match WalkValue(token, st1)
      case Fail(e, st2) => Fail(e, st2)
      case Ok(tree, st2) =>
        match WalkKids(kind, st2)
        case Fail(e, st3) => Fail(e, st3)
        case Ok(kids, st3) => Ok(Kid(name, tree, kids), st3)
  }

  /** Initialise, read the root, traverse it, check that nothing is left. */
  function WalkDocument(json: bytes): Result<Tree<Dec>, State> {
    var (token, st) :- ParseToken(State(json, []));
    var (tree, st1) :- WalkValue(token, st);
    var (_, st2) :- Done(st1);
    Ok(tree, st2)
  }

  // ---- Whitespace and first bytes ----

  predicate Solid(k: bytes) {
    k == [] || !IsWs(k[0])
  }

  lemma {:induction false} SkipSpaceReads(ws: bytes, k: bytes)
    requires AllSpace(ws) && Solid(k)
    ensures SkipSpace(ws + k) == k
  {
    if ws == [] {
      assert ws + k == k;
    } else {
      assert (ws + k)[1..] == ws[1..] + k;
      SkipSpaceReads(ws[1..], k);
    }
  }

  lemma {:induction false} SkipSpaceFound(s: bytes) returns (ws: bytes)
    ensures AllSpace(ws) && s == ws + SkipSpace(s)
  {
    ws := [];
    if s != [] && IsSpace(s[0]) {
      ws := SkipSpaceFound(s[1..]);
      ws := [s[0]] + ws;
    }
  }

  lemma TextStarts(v: Json, k: bytes)
    requires WF(v)
    ensures var t := Text(v, k);
      t != [] && !IsWs(t[0]) && t[0] != CLOSE_BRACE && t[0] != CLOSE_BRACKET
  {
    if v.JNumber? {
      NumTextStarts(v.num, k);
    }
  }

  lemma NumTextStarts(n: Num, k: bytes)
    requires WFNum(n)
    ensures var t := NumText(n, k); t != [] && (IsDigit(t[0]) || t[0] == MINUS)
  {
    var f := FracText(n.frac, ExpText(n.exp, k));
    assert (n.whole + f)[0] == n.whole[0];
  }

  lemma ItemsTextStarts(kind: Kind, items: Items, k: bytes)
    requires WFItems(kind, items) && Solid(k)
    ensures Solid(ItemsText(items, k))
    ensures items.Item? ==> ItemsText(items, k) != [] && ItemsText(items, k)[0] != CloseOf(kind)
  {
    if items.Item? {
      TextStarts(items.value, items.ws + CommaText(items.comma, ItemsText(items.next, k)));
    }
  }

  // ---- Completeness: texts of the grammar are read back ----

  /** The bytes between the value of an item and the next item. */
  function Follow(item: Items, k: bytes): bytes
    requires item.Item?
  {
    item.ws + CommaText(item.comma, ItemsText(item.next, k))
  }

  /** The state inside a container, at `items`; `tail` is the text after the close. */
  function Inside(kind: Kind, items: Items, stack: seq<Kind>, tail: bytes): State {
    State(ItemsText(items, [CloseOf(kind)] + tail), stack + [kind])
  }

  lemma ValueReads(v: Json, k: bytes, stack: seq<Kind>)
    requires WF(v) && EndsNumber(k)
    requires v.JContainer? ==> |stack| < MAX_DEPTH
    ensures GetValue(State(Text(v, k), stack)) == Ok(TokenOf(v), State(
        if v.JContainer? then v.ws + ItemsText(v.items, [CloseOf(v.kind)] + k) else k,
        StackAfter(stack, TokenOf(v))))
  {
    hide NumText, NumberRest, StringRest, Scanned;
    var t := Text(v, k);
    match v
    case JNull =>
      assert t[..4] == NULL_TEXT && t[4..] == k;
    case JBoolean(b) =>
      var l := if b then TRUE_TEXT else FALSE_TEXT;
      assert t[..|l|] == l && t[|l|..] == k;
    case JNumber(num) =>
      NumberReads(num, k);
    case JString(body) =>
      ConsParts(QUOTE, body + ([QUOTE] + k));
      StringRestReads(body, k);
    case JContainer(kind, ws, items) =>
      ConsParts(OpenOf(kind), ws + ItemsText(items, [CloseOf(kind)] + k));
  }

  lemma FollowReads(kind: Kind, item: Items, stack: seq<Kind>, tail: bytes)
    requires item.Item? && WFItems(kind, item)
    ensures EndsNumber(Follow(item, [CloseOf(kind)] + tail))
    ensures AfterClose(stack + [kind], Follow(item, [CloseOf(kind)] + tail))
         == Ok((), Inside(kind, item.next, stack, tail))
  {
    var k := [CloseOf(kind)] + tail;
    var n := ItemsText(item.next, k);
    ItemsTextStarts(kind, item.next, k);
    var c := CommaText(item.comma, n);
    SkipSpaceReads(item.ws, c);
    if item.comma.Comma? {
      ConsParts(COMMA, item.comma.after + n);
      SkipSpaceReads(item.comma.after, n);
    }
    assert Top(stack + [kind]) == kind;
    assert EndsNumber(c);
  }

  lemma KeyReads(name: bytes, ws: bytes, after: bytes, t: bytes)
    requires IsStringBody(name) && AllSpace(ws) && AllSpace(after) && Solid(t)
    ensures ReadKey(KeyText(Key(name, ws, after), t)) == Ok(name, t)
  {
    hide StringRest, IsStringBody;
    var s2 := ws + ([COLON] + (after + t));
    var s1 := name + ([QUOTE] + s2);
    var s := [QUOTE] + s1;
    ConsParts(QUOTE, s1);
    assert s[..1] == [QUOTE];
    StringRestReads(name, s2);
    var s3 := [COLON] + (after + t);
    SkipSpaceReads(ws, s3);
    ConsParts(COLON, after + t);
    assert s3[..1] == [COLON];
    SkipSpaceReads(after, t);
  }

  lemma ItemNameReads(kind: Kind, key: Key, t: bytes, stack: seq<Kind>)
    requires WFKey(kind, key) && Solid(t)
    ensures ItemName(kind, State(KeyText(key, t), stack)) == Ok(NameOf(key), State(t, stack))
  {
    hide ReadKey;
    if key.Key? {
      KeyReads(key.name, key.ws, key.after, t);
    }
  }

  /** Where the parser stands after it has read the token of `item`. */
  function AfterItem(kind: Kind, item: Items, stack: seq<Kind>, tail: bytes): State
    requires item.Item?
  {
    var v := item.value;
    if v.JContainer? then
      Inside(v.kind, v.items, stack + [kind], Follow(item, [CloseOf(kind)] + tail))
    else Inside(kind, item.next, stack, tail)
  }

  lemma ItemValueReads(kind: Kind, item: Items, stack: seq<Kind>, tail: bytes)
    requires item.Item? && WFItems(kind, item)
    requires |stack| + 1 + Depth(item.value) <= MAX_DEPTH
    ensures ItemValue(State(Text(item.value, Follow(item, [CloseOf(kind)] + tail)), stack + [kind]))
         == Ok(TokenOf(item.value), AfterItem(kind, item, stack, tail))
  {
    hide GetValue, Text;
    var v := item.value;
    var k := Follow(item, [CloseOf(kind)] + tail);
    FollowReads(kind, item, stack, tail);
    ValueReads(v, k, stack + [kind]);
    if v.JContainer? {
      var i := ItemsText(v.items, [CloseOf(v.kind)] + k);
      ItemsTextStarts(v.kind, v.items, [CloseOf(v.kind)] + k);
      SkipSpaceReads(v.ws, i);
    }
  }

  /** One call of parse_token_member or parse_array_item on a well-formed item. */
  lemma ItemReads(kind: Kind, item: Items, stack: seq<Kind>, tail: bytes)
    requires item.Item? && WFItems(kind, item)
    requires |stack| + 1 + Depth(item.value) <= MAX_DEPTH
    ensures ParseItem(kind, Inside(kind, item, stack, tail))
         == Ok((NameOf(item.key), TokenOf(item.value)), AfterItem(kind, item, stack, tail))
  {
    hide ItemValue, ItemName, Text, KeyText;
    var k := [CloseOf(kind)] + tail;
    var t := Text(item.value, Follow(item, k));
    TextStarts(item.value, Follow(item, k));
    ItemsTextStarts(kind, item, k);
    ItemNameReads(kind, item.key, t, stack + [kind]);
    ItemValueReads(kind, item, stack, tail);
    assert Top(stack + [kind]) == kind;
  }

  lemma CloseReads(kind: Kind, stack: seq<Kind>, tail: bytes)
    requires AfterClose(stack, tail).Ok?
    ensures ParseItem(kind, Inside(kind, NoItems, stack, tail)) == Fail(ItemNotFound, AfterClose(stack, tail).rest)
  {
    hide AfterClose;
    ConsParts(CloseOf(kind), tail);
    assert Top(stack + [kind]) == kind && Pop(stack + [kind]) == stack;
  }

  /** Traversing the items of a well-formed container delivers their trees and stops
      just after its close. */
  lemma {:induction false} KidsRead(kind: Kind, items: Items, stack: seq<Kind>, tail: bytes)
    requires WFItems(kind, items) && |stack| + 1 + ItemsDepth(items) <= MAX_DEPTH
    requires AfterClose(stack, tail).Ok?
    ensures WalkKids(kind, Inside(kind, items, stack, tail))
         == Ok(KidsOf(kind, items), AfterClose(stack, tail).rest)
    decreases items
  {
    hide ParseItem, AfterClose, ItemsText;
    if items.NoItems? {
      CloseReads(kind, stack, tail);
    } else {
      ItemReads(kind, items, stack, tail);
      ParseItemProgress(kind, Inside(kind, items, stack, tail));
      var v := items.value;
      if v.JContainer? {
        FollowReads(kind, items, stack, tail);
        KidsRead(v.kind, v.items, stack + [kind], Follow(items, [CloseOf(kind)] + tail));
      }
      KidsRead(kind, items.next, stack, tail);
    }
  }

  lemma AfterRoot(k: bytes)
    requires AllSpace(k)
    ensures AfterClose([], k) == Ok((), State([], []))
  {
    assert k + [] == k;
    SkipSpaceReads(k, []);
  }

  lemma RootReads(d: Doc)
    requires WFDoc(d)
    ensures ParseToken(State(DocText(d), [])) == Ok(TokenOf(d.value),
        if d.value.JContainer? then Inside(d.value.kind, d.value.items, [], d.after) else State([], []))
  {
    hide GetValue, Text;
    var v, k := d.value, d.after;
    TextStarts(v, k);
    SkipSpaceReads(d.before, Text(v, k));
    ValueReads(v, k, []);
    if v.JContainer? {
      ItemsTextStarts(v.kind, v.items, [CloseOf(v.kind)] + k);
      SkipSpaceReads(v.ws, ItemsText(v.items, [CloseOf(v.kind)] + k));
      ItemsTextAppends(v.items, [CloseOf(v.kind)] + k);
    } else {
      AfterRoot(k);
    }
  }

  /** Every well-formed document is accepted, and the traversal delivers its tree. */
  lemma DocumentReads(d: Doc)
    requires WFDoc(d)
    ensures WalkDocument(DocText(d)) == Ok(TreeOf(d.value), State([], []))
  {
    hide ParseToken, AfterClose, WalkKids;
    RootReads(d);
    AfterRoot(d.after);
    if d.value.JContainer? {
      KidsRead(d.value.kind, d.value.items, [], d.after);
    }
  }

  // ---- Soundness: what is accepted is a text of the grammar ----

  lemma ValueFound(st: State) returns (v: Json, ws: bytes)
    requires GetValue(st).Ok?
    ensures var t := GetValue(st).rest.reader;
      if GetValue(st).value.Container? then
        ws == [] && st.reader == [OpenOf(GetValue(st).value.kind)] + t && |st.stack| < MAX_DEPTH
      else WF(v) && !v.JContainer? && st.reader == Text(v, t)
  {
    hide NumText, NumberRest, StringRest, Scanned;
    ws := [];
    v := JNull;
    var s, t := st.reader, GetValue(st).rest.reader;
    match GetValue(st).value
    case Null =>
      assert s == s[..4] + s[4..];
    case Boolean(b) =>
      v := JBoolean(b);
      var l := if b then TRUE_TEXT else FALSE_TEXT;
      assert s == s[..|l|] + s[|l|..];
    case Number(_) =>
      var num := NumberFound(s);
      v := JNumber(num);
    case String(body) =>
      v := JString(body);
      StringRestFound(s[1..], body, t);
      assert s == [QUOTE] + s[1..];
    case Container(kind) =>
      assert s == [OpenOf(kind)] + s[1..];
  }

  lemma FollowFound(kind: Kind, stack: seq<Kind>, w: bytes) returns (ws: bytes, comma: Comma)
    requires AfterClose(stack + [kind], w).Ok?
    ensures var t := AfterClose(stack + [kind], w).rest.reader;
      && AllSpace(ws) && WFComma(comma) && w == ws + CommaText(comma, t)
      && (comma.NoComma? ==> t != [] && t[0] == CloseOf(kind))
  {
    hide AllSpace, IsWs, IsSpace, SkipSpace;
    assert Top(stack + [kind]) == kind;
    ws := SkipSpaceFound(w);
    var s := SkipSpace(w);
    comma := NoComma;
    if s[0] == COMMA {
      var after := SkipSpaceFound(s[1..]);
      comma := Comma(after);
      assert s == [COMMA] + s[1..];
    }
  }

  lemma KeyFound(s: bytes) returns (key: Key)
    requires ReadKey(s).Ok?
    ensures WFKey(Object, key) && key.Key? && s == KeyText(key, ReadKey(s).rest)
  {
    hide StringRest, IsStringBody;
    var s1 := s[1..];
    var (name, s2) := (StringRest(s1).value, StringRest(s1).rest);
    StringRestFound(s1, name, s2);
    var ws := SkipSpaceFound(s2);
    var s3 := SkipSpace(s2);
    var after := SkipSpaceFound(s3[1..]);
    key := Key(name, ws, after);
    assert s == [QUOTE] + s1;
    assert s3 == [COLON] + s3[1..];
  }

  lemma NameFound(kind: Kind, st: State) returns (key: Key)
    requires ItemName(kind, st).Ok?
    ensures WFKey(kind, key) && st.reader == KeyText(key, ItemName(kind, st).rest.reader)
  {
    hide ReadKey;
    key := NoKey;
    if kind == Object {
      key := KeyFound(st.reader);
    }
  }

  /** A successful item call read a key (or none) and then either a scalar with what
      follows it, or the opening of a container. */
  lemma ItemFound(kind: Kind, st: State, stack: seq<Kind>)
    returns (key: Key, v: Json, ws: bytes, comma: Comma)
    requires st.stack == stack + [kind] && ParseItem(kind, st).Ok?
    ensures var (token, st1) := (ParseItem(kind, st).value.1, ParseItem(kind, st).rest);
      && WFKey(kind, key) && AllSpace(ws)
      && st1.stack == StackAfter(st.stack, token)
      && if token.Container? then
           |st.stack| < MAX_DEPTH && st.reader == KeyText(key, [OpenOf(token.kind)] + (ws + st1.reader))
         else
           && WF(v) && !v.JContainer? && WFComma(comma)
           && (comma.NoComma? ==> st1.reader != [] && st1.reader[0] == CloseOf(kind))
           && st.reader == KeyText(key, Text(v, ws + CommaText(comma, st1.reader)))
  {
    hide GetValue, ItemName, Text, KeyText, CommaText;
    key := NameFound(kind, st);
    comma := NoComma;
    var st2 := ItemName(kind, st).rest;
    v, ws := ValueFound(st2);
    var g := GetValue(st2);
    if g.value.Container? {
      ws := SkipSpaceFound(g.rest.reader);
    } else {
      ws, comma := FollowFound(kind, stack, g.rest.reader);
      CommaOrCloseProgress(State(SkipSpace(g.rest.reader), st.stack));
    }
  }

  lemma CloseFound(kind: Kind, st: State, stack: seq<Kind>) returns (tail: bytes)
    requires st.stack == stack + [kind]
    requires ParseItem(kind, st).Fail? && ParseItem(kind, st).error == ItemNotFound
    ensures st == Inside(kind, NoItems, stack, tail)
    ensures AfterClose(stack, tail).Ok? && AfterClose(stack, tail).rest == ParseItem(kind, st).rest
  {
    ParseItemProgress(kind, st);
    hide AfterClose, ParseItem;
    assert Pop(st.stack) == stack;
    AfterCloseProgress(stack, st.reader[1..]);
    tail := st.reader[1..];
    assert st.reader == [CloseOf(kind)] + tail;
  }

  /** The text of an item whose value is a container, put back together. */
  lemma {:induction false} KidsFound(kind: Kind, st: State, stack: seq<Kind>) returns (items: Items, tail: bytes)
    requires st.stack == stack + [kind] && |stack| < MAX_DEPTH
    requires WalkKids(kind, st).Ok?
    ensures WFItems(kind, items) && |stack| + 1 + ItemsDepth(items) <= MAX_DEPTH
    ensures st == Inside(kind, items, stack, tail)
    ensures AfterClose(stack, tail).Ok? && AfterClose(stack, tail).rest == WalkKids(kind, st).rest
    decreases |st.reader|
  {
    hide ParseItem, AfterClose;
    ParseItemProgress(kind, st);
    var r := ParseItem(kind, st);
    if r.Fail? {
      items := NoItems;
      tail := CloseFound(kind, st, stack);
    } else {
      var key, v, ws, comma := ItemFound(kind, st, stack);
      var (token, st1) := (r.value.1, r.rest);
      var st2 := WalkValue(token, st1).rest;
      if token.Container? {
        var inner, w := KidsFound(token.kind, st1, st.stack);
        v := JContainer(token.kind, ws, inner);
        ws, comma := FollowFound(kind, stack, w);
        AfterCloseProgress(st.stack, w);
        assert st.reader == KeyText(key, Text(v, w));
      }
      assert st.reader == KeyText(key, Text(v, ws + CommaText(comma, st2.reader)));
      var next: Items;
      next, tail := KidsFound(kind, st2, stack);
      ItemsTextStarts(kind, next, [CloseOf(kind)] + tail);
      items := Item(key, v, ws, comma, next);
    }
  }

  lemma RootFound(json: bytes) returns (before: bytes, v: Json, ws: bytes)
    requires ParseToken(State(json, [])).Ok?
    ensures var (token, st) := (ParseToken(State(json, [])).value, ParseToken(State(json, [])).rest);
      && AllSpace(before) && AllSpace(ws)
      && if token.Container? then
           st.stack == [token.kind] && json == before + ([OpenOf(token.kind)] + (ws + st.reader))
         else
           st == State([], []) && WF(v) && !v.JContainer? && json == before + Text(v, ws)
  {
    hide GetValue, Text;
    before := SkipSpaceFound(json);
    var st := State(SkipSpace(json), []);
    v, ws := ValueFound(st);
    ws := SkipSpaceFound(GetValue(st).rest.reader);
    if !GetValue(st).value.Container? {
      assert ws + [] == ws;
    }
  }

  /** Whatever the traversal accepts is the text of a well-formed document. */
  lemma DocumentFound(json: bytes) returns (d: Doc)
    requires WalkDocument(json).Ok?
    ensures WFDoc(d) && DocText(d) == json
  {
    hide ParseToken, AfterClose, WalkKids;
    var before, v, ws := RootFound(json);
    var (token, st) := (ParseToken(State(json, [])).value, ParseToken(State(json, [])).rest);
    if token.Container? {
      assert st.stack == [] + [token.kind];
      var items, tail := KidsFound(token.kind, st, []);
      var after := RootTail(tail);
      d := Doc(before, JContainer(token.kind, ws, items), after);
    } else {
      d := Doc(before, v, ws);
    }
  }

  lemma RootTail(tail: bytes) returns (after: bytes)
    requires AfterClose([], tail).Ok? && AfterClose([], tail).rest == State([], [])
    ensures AllSpace(after) && after == tail
  {
    after := SkipSpaceFound(tail);
    assert after + [] == after;
  }

  /** The exact accepted language, and what is delivered. */
  lemma AcceptedLanguage(json: bytes)
    ensures WalkDocument(json).Ok? <==> exists d :: WFDoc(d) && DocText(d) == json
    ensures forall d | WFDoc(d) && DocText(d) == json :: WalkDocument(json) == Ok(TreeOf(d.value), State([], []))
  {
    hide WalkDocument, DocText;
    if WalkDocument(json).Ok? {
      var d := DocumentFound(json);
    }
    forall d | WFDoc(d) && DocText(d) == json
      ensures WalkDocument(json) == Ok(TreeOf(d.value), State([], []))
    {
      DocumentReads(d);
    }
  }
}
