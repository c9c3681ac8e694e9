/** The reader that prints what it reads (sdk/core/core/test/main.c, lines 30-110): the
    parser's calls, recursion and a growing output span, together. Numbers are printed as 0. */
module JsonRewrite {
  import opened Basics
  import Views
  import opened JsonString
  import opened JsonNumber
  import opened JsonSyntax
  import opened JsonMachine
  import opened JsonWalk
  import opened Spans
  import opened DecimalPrinter
  import opened JsonBuilder
  import opened JsonPrint
  import JsonParser

  // ---- What is printed for a tree ----

  function ZeroedToken(token: Token<Dec>): Built {
    match token
    case Null => Null
    case Boolean(b) => Boolean(b)
    case Number(_) => Number(0.0)
    case String(s) => String(s)
    case Span(s) => Built.Span(s)
    case Container(kind) => Container(kind)
  }

  function Zeroed(t: Tree<Dec>): BuiltTree {
    match t
    case Leaf(token) => Leaf(ZeroedToken(token))
    case Node(kind, kids) => Node(kind, ZeroedKids(kids))
  }

  function ZeroedKids(kids: Kids<Dec>): BuiltKids {
    match kids
    case NoKids => NoKids
    case Kid(name, tree, rest) => Kid(name, Zeroed(tree), ZeroedKids(rest))
  }

  function Rewritten(t: Tree<Dec>): bytes {
    Compact(Zeroed(t))
  }

  function RewrittenKids(kids: Kids<Dec>, first: bool): bytes {
    CompactKids(ZeroedKids(kids), first)
  }

  function PrefixText(needComma: bool, name: Name): bytes {
    (if needComma then [COMMA] else []) + NameText(name)
  }

  // ---- The methods ----

  /** It succeeds exactly when the traversal does and the whole text fits; then the parser
      is where the traversal ends and the text has been appended. */
  ghost predicate Rewrites<T>(r: Outcome<()>, st: State, now: bytes, w: Result<T, State>, before: bytes,
                              text: bytes, capacity: nat) {
    && (r.Success? <==> w.Ok? && |before| + |text| <= capacity)
    && (r.Success? ==> st == w.rest && now == before + text)
    && (r.Failure? ==> r.error == BufferOverflow || (w.Fail? && r.error == w.error))
  }

  function TextOf(w: Result<Tree<Dec>, State>): bytes {
    if w.Ok? then Rewritten(w.value) else []
  }

  function KidsTextOf(w: Result<Kids<Dec>, State>, first: bool): bytes {
    if w.Ok? then RewrittenKids(w.value, first) else []
  }

  method WriteStr(output: Span, s: bytes) returns (r: Outcome<Span>)
    requires output.Valid()
    modifies output.buf
    ensures r.Success? <==> output.length + |s| + 2 <= output.capacity
    ensures r.Success? ==>
      && r.value.Valid() && r.value == output.(length := r.value.length)
      && r.value.Contents() == old(output.Contents()) + ([QUOTE] + (s + [QUOTE]))
    ensures r.Failure? ==> r.error == BufferOverflow
  {
    hide Overwrite;
    ghost var before := output.Contents();
    r := Append(output, [QUOTE]);
    if r.Failure? {
      return;
    }
    r := Append(r.value, s);
    if r.Failure? {
      return;
    }
    r := Append(r.value, [QUOTE]);
    assert ((before + [QUOTE]) + s) + [QUOTE] == before + ([QUOTE] + (s + [QUOTE]));
  }

  /** The comma, if one is due, and the name of a member. */
  method WritePrefix(output: Span, needComma: bool, name: Name) returns (r: Outcome<Span>)
    requires output.Valid()
    modifies output.buf
    ensures r.Success? <==> output.length + |PrefixText(needComma, name)| <= output.capacity
    ensures r.Success? ==>
      && r.value.Valid() && r.value == output.(length := r.value.length)
      && r.value.Contents() == old(output.Contents()) + PrefixText(needComma, name)
    ensures r.Failure? ==> r.error == BufferOverflow
  {
    hide Overwrite;
    ghost var before, comma: bytes := output.Contents(), if needComma then [COMMA] else [];
    PrefixJoined(before, comma, name);
    r := Success(output);
    if needComma {
      r := Append(output, [COMMA]);
      if r.Failure? {
        return;
      }
    }
    if name.Some? {
      r := WriteStr(r.value, name.value);
      if r.Failure? {
        return;
      }
      r := Append(r.value, [COLON]);
    }
  }

  lemma PrefixJoined(before: bytes, comma: bytes, name: Name)
    ensures before + (comma + NameText(name))
         == if name.Some? then ((before + comma) + ([QUOTE] + (name.value + [QUOTE]))) + [COLON] else before + comma
    ensures before + [] == before
  {
  }

  lemma NeverSpan(st: State)
    ensures GetValue(st).Ok? ==> !GetValue(st).value.Span?
  {
    hide NumberRest, StringRest;
  }

  lemma ItemNeverSpan(kind: Kind, st: State)
    ensures ParseItem(kind, st).Ok? ==> !ParseItem(kind, st).value.1.Span?
    ensures ParseItem(kind, st).Ok? ==> (ParseItem(kind, st).value.0.Some? <==> kind == Object)
  {
    hide GetValue, ReadKey, ItemBegin;
    if ItemBegin(kind, st).Ok? && ItemName(kind, st).Ok? {
      NeverSpan(ItemName(kind, st).rest);
    }
  }

  /** The loops of `read_write_token`: `w0` is the traversal from the start of the
      container and `w` the one from here. */
  ghost predicate Pending(w0: Result<Kids<Dec>, State>, before: bytes,
                          w: Result<Kids<Dec>, State>, now: bytes, first: bool) {
    && (w0.Ok? <==> w.Ok?)
    && (w.Fail? ==> w0.Fail? && w0.error == w.error)
    && (w.Ok? ==> w0.Ok? && w0.rest == w.rest)
    && (w.Ok? ==> before + KidsTextOf(w0, true) == now + KidsTextOf(w, first))
  }

  /** The traversal of the items after one has been read: its value, and the others. */
  lemma KidsStep(kind: Kind, st: State, first: bool)
    requires ParseItem(kind, st).Ok?
    ensures var ((name, token), st1) := (ParseItem(kind, st).value, ParseItem(kind, st).rest);
      var (w, v) := (WalkKids(kind, st), WalkValue(token, st1));
      && (v.Fail? ==> w.Fail? && w.error == v.error)
      && (v.Ok? ==>
            var u := WalkKids(kind, v.rest);
            && (u.Fail? ==> w.Fail? && w.error == u.error)
            && (u.Ok? ==>
                  && w.Ok? && w.rest == u.rest
                  && KidsTextOf(w, first) == PrefixText(!first, name) + (TextOf(v) + KidsTextOf(u, false))))
  {
    hide ParseItem, Compact, NameText, WalkValue;
    ParseItemProgress(kind, st);
    var ((name, token), st1) := (ParseItem(kind, st).value, ParseItem(kind, st).rest);
    var v := WalkValue(token, st1);
    if v.Ok? && WalkKids(kind, v.rest).Ok? {
      var kids := WalkKids(kind, v.rest).value;
      KidText(name, v.value, kids, first);
    }
  }

  lemma KidText(name: Name, t: Tree<Dec>, rest: Kids<Dec>, first: bool)
    ensures RewrittenKids(Kid(name, t, rest), first)
         == PrefixText(!first, name) + (Rewritten(t) + RewrittenKids(rest, false))
  {
    hide Compact, NameText;
    var c: bytes := if first then [] else [COMMA];
    var k := Rewritten(t) + RewrittenKids(rest, false);
    assert c + (NameText(name) + k) == (c + NameText(name)) + k;
  }

  /** One more item: if its value is traversed, the rest is pending with its text written;
      and all of its text is part of the text of the items. */
  lemma PendingStep(kind: Kind, w0: Result<Kids<Dec>, State>, before: bytes, st: State, now: bytes, first: bool)
    requires Pending(w0, before, WalkKids(kind, st), now, first) && ParseItem(kind, st).Ok?
    ensures var ((name, token), st1) := (ParseItem(kind, st).value, ParseItem(kind, st).rest);
      var (v, p) := (WalkValue(token, st1), PrefixText(!first, name));
      && (v.Fail? ==> w0.Fail? && w0.error == v.error)
      && (v.Ok? ==> Pending(w0, before, WalkKids(kind, v.rest), (now + p) + TextOf(v), false))
      && (w0.Ok? ==> v.Ok? && |before| + |KidsTextOf(w0, true)| >= |now| + |p| + |TextOf(v)|)
  {
    hide ParseItem, WalkKids, WalkValue, KidsTextOf, TextOf, PrefixText;
    KidsStep(kind, st, first);
    var ((name, token), st1) := (ParseItem(kind, st).value, ParseItem(kind, st).rest);
    var v := WalkValue(token, st1);
    if v.Ok? {
      PutTogether(now, PrefixText(!first, name), TextOf(v), KidsTextOf(WalkKids(kind, v.rest), false));
    }
  }

  /** No more items, or one that cannot be read. */
  lemma PendingEnd(kind: Kind, w0: Result<Kids<Dec>, State>, before: bytes, st: State, now: bytes, first: bool)
    requires Pending(w0, before, WalkKids(kind, st), now, first) && ParseItem(kind, st).Fail?
    ensures var r := ParseItem(kind, st);
      if r.error == ItemNotFound then w0.Ok? && w0.rest == r.rest && before + KidsTextOf(w0, true) == now
      else w0.Fail? && w0.error == r.error
  {
    hide ParseItem, WalkKids, KidsTextOf;
    KidsEnd(kind, st, first);
    assert now + [] == now;
  }

  method RewriteItems(parser: JsonParser.JsonParser, kind: Kind, output: Span) returns (r: Outcome<()>, out: Span)
    requires parser.Valid() && output.Valid()
    modifies parser, output.buf
    ensures parser.Valid() && out.Valid() && out == output.(length := out.length)
    ensures var w := WalkKids(kind, old(parser.Abs()));
      Rewrites(r, parser.Abs(), out.Contents(), w, old(output.Contents()), KidsTextOf(w, true), output.capacity)
    ensures |parser.reader.bytes| <= old(|parser.reader.bytes|)
    decreases |parser.reader.bytes|, 0, 0
  {
    hide ParseItem, WalkKids, WalkValue, KidsTextOf, TextOf, PrefixText, Pending, JsonParser.Decode;
    ghost var before, start := output.Contents(), parser.Abs();
    ghost var w0 := WalkKids(kind, start);
    out := output;
    var needComma := false;
    PendingStart(w0, before);
    while true
      invariant parser.Valid() && out.Valid() && out == output.(length := out.length)
      invariant |parser.reader.bytes| <= |start.reader|
      invariant Pending(w0, before, WalkKids(kind, parser.Abs()), out.Contents(), !needComma)
      decreases |parser.reader.bytes|
    {
      ghost var st, now := parser.Abs(), out.Contents();
      ParseItemProgress(kind, st);
      ItemNeverSpan(kind, st);
      var item: Outcome<(Name, Token<Dec>)>;
      if kind == Object {
        item := parser.ParseTokenMember();
      } else {
        item := parser.ParseArrayItem();
      }
      if item.Failure? {
        PendingEnd(kind, w0, before, st, now, !needComma);
        return if item.error == ItemNotFound then Success(()) else Failure(item.error), out;
      }
      PendingStep(kind, w0, before, st, now, !needComma);
      var p := WritePrefix(out, needComma, item.value.0);
      if p.Failure? {
        return Failure(p.error), out;
      }
      r, out := RewriteToken(parser, item.value.1, p.value);
      if r.Failure? {
        return;
      }
      needComma := true;
    }
  }

  lemma PendingStart(w0: Result<Kids<Dec>, State>, before: bytes)
    ensures Pending(w0, before, w0, before, true)
  {
  }

  lemma PutTogether(a: bytes, b: bytes, c: bytes, d: bytes)
    ensures a + (b + (c + d)) == ((a + b) + c) + d
  {
  }

  /** Where no item is left, and where an item cannot be read. */
  lemma KidsEnd(kind: Kind, st: State, first: bool)
    ensures var (w, r) := (WalkKids(kind, st), ParseItem(kind, st));
      r.Fail? ==>
        if r.error == ItemNotFound then w.Ok? && w.rest == r.rest && KidsTextOf(w, first) == []
        else w.Fail? && w.error == r.error
  {
    hide ParseItem;
    ParseItemProgress(kind, st);
  }

  /** `read_write_token` */
  method RewriteToken(parser: JsonParser.JsonParser, token: Token<Dec>, output: Span) returns (r: Outcome<()>, out: Span)
    requires parser.Valid() && output.Valid() && !token.Span?
    modifies parser, output.buf
    ensures parser.Valid() && out.Valid() && out == output.(length := out.length)
    ensures |parser.reader.bytes| <= old(|parser.reader.bytes|)
    ensures var w := WalkValue(token, old(parser.Abs()));
      Rewrites(r, parser.Abs(), out.Contents(), w, old(output.Contents()), TextOf(w), output.capacity)
    decreases |parser.reader.bytes|, 1
  {
    hide WalkKids, KidsTextOf, JsonParser.Decode, Overwrite;
    if token.Container? {
      r, out := RewriteContainer(parser, token.kind, output);
      return;
    }
    ScalarText(token);
    var a: Outcome<Span>;
    match token {
      case Null =>
        a := Append(output, NULL_TEXT);
      case Boolean(b) =>
        a := Append(output, if b then TRUE_TEXT else FALSE_TEXT);
      case Number(_) =>
        a := Append(output, [0x30]);
      case String(s) =>
        a := WriteStr(output, s);
    }
    out := if a.Success? then a.value else output;
    r := if a.Success? then Success(()) else Failure(a.error);
  }

  lemma ScalarText(token: Token<Dec>)
    requires !token.Container? && !token.Span?
    ensures Rewritten(Leaf(token))
         == match token
            case Null => NULL_TEXT
            case Boolean(b) => if b then TRUE_TEXT else FALSE_TEXT
            case Number(_) => [0x30]
            case String(s) => [QUOTE] + (s + [QUOTE])
  {
    assert DoubleText(0.0) == [0x30];
  }

  /** The two brackets and what is between them. */
  method RewriteContainer(parser: JsonParser.JsonParser, kind: Kind, output: Span) returns (r: Outcome<()>, out: Span)
    requires parser.Valid() && output.Valid()
    modifies parser, output.buf
    ensures parser.Valid() && out.Valid() && out == output.(length := out.length)
    ensures |parser.reader.bytes| <= old(|parser.reader.bytes|)
    ensures var w := WalkValue(Container(kind), old(parser.Abs()));
      Rewrites(r, parser.Abs(), out.Contents(), w, old(output.Contents()), TextOf(w), output.capacity)
    decreases |parser.reader.bytes|, 0, 1
  {
    hide WalkKids, WalkValue, KidsTextOf, TextOf, JsonParser.Decode, Overwrite;
    ghost var before, start := output.Contents(), parser.Abs();
    ContainerText(kind, start);
    out := output;
    var a := Append(out, [OpenOf(kind)]);
    if a.Failure? {
      return Failure(a.error), out;
    }
    r, out := RewriteItems(parser, kind, a.value);
    if r.Failure? {
      return;
    }
    a := Append(out, [CloseOf(kind)]);
    if a.Failure? {
      return Failure(a.error), out;
    }
    out := a.value;
    Bracketed(before, [OpenOf(kind)], KidsTextOf(WalkKids(kind, start), true), [CloseOf(kind)]);
    r := Success(());
  }

  lemma Bracketed(a: bytes, b: bytes, c: bytes, d: bytes)
    ensures ((a + b) + c) + d == a + (b + (c + d))
  {
  }

  lemma ContainerText(kind: Kind, st: State)
    ensures var (w, k) := (WalkValue(Container(kind), st), WalkKids(kind, st));
      && (k.Fail? ==> w.Fail? && w.error == k.error && TextOf(w) == [])
      && (k.Ok? ==> w.Ok? && w.rest == k.rest && TextOf(w) == [OpenOf(kind)] + (KidsTextOf(k, true) + [CloseOf(kind)]))
  {
    hide WalkKids;
  }

  /** `read_write`: it succeeds exactly when the document is in the accepted language and
      its compact text fits, and appends that text. */
  method ReadWrite(json: Views.View, output: Span) returns (r: Outcome<()>, out: Span)
    requires output.Valid()
    modifies output.buf
    ensures out.Valid() && out == output.(length := out.length)
    ensures var w := WalkDocument(json.bytes);
      && (r.Success? <==> w.Ok? && output.length + |TextOf(w)| <= output.capacity)
      && (r.Success? ==> out.Contents() == old(output.Contents()) + TextOf(w))
      && (r.Failure? ==> r.error == BufferOverflow || (w.Fail? && r.error == w.error))
  {
    hide ParseToken, WalkValue, JsonParser.Decode, Rewritten;
    var parser := new JsonParser.JsonParser(json);
    out := output;
    ghost var start := parser.Abs();
    RootNeverSpan(start);
    var token := parser.ParseRootToken();
    if token.Failure? {
      return Failure(token.error), out;
    }
    r, out := RewriteToken(parser, token.value, out);
    if r.Failure? {
      return;
    }
    r := parser.CheckDone();
  }

  lemma RootNeverSpan(st: State)
    ensures ParseToken(st).Ok? ==> !ParseToken(st).value.Span?
  {
    hide GetValue;
    NeverSpan(State(SkipSpace(st.reader), st.stack));
  }

  // ---- Rewriting what has been rewritten ----

  lemma {:induction false} ZeroedIsReadable(v: Json)
    requires WF(v)
    ensures Readable(Zeroed(TreeOf(v))) && TreeDepth(Zeroed(TreeOf(v))) == Depth(v)
    decreases v
  {
    hide IsStringBody, WFNum, Scanned;
    if v.JContainer? {
      ZeroedKidsAreReadable(v.kind, v.items);
    } else if v.JNumber? {
      assert Integral(0.0);
    }
  }

  lemma {:induction false} ZeroedKidsAreReadable(kind: Kind, items: Items)
    requires WFItems(kind, items)
    ensures ReadableKids(kind, ZeroedKids(KidsOf(kind, items)))
    ensures KidsDepth(ZeroedKids(KidsOf(kind, items))) == ItemsDepth(items)
    decreases items
  {
    hide IsStringBody;
    if items.Item? {
      ZeroedIsReadable(items.value);
      ZeroedKidsAreReadable(kind, items.next);
    }
  }

  lemma {:induction false} ZeroedTwice(v: Json)
    requires WF(v)
    ensures Zeroed(Parsed(Zeroed(TreeOf(v)))) == Zeroed(TreeOf(v))
    decreases v
  {
    hide IsStringBody, WFNum, Scanned;
    if v.JContainer? {
      ZeroedKidsTwice(v.kind, v.items);
    }
  }

  lemma {:induction false} ZeroedKidsTwice(kind: Kind, items: Items)
    requires WFItems(kind, items)
    ensures ZeroedKids(ParsedKids(ZeroedKids(KidsOf(kind, items)))) == ZeroedKids(KidsOf(kind, items))
    decreases items
  {
    hide IsStringBody;
    if items.Item? {
      ZeroedTwice(items.value);
      ZeroedKidsTwice(kind, items.next);
    }
  }

  /** The rewritten text of an accepted document is accepted, and rewriting it once more
      changes nothing. */
  lemma RewrittenTwice(json: bytes)
    requires WalkDocument(json).Ok?
    ensures var text := Rewritten(WalkDocument(json).value);
      WalkDocument(text).Ok? && Rewritten(WalkDocument(text).value) == text
  {
    hide WalkDocument, Compact, TreeOf, Parsed, Readable, TreeDepth, WF, DocText, Depth;
    var d := DocumentFound(json);
    DocumentReads(d);
    ZeroedIsReadable(d.value);
    ZeroedTwice(d.value);
    PrintThenParse(Zeroed(TreeOf(d.value)));
  }
}
