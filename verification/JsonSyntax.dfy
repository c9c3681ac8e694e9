/** Tokens, token trees, and the language the parser reads: RFC 8259 over bytes,
    extended with one optional trailing comma in a non-empty container. */
module JsonSyntax {
  import opened Basics
  import opened JsonString
  import opened JsonNumber

  const OPEN_BRACE: byte := 0x7B
  const CLOSE_BRACE: byte := 0x7D
  const OPEN_BRACKET: byte := 0x5B
  const CLOSE_BRACKET: byte := 0x5D
  const COMMA: byte := 0x2C

  const TRUE_TEXT: bytes := [0x74, 0x72, 0x75, 0x65]
  const FALSE_TEXT: bytes := [0x66, 0x61, 0x6C, 0x73, 0x65]
  const NULL_TEXT: bytes := [0x6E, 0x75, 0x6C, 0x6C]

  datatype Kind = Object | Array

  /** What the constants spell, and which brackets belong to which kind. */
  lemma Spelled()
    ensures TRUE_TEXT == Ascii("true") && FALSE_TEXT == Ascii("false") && NULL_TEXT == Ascii("null")
    ensures [OpenOf(Object), CloseOf(Object)] == Ascii("{}")
    ensures [OpenOf(Array), CloseOf(Array)] == Ascii("[]")
    ensures [COMMA, COLON, QUOTE, BACKSLASH] == Ascii(",:\"\\")
  {
  }

  function OpenOf(kind: Kind): byte {
    if kind == Object then OPEN_BRACE else OPEN_BRACKET
  }

  /** `az_json_stack_item_to_close` */
  function CloseOf(kind: Kind): byte {
    if kind == Object then CLOSE_BRACE else CLOSE_BRACKET
  }

  /** `az_json_token`; N is the type of a number: Dec when parsing, a real when building.
      A Span token is written escaped; the parser never returns one. */
  datatype Token<+N> =
    | Null
    | Boolean(boolean: bool)
    | Number(number: N)
    | String(text: bytes)
    | Span(span: bytes)
    | Container(kind: Kind)

  type Name = Option<bytes>

  /** What a full traversal delivers: tokens in the shape of a tree. A member of an
      object has a name, an item of an array has none. */
  datatype Tree<+N> = Leaf(token: Token<N>) | Node(kind: Kind, kids: Kids<N>)
  datatype Kids<+N> = NoKids | Kid(name: Name, tree: Tree<N>, rest: Kids<N>)

  function RootToken<N>(t: Tree<N>): Token<N> {
    match t
    case Leaf(token) => token
    case Node(kind, _) => Container(kind)
  }

  // ---- Concrete syntax ----

  /** A JSON value with its whitespace and commas. */
  datatype Json =
    | JNull
    | JBoolean(boolean: bool)
    | JNumber(num: Num)
    | JString(body: bytes)
    | JContainer(kind: Kind, ws: bytes, items: Items)

  /** `ws` is between the value and the comma or the close; `comma` of the last item
      may be absent, or present as the trailing comma. */
  datatype Items = NoItems | Item(key: Key, value: Json, ws: bytes, comma: Comma, next: Items)
  datatype Comma = NoComma | Comma(after: bytes)
  datatype Key = NoKey | Key(name: bytes, ws: bytes, after: bytes)

  /** A document is a value with whitespace around it. */
  datatype Doc = Doc(before: bytes, value: Json, after: bytes)

  /** `az_json_is_white_space` */
  predicate IsSpace(c: byte) {
    c == 0x20 || c == 0x09 || c == 0x0A || c == 0x0D
  }

  /** The whitespace of section 2 of RFC 8259: space, tab, line feed, carriage return. */
  predicate IsWs(b: byte) {
    b in {0x20, 0x09, 0x0A, 0x0D}
  }

  predicate AllSpace(b: bytes) {
    forall i | 0 <= i < |b| :: IsWs(b[i])
  }

  // Every text function takes the bytes `k` that follow.

  function KeyText(key: Key, k: bytes): bytes {
    match key
    case NoKey => k
    case Key(name, ws, after) => [QUOTE] + (name + ([QUOTE] + (ws + ([COLON] + (after + k)))))
  }

  function CommaText(c: Comma, k: bytes): bytes {
    match c
    case NoComma => k
    case Comma(after) => [COMMA] + (after + k)
  }

  /** The text of `v` followed by `k`. */
  function Text(v: Json, k: bytes): bytes {
    match v
    case JNull => NULL_TEXT + k
    case JBoolean(b) => (if b then TRUE_TEXT else FALSE_TEXT) + k
    case JNumber(num) => NumText(num, k)
    case JString(body) => [QUOTE] + (body + ([QUOTE] + k))
    case JContainer(kind, ws, items) => [OpenOf(kind)] + (ws + ItemsText(items, [CloseOf(kind)] + k))
  }

  function ItemsText(items: Items, k: bytes): bytes {
    match items
    case NoItems => k
    case Item(key, value, ws, comma, next) =>
      KeyText(key, Text(value, ws + CommaText(comma, ItemsText(next, k))))
  }

  function DocText(d: Doc): bytes {
    d.before + Text(d.value, d.after)
  }

  predicate WFKey(kind: Kind, key: Key) {
    match key
    case NoKey => kind == Array
    case Key(name, ws, after) => kind == Object && IsStringBody(name) && AllSpace(ws) && AllSpace(after)
  }

  predicate WFComma(c: Comma) {
    c.Comma? ==> AllSpace(c.after)
  }

  predicate WF(v: Json)
    decreases v
  {
    match v
    case JNull => true
    case JBoolean(_) => true
    case JNumber(num) => WFNum(num)
    case JString(body) => IsStringBody(body)
    case JContainer(kind, ws, items) => AllSpace(ws) && WFItems(kind, items)
  }

  predicate WFItems(kind: Kind, items: Items)
    decreases items
  {
    match items
    case NoItems => true
    case Item(key, value, ws, comma, next) =>
      WFKey(kind, key) && WF(value) && AllSpace(ws) && WFComma(comma)
      && (comma.NoComma? ==> next.NoItems?) && WFItems(kind, next)
  }

  function Max(a: nat, b: nat): nat {
    if a < b then b else a
  }

  /** How many containers are open at the deepest point of `v`. */
  function Depth(v: Json): nat {
    if v.JContainer? then 1 + ItemsDepth(v.items) else 0
  }

  function ItemsDepth(items: Items): nat {
    match items
    case NoItems => 0
    case Item(_, value, _, _, next) => Max(Depth(value), ItemsDepth(next))
  }

  const MAX_DEPTH: nat := 63

  predicate WFDoc(d: Doc) {
    AllSpace(d.before) && WF(d.value) && AllSpace(d.after) && Depth(d.value) <= MAX_DEPTH
  }

  // ---- What a text means ----

  function TokenOf(v: Json): Token<Dec>
    requires WF(v)
  {
    match v
    case JNull => Null
    case JBoolean(b) => Boolean(b)
    case JNumber(num) => Number(Scanned(num))
    case JString(body) => String(body)
    case JContainer(kind, _, _) => Container(kind)
  }

  function NameOf(key: Key): Name {
    if key.NoKey? then None else Some(key.name)
  }

  function TreeOf(v: Json): Tree<Dec>
    requires WF(v)
    decreases v
  {
    if v.JContainer? then Node(v.kind, KidsOf(v.kind, v.items)) else Leaf(TokenOf(v))
  }

  function KidsOf(kind: Kind, items: Items): Kids<Dec>
    requires WFItems(kind, items)
    decreases items
  {
    match items
    case NoItems => NoKids
    case Item(key, value, _, _, next) => Kid(NameOf(key), TreeOf(value), KidsOf(kind, next))
  }

  /** The continuation style is only a way of writing concatenation. */
  lemma {:induction false} TextAppends(v: Json, k: bytes)
    ensures Text(v, k) == Text(v, []) + k
  {
    if v.JContainer? {
      var c, t := [CloseOf(v.kind)], ItemsText(v.items, []);
      ItemsTextAppends(v.items, c + k);
      ItemsTextAppends(v.items, c);
      ContainerAppends([OpenOf(v.kind)], v.ws, t, c, k);
      NoMore(c);
    } else {
      ScalarAppends(v, k);
    }
  }

  lemma ScalarAppends(v: Json, k: bytes)
    requires !v.JContainer?
    ensures Text(v, k) == Text(v, []) + k
  {
    hide NumText;
    match v
    case JNumber(num) =>
      NumTextAppends(num, k);
    case JString(body) =>
      NoMore([QUOTE]);
      StringAppends([QUOTE], body, [QUOTE], k);
    case JBoolean(b) =>
      NoMore(if b then TRUE_TEXT else FALSE_TEXT);
    case JNull =>
      NoMore(NULL_TEXT);
  }

  lemma StringAppends(a: bytes, b: bytes, c: bytes, k: bytes)
    ensures a + (b + (c + k)) == (a + (b + c)) + k
  {
  }

  lemma NoMore(a: bytes)
    ensures a + [] == a
  {
  }

  lemma ContainerAppends(a: bytes, b: bytes, t: bytes, c: bytes, k: bytes)
    ensures a + (b + (t + (c + k))) == (a + (b + (t + c))) + k
  {
  }

  lemma {:induction false} ItemsTextAppends(items: Items, k: bytes)
    ensures ItemsText(items, k) == ItemsText(items, []) + k
  {
    match items
    case NoItems =>
    case Item(key, value, ws, comma, next) =>
      var t := ItemsText(next, []);
      var c := ws + CommaText(comma, t);
      var u := Text(value, []);
      ItemsTextAppends(next, k);
      CommaTextAppends(ws, comma, t, k);
      TextAppends(value, c + k);
      TextAppends(value, c);
      KeyTextAppends(key, u, c, k);
  }

  lemma CommaTextAppends(ws: bytes, comma: Comma, t: bytes, k: bytes)
    ensures ws + CommaText(comma, t + k) == (ws + CommaText(comma, t)) + k
  {
    assert CommaText(comma, t + k) == CommaText(comma, t) + k;
  }

  lemma KeyTextAppends(key: Key, u: bytes, c: bytes, k: bytes)
    ensures KeyText(key, u + (c + k)) == KeyText(key, u + c) + k
  {
    assert u + (c + k) == (u + c) + k;
  }

  lemma ExpTextAppends(e: Exp, k: bytes)
    ensures ExpText(e, k) == ExpText(e, []) + k
  {
    if e.Exp? {
      assert e.digits + [] == e.digits;
      OptByteAppends(e.sign, e.digits, k);
      assert ([e.e] + OptByte(e.sign, e.digits)) + k == [e.e] + (OptByte(e.sign, e.digits) + k);
    }
  }

  lemma OptByteAppends(b: Option<byte>, s: bytes, k: bytes)
    ensures OptByte(b, s + k) == OptByte(b, s) + k
  {
    assert b.Some? ==> [b.value] + (s + k) == ([b.value] + s) + k;
  }

  lemma FracTextAppends(frac: bytes, s: bytes, k: bytes)
    ensures FracText(frac, s + k) == FracText(frac, s) + k
  {
    assert ([DOT] + (frac + s)) + k == [DOT] + (frac + (s + k));
  }

  lemma NumTextAppends(n: Num, k: bytes)
    ensures NumText(n, k) == NumText(n, []) + k
  {
    hide ExpText, FracText, OptByte;
    ExpTextAppends(n.exp, k);
    var e := ExpText(n.exp, []);
    FracTextAppends(n.frac, e, k);
    var f := FracText(n.frac, e);
    assert n.whole + (f + k) == (n.whole + f) + k;
    OptByteAppends(if n.minus then Some(MINUS) else None, n.whole + f, k);
  }
}
