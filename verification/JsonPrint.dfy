/** What the builder prints when it is driven through a tree, and that the parser reads the
    same tree back (sdk/core/core/src/az_json_builder.c, lines 58-144). */
module JsonPrint {
  import opened Basics
  import opened JsonString
  import opened JsonNumber
  import opened JsonSyntax
  import opened JsonMachine
  import opened JsonWalk
  import opened Spans
  import opened Decimal
  import opened DecimalPrinter
  import opened JsonNumberValue
  import opened JsonBuilder

  type BuiltTree = Tree<Double>
  type BuiltKids = Kids<Double>

  // ---- The calls that a tree makes ----

  /** Members for named kids, items for the others, each followed by what is inside it. */
  function KidsOps(kids: BuiltKids): seq<Op> {
    match kids
    case NoKids => []
    case Kid(name, tree, rest) =>
      [if name.Some? then PutMember(name.value, RootToken(tree)) else PutItem(RootToken(tree))]
      + (InnerOps(tree) + KidsOps(rest))
  }

  /** After the token of `t`: its kids and the close. */
  function InnerOps(t: BuiltTree): seq<Op> {
    match t
    case Leaf(_) => []
    case Node(kind, kids) => KidsOps(kids) + [PutClose(kind)]
  }

  function TreeOps(t: BuiltTree): seq<Op> {
    [PutToken(RootToken(t))] + InnerOps(t)
  }

  /** A run of calls that stops at the first error. */
  function Run(capacity: nat, now: bytes, needComma: bool, ops: seq<Op>): (Option<Error>, bytes)
    decreases |ops|
  {
    if ops == [] then (None, now)
    else
      var (e, out) := Write(capacity, now, needComma, ops[0]);
      if e.Some? then (e, out) else Run(capacity, out, CommaAfter(ops[0]), ops[1..])
  }

  // ---- The compact text, with the commas where the tree says ----

  function TokenText(token: Built): bytes {
    match token
    case Null => NULL_TEXT
    case Boolean(b) => if b then TRUE_TEXT else FALSE_TEXT
    case Number(x) => DoubleText(x)
    case String(s) => [QUOTE] + (s + [QUOTE])
    case Span(s) => [QUOTE] + (Escaped(s) + [QUOTE])
    case Container(kind) => [OpenOf(kind)]
  }

  function Escaped(s: bytes): bytes {
    if s == [] then [] else EscapeChunk(s[0]) + Escaped(s[1..])
  }

  function Compact(t: BuiltTree): bytes {
    match t
    case Leaf(token) => TokenText(token)
    case Node(kind, kids) => [OpenOf(kind)] + (CompactKids(kids, true) + [CloseOf(kind)])
  }

  function NameText(name: Name): bytes {
    if name.Some? then [QUOTE] + (name.value + ([QUOTE] + [COLON])) else []
  }

  function CompactKids(kids: BuiltKids, first: bool): bytes {
    match kids
    case NoKids => []
    case Kid(name, tree, rest) =>
      (if first then [] else [COMMA]) + (NameText(name) + (Compact(tree) + CompactKids(rest, false)))
  }

  /** Leaves hold scalar tokens, and no fractions. */
  predicate Printable(t: BuiltTree)
    decreases t
  {
    match t
    case Leaf(token) => !token.Container? && (token.Number? ==> Integral(token.number))
    case Node(_, kids) => PrintableKids(kids)
  }

  predicate PrintableKids(kids: BuiltKids)
    decreases kids
  {
    match kids
    case NoKids => true
    case Kid(_, tree, rest) => Printable(tree) && PrintableKids(rest)
  }

  // ---- One bit is enough for the commas at every depth ----

  function OpText(needComma: bool, op: Op): bytes {
    Concat(OpChunks(needComma, op))
  }

  function OpsText(needComma: bool, ops: seq<Op>): bytes
    decreases |ops|
  {
    if ops == [] then [] else OpText(needComma, ops[0]) + OpsText(CommaAfter(ops[0]), ops[1..])
  }

  function CommaState(needComma: bool, ops: seq<Op>): bool
    decreases |ops|
  {
    if ops == [] then needComma else CommaState(CommaAfter(ops[0]), ops[1..])
  }

  lemma {:induction false} OpsTextAppend(needComma: bool, a: seq<Op>, b: seq<Op>)
    ensures OpsText(needComma, a + b) == OpsText(needComma, a) + OpsText(CommaState(needComma, a), b)
    ensures CommaState(needComma, a + b) == CommaState(CommaState(needComma, a), b)
    decreases |a|
  {
    hide OpText, CommaAfter;
    if a == [] {
      assert a + b == b;
    } else {
      assert (a + b)[1..] == a[1..] + b;
      OpsTextAppend(CommaAfter(a[0]), a[1..], b);
    }
  }

  lemma OpsTextOne(needComma: bool, op: Op)
    ensures OpsText(needComma, [op]) == OpText(needComma, op)
    ensures CommaState(needComma, [op]) == CommaAfter(op)
  {
    hide OpText, CommaAfter;
    assert OpText(needComma, op) + [] == OpText(needComma, op);
  }

  lemma {:induction false} SinglesText(s: bytes)
    ensures Concat(Singles(s)) == s
    decreases |s|
  {
    if s != [] {
      SinglesText(s[1..]);
      assert Singles(s)[1..] == Singles(s[1..]);
      assert [s[0]] + s[1..] == s;
    }
  }

  lemma {:induction false} EscapeText(s: bytes)
    ensures Concat(EscapeChunks(s)) == Escaped(s)
    decreases |s|
  {
    if s != [] {
      EscapeText(s[1..]);
      assert EscapeChunks(s)[1..] == EscapeChunks(s[1..]);
    }
  }

  lemma StrText(s: bytes)
    ensures Concat(StrChunks(s)) == [QUOTE] + (s + [QUOTE])
  {
    ConcatOne([QUOTE]);
    assert [s, [QUOTE]][1..] == [[QUOTE]];
    assert StrChunks(s)[1..] == [s, [QUOTE]];
  }

  lemma TokenChunksText(token: Built)
    ensures Concat(TokenChunks(token)) == TokenText(token)
  {
    hide DoubleText, EscapeChunk;
    match token
    case Null => ConcatOne(NULL_TEXT);
    case Boolean(b) => ConcatOne(if b then TRUE_TEXT else FALSE_TEXT);
    case Number(x) => SinglesText(DoubleText(x));
    case String(s) => StrText(s);
    case Span(s) =>
      EscapeText(s);
      ConcatOne([QUOTE]);
      ConcatAppend(EscapeChunks(s), [[QUOTE]]);
      ConcatAppend([[QUOTE]], EscapeChunks(s) + [[QUOTE]]);
    case Container(kind) => ConcatOne([OpenOf(kind)]);
  }

  lemma CommaChunksText(needComma: bool)
    ensures Concat(CommaChunks(needComma)) == if needComma then [COMMA] else []
  {
    ConcatOne([COMMA]);
  }

  /** The text of a member or an item up to its token. */
  lemma KidOpText(needComma: bool, name: Name, token: Built)
    ensures OpText(needComma, if name.Some? then PutMember(name.value, token) else PutItem(token))
         == (if needComma then [COMMA] else []) + (NameText(name) + TokenText(token))
  {
    hide TokenChunks, TokenText, StrChunks, CommaChunks;
    TokenChunksText(token);
    CommaChunksText(needComma);
    if name.Some? {
      StrText(name.value);
      ConcatOne([COLON]);
      ConcatAppend([[COLON]], TokenChunks(token));
      ConcatAppend(StrChunks(name.value), [[COLON]] + TokenChunks(token));
      ConcatAppend(CommaChunks(needComma), StrChunks(name.value) + ([[COLON]] + TokenChunks(token)));
      assert ([QUOTE] + (name.value + [QUOTE])) + ([COLON] + TokenText(token)) == NameText(name) + TokenText(token);
    } else {
      ConcatAppend(CommaChunks(needComma), TokenChunks(token));
      assert [] + TokenText(token) == TokenText(token);
    }
  }

  /** The text of a tree is its token's text and what follows it. */
  lemma {:induction false} InnerText(t: BuiltTree)
    requires Printable(t)
    ensures TokenText(RootToken(t)) + OpsText(!RootToken(t).Container?, InnerOps(t)) == Compact(t)
    ensures CommaState(!RootToken(t).Container?, InnerOps(t))
    decreases t
  {
    match t
    case Leaf(token) =>
      assert TokenText(token) + [] == TokenText(token);
    case Node(kind, kids) =>
      KidsText(kids, false);
      OpsTextAppend(false, KidsOps(kids), [PutClose(kind)]);
      OpsTextOne(CommaState(false, KidsOps(kids)), PutClose(kind));
      ConcatOne([CloseOf(kind)]);
  }

  /** The calls of the kids print them, with a comma before the first one exactly when the
      bit is set; afterwards the bit is set if it was or if there was a kid. */
  lemma {:induction false} KidsText(kids: BuiltKids, needComma: bool)
    requires PrintableKids(kids)
    ensures OpsText(needComma, KidsOps(kids)) == CompactKids(kids, !needComma)
    ensures CommaState(needComma, KidsOps(kids)) == (needComma || kids.Kid?)
    decreases kids
  {
    hide OpText, TokenText, NameText;
    if kids.Kid? {
      var token := RootToken(kids.tree);
      var op := if kids.name.Some? then PutMember(kids.name.value, token) else PutItem(token);
      var inner, rest := InnerOps(kids.tree), KidsOps(kids.rest);
      KidOpText(needComma, kids.name, token);
      OpsTextOne(needComma, op);
      OpsTextAppend(needComma, [op], inner + rest);
      OpsTextAppend(!token.Container?, inner, rest);
      InnerText(kids.tree);
      KidsText(kids.rest, true);
      JoinKid(if needComma then [COMMA] else [], NameText(kids.name), TokenText(token),
              OpsText(!token.Container?, inner), OpsText(true, rest));
    }
  }

  lemma JoinKid(c: bytes, n: bytes, t: bytes, i: bytes, r: bytes)
    ensures (c + (n + t)) + (i + r) == c + (n + ((t + i) + r))
  {
  }

  lemma TreeText(t: BuiltTree)
    requires Printable(t)
    ensures OpsText(false, TreeOps(t)) == Compact(t)
  {
    hide TokenChunks, TokenText, Compact;
    var token := RootToken(t);
    InnerText(t);
    TokenChunksText(token);
    OpsTextOne(false, PutToken(token));
    OpsTextAppend(false, [PutToken(token)], InnerOps(t));
  }

  // ---- Running the calls ----

  predicate AllPrintable(ops: seq<Op>) {
    forall i | 0 <= i < |ops| :: !Unprintable(ops[i])
  }

  lemma {:induction false} InnerPrintable(t: BuiltTree)
    requires Printable(t)
    ensures AllPrintable(InnerOps(t)) && !Unprintable(PutToken(RootToken(t)))
    decreases t
  {
    if t.Node? {
      KidsPrintable(t.kids);
    }
  }

  lemma {:induction false} KidsPrintable(kids: BuiltKids)
    requires PrintableKids(kids)
    ensures AllPrintable(KidsOps(kids))
    decreases kids
  {
    if kids.Kid? {
      InnerPrintable(kids.tree);
      KidsPrintable(kids.rest);
    }
  }

  /** Calls succeed exactly when their whole text fits; if not, the text stops short of it. */
  lemma {:induction false} RunExactly(capacity: nat, now: bytes, needComma: bool, ops: seq<Op>)
    requires |now| <= capacity && AllPrintable(ops)
    ensures var (e, out) := Run(capacity, now, needComma, ops);
      var whole := now + OpsText(needComma, ops);
      && (e == None <==> |whole| <= capacity)
      && (e == None ==> out == whole)
      && (e != None ==> e == Some(BufferOverflow) && now <= out && out < whole && |out| <= capacity)
    decreases |ops|
  {
    hide OpChunks, WriteAll, Concat, Unprintable, CommaAfter;
    if ops == [] {
      assert now + [] == now;
    } else {
      WriteAllExactly(capacity, now, OpChunks(needComma, ops[0]));
      var (e, out) := Write(capacity, now, needComma, ops[0]);
      var first, more := OpText(needComma, ops[0]), OpsText(CommaAfter(ops[0]), ops[1..]);
      assert now + (first + more) == (now + first) + more;
      if e == None {
        RunExactly(capacity, out, CommaAfter(ops[0]), ops[1..]);
      }
    }
  }

  /** Driving the builder through a tree appends its compact text, commas right at every
      depth; it succeeds exactly when that text fits, and otherwise a proper prefix of it
      has been appended. */
  lemma TreeIsPrinted(capacity: nat, now: bytes, t: BuiltTree)
    requires |now| <= capacity && Printable(t)
    ensures var (e, out) := Run(capacity, now, false, TreeOps(t));
      && (e == None <==> |now| + |Compact(t)| <= capacity)
      && (e == None ==> out == now + Compact(t))
      && (e != None ==> e == Some(BufferOverflow) && now <= out && out < now + Compact(t) && |out| <= capacity)
  {
    hide Run, OpsText, Compact, Unprintable;
    InnerPrintable(t);
    TreeText(t);
    RunExactly(capacity, now, false, TreeOps(t));
  }

  // ---- The escaping of SPAN tokens ----

  /** Plain bytes stand for themselves; a byte with a letter in the table of section 7 of
      RFC 8259 is a backslash and that letter; any other is \u00 and two upper-case digits. */
  lemma EscapeChunkExactly(c: byte)
    ensures IsPlain(c) ==> EscapeChunk(c) == [c]
    ensures forall l: byte | !IsPlain(c) && EscapeStandsFor(l, c) :: EscapeChunk(c) == [0x5C, l]
    ensures !IsPlain(c) && (forall l: byte :: !EscapeStandsFor(l, c)) ==>
      EscapeChunk(c) == Ascii("\\u00") + [Ascii("0123456789ABCDEF")[c / 16], Ascii("0123456789ABCDEF")[c % 16]]
  {
    hide UpperHex;
    if EscEncode(c) != [] {
      assert EscapeStandsFor(EscEncode(c)[1], c);
    } else if c < 0x20 {
      ControlPrefix();
      hide Ascii;
      UpperHexExactly(c / 16);
      UpperHexExactly(c % 16);
    }
  }

  lemma ControlPrefix()
    ensures Ascii("\\u00") == [BACKSLASH, LOWER_U, 0x30, 0x30]
  {
  }

  lemma HexOfByte(x: nat, y: nat)
    requires x < 16 && y < 16
    ensures var h := [0x30, 0x30, UpperHex(x), UpperHex(y)];
      AllHex(h) && HexValue(h, 0) == x * 16 + y
  {
    hide UpperHex;
    var a, b := UpperHex(x), UpperHex(y);
    var h := [0x30, 0x30, a, b];
    assert h[1..] == [0x30, a, b];
    assert [0x30, a, b][1..] == [a, b];
    assert [a, b][1..] == [b];
    assert [b][1..] == [];
    assert HexValue([b], x) == x * 16 + y;
    assert HexValue([a, b], 0) == x * 16 + y;
  }

  lemma ControlReads(c: byte, k: bytes)
    requires c < 0x20
    ensures var e := [BACKSLASH, LOWER_U, 0x30, 0x30, UpperHex(c / 16), UpperHex(c % 16)];
      StringChar(e + k) == Ok(c, k) && CharLen(e + k) == 6
  {
    hide UpperHex;
    var h := [0x30, 0x30, UpperHex(c / 16), UpperHex(c % 16)];
    var s := [BACKSLASH, LOWER_U, 0x30, 0x30, UpperHex(c / 16), UpperHex(c % 16)] + k;
    HexOfByte(c / 16, c % 16);
    assert s[2..] == h + k;
    assert s[2..6] == h;
    HexUnitReads(h, k, 0);
  }

  lemma EscapeChunkReads(c: byte, k: bytes)
    ensures StringChar(EscapeChunk(c) + k) == Ok(c, k)
    ensures CharLen(EscapeChunk(c) + k) == |EscapeChunk(c)|
  {
    hide UpperHex;
    var e := EscapeChunk(c);
    if EscEncode(c) == [] && c < 0x20 {
      ControlReads(c, k);
    } else {
      assert (e + k)[|e|..] == k;
    }
  }

  /** Escaping yields a well-formed string body that decodes to the bytes it was made from. */
  lemma {:induction false} EscapedDecodes(s: bytes)
    ensures IsStringBody(Escaped(s)) && Units(Escaped(s)) == Some(s)
    decreases |s|
  {
    hide EscapeChunk, StringChar, CharLen;
    if s == [] {
      NoUnits();
    } else {
      var k := Escaped(s[1..]);
      var e := EscapeChunk(s[0]);
      EscapeChunkReads(s[0], k);
      EscapedDecodes(s[1..]);
      assert (e + k)[|e|..] == k;
      assert [s[0]] + s[1..] == s;
    }
  }

  lemma NoUnits()
    ensures IsStringBody([]) && Units([]) == Some([])
  {
  }

  /** The text that write_span makes of any bytes is read back as one string, ending at the
      final quote, and decodes to them. */
  lemma SpanRoundTrip(s: bytes, k: bytes)
    ensures StringRest(Escaped(s) + ([QUOTE] + k)) == Ok(Escaped(s), k)
    ensures Units(Escaped(s)) == Some(s)
  {
    EscapedDecodes(s);
    StringRestReads(Escaped(s), k);
  }

  // ---- Print, then parse ----

  const EXACT: real := 1000000000000000000.0

  /** What the parser reads back exactly: raw names and strings that are well-formed bodies,
      integers of at most eighteen digits, names in objects and only there. */
  predicate Readable(t: BuiltTree)
    decreases t
  {
    match t
    case Leaf(token) =>
      && !token.Container?
      && (token.Number? ==> Integral(token.number) && -EXACT < token.number < EXACT)
      && (token.String? ==> IsStringBody(token.text))
    case Node(kind, kids) => ReadableKids(kind, kids)
  }

  predicate ReadableKids(kind: Kind, kids: BuiltKids)
    decreases kids
  {
    match kids
    case NoKids => true
    case Kid(name, tree, rest) =>
      && (name.Some? <==> kind == Object) && (name.Some? ==> IsStringBody(name.value))
      && Readable(tree) && ReadableKids(kind, rest)
  }

  function TreeDepth(t: BuiltTree): nat {
    if t.Node? then 1 + KidsDepth(t.kids) else 0
  }

  function KidsDepth(kids: BuiltKids): nat {
    if kids.NoKids? then 0 else Max(TreeDepth(kids.tree), KidsDepth(kids.rest))
  }

  /** The token that comes back: a SPAN as the string that it was escaped to, an integer as
      sign and digits. */
  function ParsedToken(token: Built): Token<Dec> {
    match token
    case Null => Null
    case Boolean(b) => Boolean(b)
    case Number(x) => Number(if x < 0.0 then Dec(true, FloorOf(-x), false, 0) else Dec(false, FloorOf(x), false, 0))
    case String(s) => String(s)
    case Span(s) => String(Escaped(s))
    case Container(kind) => Container(kind)
  }

  function FloorOf(x: real): nat
    requires x >= 0.0
  {
    x.Floor
  }

  function Parsed(t: BuiltTree): Tree<Dec> {
    match t
    case Leaf(token) => Leaf(ParsedToken(token))
    case Node(kind, kids) => Node(kind, ParsedKids(kids))
  }

  function ParsedKids(kids: BuiltKids): Kids<Dec> {
    match kids
    case NoKids => NoKids
    case Kid(name, tree, rest) => Kid(name, Parsed(tree), ParsedKids(rest))
  }

  /** The compact text as a document of the grammar. */
  function JsonOf(t: BuiltTree): Json {
    match t
    case Leaf(token) =>
      (match token
       case Null => JNull
       case Boolean(b) => JBoolean(b)
       case Number(x) => JNumber(NumOf(x))
       case String(s) => JString(s)
       case Span(s) => JString(Escaped(s))
       case Container(_) => JNull)
    case Node(kind, kids) => JContainer(kind, [], ItemsOf(kids))
  }

  function NumOf(x: real): Num {
    if x < 0.0 then Num(true, Digits(FloorOf(-x)), [], NoExp) else Num(false, Digits(FloorOf(x)), [], NoExp)
  }

  function ItemsOf(kids: BuiltKids): Items {
    match kids
    case NoKids => NoItems
    case Kid(name, tree, rest) =>
      Item(if name.Some? then Key(name.value, [], []) else NoKey,
           JsonOf(tree), [], if rest.Kid? then Comma([]) else NoComma, ItemsOf(rest))
  }

  lemma {:induction false} DigitsShort(n: nat, k: nat)
    requires n < Pow10(k) && k >= 1
    ensures |Digits(n)| <= k
    decreases k
  {
    if n >= 10 {
      assert Pow10(1) == 10;
      DigitsShort(n / 10, k - 1);
    }
  }

  lemma {:induction false} StripShrinks(ds: bytes)
    ensures |StripZeros(ds)| <= |ds|
    decreases |ds|
  {
    if ds != [] && ds[0] == 0x30 {
      StripShrinks(ds[1..]);
    }
  }

  /** A printed integer is a well-formed number text and is scanned back exactly. */
  lemma IntegerScans(n: nat, minus: bool)
    requires n <= DEC_NUMBER_MAX
    ensures var num := Num(minus, Digits(n), [], NoExp);
      WFNum(num) && Scanned(num) == Dec(minus, n, false, 0)
  {
    hide Scanned, Digits, Val, StripZeros;
    var num := Num(minus, Digits(n), [], NoExp);
    DigitsDenote(n);
    DigitOfZero(n);
    Pow18();
    DigitsShort(n, 18);
    StripShrinks(Digits(n));
    assert Digits(n) + [] == Digits(n);
    EighteenDigitsAreExact(num);
  }

  lemma DigitOfZero(n: nat)
    ensures Digits(n)[0] == 0x30 ==> |Digits(n)| == 1
  {
    DigitsDenote(n);
  }

  lemma NumberReadsBack(x: Double, k: bytes)
    requires Integral(x) && -EXACT < x < EXACT
    ensures WFNum(NumOf(x)) && Number(Scanned(NumOf(x))) == ParsedToken(Number(x))
    ensures NumText(NumOf(x), k) == DoubleText(x) + k
  {
    hide Scanned, Digits, WFNum;
    var m := if x < 0.0 then -x else x;
    IntegralNeg(x);
    assert m.Floor <= DEC_NUMBER_MAX;
    IntegerScans(FloorOf(m), x < 0.0);
  }

  lemma TokenJson(token: Built, k: bytes)
    requires Readable(Leaf(token))
    ensures var v := JsonOf(Leaf(token));
      && WF(v) && !v.JContainer? && TreeOf(v) == Leaf(ParsedToken(token))
      && Text(v, k) == TokenText(token) + k
  {
    hide NumText, WFNum, Scanned, DoubleText, IsStringBody, NumOf, Escaped;
    match token
    case Number(x) => NumberReadsBack(x, k);
    case Span(s) =>
      EscapedDecodes(s);
      assert ([QUOTE] + (Escaped(s) + [QUOTE])) + k == [QUOTE] + (Escaped(s) + ([QUOTE] + k));
    case String(s) =>
      assert ([QUOTE] + (s + [QUOTE])) + k == [QUOTE] + (s + ([QUOTE] + k));
    case _ =>
  }

  lemma {:induction false} JsonOfTree(t: BuiltTree, k: bytes)
    requires Readable(t)
    ensures WF(JsonOf(t)) && TreeOf(JsonOf(t)) == Parsed(t)
    ensures Text(JsonOf(t), k) == Compact(t) + k
    ensures Depth(JsonOf(t)) == TreeDepth(t)
    decreases t
  {
    match t
    case Leaf(token) =>
      TokenJson(token, k);
    case Node(kind, kids) =>
      var c := [CloseOf(kind)] + k;
      ItemsOfKids(kind, kids, c);
      assert [] + ItemsText(ItemsOf(kids), c) == ItemsText(ItemsOf(kids), c);
      var b := CompactKids(kids, true);
      assert ([OpenOf(kind)] + (b + [CloseOf(kind)])) + k == [OpenOf(kind)] + (b + c);
  }

  lemma {:induction false} ItemsOfKids(kind: Kind, kids: BuiltKids, k: bytes)
    requires ReadableKids(kind, kids)
    ensures WFItems(kind, ItemsOf(kids)) && KidsOf(kind, ItemsOf(kids)) == ParsedKids(kids)
    ensures ItemsText(ItemsOf(kids), k) == CompactKids(kids, true) + k
    ensures ItemsDepth(ItemsOf(kids)) == KidsDepth(kids)
    decreases kids
  {
    if kids.NoKids? {
      assert [] + k == k;
    } else {
      hide Text, TreeOf, Compact;
      var rest := CompactKids(kids.rest, true);
      ItemsOfKids(kind, kids.rest, k);
      var c := if kids.rest.Kid? then Comma([]) else NoComma;
      var u := [] + CommaText(c, ItemsText(ItemsOf(kids.rest), k));
      assert u == CompactKids(kids.rest, false) + k by { CommaFirst(kids.rest, k); }
      JsonOfTree(kids.tree, u);
      KeyIsName(kids.name, Compact(kids.tree), CompactKids(kids.rest, false), k);
    }
  }

  lemma CommaFirst(kids: BuiltKids, k: bytes)
    ensures [] + CommaText(if kids.Kid? then Comma([]) else NoComma, CompactKids(kids, true) + k)
         == CompactKids(kids, false) + k
  {
    hide Compact, NameText;
    if kids.Kid? {
      var b := NameText(kids.name) + (Compact(kids.tree) + CompactKids(kids.rest, false));
      assert [] + b == b;
      assert [COMMA] + ([] + (b + k)) == ([COMMA] + b) + k;
    }
  }

  lemma KeyIsName(name: Name, t: bytes, r: bytes, k: bytes)
    ensures KeyText(if name.Some? then Key(name.value, [], []) else NoKey, t + (r + k))
         == ([] + (NameText(name) + (t + r))) + k
  {
    if name.Some? {
      var n, u := name.value, t + (r + k);
      assert [QUOTE] + (n + ([QUOTE] + ([] + ([COLON] + ([] + u))))) == ([QUOTE] + (n + ([QUOTE] + [COLON]))) + u;
    }
  }

  // ---- The compact text has nothing that could be left out ----

  predicate Tight(v: Json) {
    match v
    case JNumber(num) => num.frac == [] && num.exp == NoExp
    case JContainer(_, ws, items) => ws == [] && TightItems(items)
    case _ => true
  }

  predicate TightItems(items: Items) {
    match items
    case NoItems => true
    case Item(key, value, ws, comma, next) =>
      && (key.Key? ==> key.ws == [] && key.after == [])
      && Tight(value) && ws == []
      && (comma.Comma? ==> comma.after == [] && next.Item?)
      && TightItems(next)
  }

  lemma {:induction false} JsonOfIsTight(t: BuiltTree)
    ensures Tight(JsonOf(t))
    decreases t
  {
    if t.Node? {
      ItemsOfAreTight(t.kids);
    }
  }

  lemma {:induction false} ItemsOfAreTight(kids: BuiltKids)
    ensures TightItems(ItemsOf(kids))
    decreases kids
  {
    if kids.Kid? {
      JsonOfIsTight(kids.tree);
      ItemsOfAreTight(kids.rest);
    }
  }

  /** The compact text is that of a well-formed value without whitespace, trailing commas,
      fractions or exponents. */
  lemma CompactIsTight(t: BuiltTree)
    requires Readable(t)
    ensures exists v :: WF(v) && Tight(v) && TreeOf(v) == Parsed(t) && Text(v, []) == Compact(t)
  {
    hide WF, Tight, Text, Compact, Readable;
    JsonOfTree(t, []);
    JsonOfIsTight(t);
    assert Compact(t) + [] == Compact(t);
    assert WF(JsonOf(t));
  }

  /** Printing a tree and parsing the text gives the tree back. */
  lemma PrintThenParse(t: BuiltTree)
    requires Readable(t) && TreeDepth(t) <= MAX_DEPTH
    ensures WalkDocument(Compact(t)) == Ok(Parsed(t), State([], []))
  {
    hide WalkDocument, Text, WF, TreeOf, Depth, Compact;
    var d := Doc([], JsonOf(t), []);
    JsonOfTree(t, []);
    assert Compact(t) + [] == Compact(t);
    assert [] + Compact(t) == Compact(t);
    DocumentReads(d);
  }

  lemma {:induction false} ReadableIsPrintable(t: BuiltTree)
    requires Readable(t)
    ensures Printable(t)
    decreases t
  {
    if t.Node? {
      ReadableKidsArePrintable(t.kind, t.kids);
    }
  }

  lemma {:induction false} ReadableKidsArePrintable(kind: Kind, kids: BuiltKids)
    requires ReadableKids(kind, kids)
    ensures PrintableKids(kids)
    decreases kids
  {
    if kids.Kid? {
      ReadableIsPrintable(kids.tree);
      ReadableKidsArePrintable(kind, kids.rest);
    }
  }

  /** The builder and the parser together: calls that fit an empty buffer leave a text from
      which the traversal recovers the tree. */
  lemma BuildThenParse(capacity: nat, t: BuiltTree)
    requires Readable(t) && TreeDepth(t) <= MAX_DEPTH && |Compact(t)| <= capacity
    ensures var (e, out) := Run(capacity, [], false, TreeOps(t));
      e == None && WalkDocument(out) == Ok(Parsed(t), State([], []))
  {
    hide Run, WalkDocument, Compact, Readable, Printable, Parsed;
    ReadableIsPrintable(t);
    TreeIsPrinted(capacity, [], t);
    assert [] + Compact(t) == Compact(t);
    PrintThenParse(t);
  }
}
