/** The pull parser as it is written: a reader and one 64-bit integer, updated in place
    (sdk/core/core/src/az_json_parser.c, lines 54-99 and 267-475), and the lookup that
    drives it (sdk/core/core/src/az_json_get.c). Every method is proved against the
    function of JsonMachine, JsonSkip or JsonLookup that specifies it. */
module JsonParser {
  import opened Basics
  import opened Views
  import opened JsonString
  import opened JsonNumber
  import opened JsonSyntax
  import opened JsonMachine
  import opened JsonSkip
  import opened JsonReader
  import opened JsonPointer
  import opened JsonLookup
  import opened Decimal
  import opened PointerReader

  // ---- The stack as the bits of an integer ----

  const TOP_BIT: uint64 := 0x8000_0000_0000_0000

  function BitOf(kind: Kind): nat {
    if kind == Array then 1 else 0
  }

  function KindOf(bit: nat): Kind {
    if bit == 1 then Array else Object
  }

  /** A sentinel bit 1, then one bit for each open container, the innermost last. */
  function Encode(stack: seq<Kind>): (n: nat)
    ensures n >= 1
  {
    if stack == [] then 1 else Encode(Pop(stack)) * 2 + BitOf(Top(stack))
  }

  function Decode(n: nat): seq<Kind> {
    if n <= 1 then [] else Decode(n / 2) + [KindOf(n % 2)]
  }

  lemma PushBits(n: nat, kind: Kind)
    requires n >= 1
    ensures Decode(n * 2 + BitOf(kind)) == Decode(n) + [kind]
  {
    assert (n * 2 + BitOf(kind)) / 2 == n;
  }

  /** Encoding and decoding are inverse to each other. */
  lemma {:induction false} DecodeEncode(stack: seq<Kind>)
    ensures Decode(Encode(stack)) == stack
  {
    if stack != [] {
      DecodeEncode(Pop(stack));
      DecodeEncodeStep(Pop(stack), Top(stack));
      assert Pop(stack) + [Top(stack)] == stack;
    }
  }

  lemma EncodePush(outer: seq<Kind>, last: Kind)
    ensures Encode(outer + [last]) == Encode(outer) * 2 + BitOf(last)
  {
    assert Pop(outer + [last]) == outer;
  }

  lemma DecodeEncodeStep(outer: seq<Kind>, last: Kind)
    requires Decode(Encode(outer)) == outer
    ensures Decode(Encode(outer + [last])) == outer + [last]
  {
    hide Decode, Encode;
    EncodePush(outer, last);
    PushBits(Encode(outer), last);
  }

  lemma {:induction false} EncodeDecode(n: nat)
    requires n >= 1
    ensures Encode(Decode(n)) == n
  {
    if n > 1 {
      EncodeDecode(n / 2);
      assert Pop(Decode(n)) == Decode(n / 2);
    }
  }

  function Pow2(k: nat): (r: nat)
    ensures r > 0
  {
    if k == 0 then 1 else Pow2(k - 1) * 2
  }

  lemma {:induction false} DecodeLength(n: nat)
    requires n >= 1
    ensures Pow2(|Decode(n)|) <= n < 2 * Pow2(|Decode(n)|)
  {
    if n > 1 {
      DecodeLength(n / 2);
    }
  }

  lemma {:induction false} Pow2Mono(a: nat, b: nat)
    requires a <= b
    ensures Pow2(a) <= Pow2(b)
    decreases b
  {
    if a < b {
      Pow2Mono(a, b - 1);
    }
  }

  lemma {:induction false} Pow2Add(a: nat, b: nat)
    ensures Pow2(a + b) == Pow2(a) * Pow2(b)
    decreases b
  {
    if b > 0 {
      Pow2Add(a, b - 1);
    }
  }

  lemma Pow2Of21()
    ensures Pow2(21) == 0x20_0000
  {
    assert Pow2(7) == 128;
    Pow2Add(7, 7);
    Pow2Add(14, 7);
  }

  lemma Pow2Of63()
    ensures Pow2(63) == TOP_BIT
  {
    Pow2Of21();
    hide Pow2;
    Pow2Add(21, 21);
    assert Pow2(42) == 0x400_0000_0000;
    Pow2Add(42, 21);
  }

  lemma Pow2Of64()
    ensures Pow2(64) == 2 * TOP_BIT
  {
    Pow2Of63();
  }

  /** The top bit is reached exactly with the 63rd open container. */
  lemma FullExactly(n: uint64)
    requires n >= 1
    ensures n / TOP_BIT != 0 <==> |Decode(n)| >= MAX_DEPTH
    ensures |Decode(n)| <= MAX_DEPTH
  {
    DecodeLength(n);
    Pow2Of63();
    var k := |Decode(n)|;
    if k >= 64 {
      Pow2Mono(64, k);
      Pow2Of64();
    } else if k < 63 {
      Pow2Mono(k + 1, 63);
    }
  }

  lemma TopBits(n: uint64)
    requires n > 1
    ensures Decode(n) != [] && Top(Decode(n)) == KindOf(n % 2) && Pop(Decode(n)) == Decode(n / 2)
  {
  }

  /** Distinct stacks are distinct integers. */
  lemma DecodeInjective(a: nat, b: nat)
    requires a >= 1 && b >= 1
    ensures a == b <==> Decode(a) == Decode(b)
  {
    EncodeDecode(a);
    EncodeDecode(b);
  }

  /** What a call returns and leaves behind is what the specification says, on success
      and on failure. */
  ghost predicate Meets<T>(r: Outcome<T>, st: State, spec: Result<T, State>) {
    match spec
    case Ok(v, s) => r == Success(v) && st == s
    case Fail(e, s) => r == Failure(e) && st == s
  }

  /** The same of a call that returns no value. */
  ghost predicate Does(r: Outcome<()>, st: State, spec: Result<(), State>) {
    match spec
    case Ok(_, s) => r.Success? && st == s
    case Fail(e, s) => r == Failure(e) && st == s
  }

  class JsonParser {
    var reader: View
    var stack: uint64

    ghost predicate Valid()
      reads this
    {
      stack >= 1
    }

    /** The abstract state: the unread bytes and the open containers. */
    ghost function Abs(): State
      reads this
    {
      State(reader.bytes, Decode(stack))
    }

    constructor (json: View)
      ensures Valid() && Abs() == State(json.bytes, []) && reader == json
    {
      reader := json;
      stack := 1;
    }

    method StackIsEmpty() returns (b: bool)
      requires Valid()
      ensures b <==> Abs().stack == []
    {
      b := stack == 1;
    }

    /** The kind that the lowest bit stands for, whatever the stack. */
    method StackLast() returns (kind: Kind)
      requires Valid()
      ensures kind == LastKind(Abs().stack)
    {
      kind := KindOf(stack % 2);
    }

    method PushStack(kind: Kind) returns (r: Outcome<()>)
      requires Valid()
      modifies this`stack
      ensures Valid()
      ensures r.Success? <==> |old(Abs()).stack| < MAX_DEPTH
      ensures Abs() == if r.Success? then State(reader.bytes, old(Abs()).stack + [kind]) else old(Abs())
      ensures r.Failure? ==> r.error == NestingOverflow
    {
      FullExactly(stack);
      if stack / TOP_BIT != 0 {
        return Failure(NestingOverflow);
      }
      PushBits(stack, kind);
      stack := stack * 2 + BitOf(kind);
      return Success(());
    }

    method PopStack() returns (r: Outcome<()>)
      requires Valid()
      modifies this`stack
      ensures Valid()
      ensures r.Success? <==> old(Abs()).stack != []
      ensures Abs() == if r.Success? then State(reader.bytes, Pop(old(Abs()).stack)) else old(Abs())
      ensures r.Failure? ==> r.error == InvalidState
      ensures r.Success? ==> stack == old(stack) / 2
    {
      if stack <= 1 {
        return Failure(InvalidState);
      }
      TopBits(stack);
      stack := stack / 2;
      return Success(());
    }

    method GetLiteral(text: bytes, token: Token<Dec>) returns (r: Outcome<Token<Dec>>)
      requires Valid() && text != []
      modifies this`reader
      ensures Meets(r, Abs(), Literal(old(Abs()), text, token))
    {
      var e := IsExpectedSpan(reader, text);
      reader := e.rest;
      if e.Fail? {
        return Failure(e.error);
      }
      return Success(token);
    }

    method GetOpening(kind: Kind) returns (r: Outcome<Token<Dec>>)
      requires Valid() && reader.bytes != []
      modifies this
      ensures Valid() && Meets(r, Abs(), OpenContainer(old(Abs()), kind))
    {
      reader := Slice(reader, 1, -1);
      var p := PushStack(kind);
      if p.Failure? {
        return Failure(p.error);
      }
      return Success(Container(kind));
    }

    /** `az_json_parser_get_value` */
    method GetValueToken() returns (r: Outcome<Token<Dec>>)
      requires Valid()
      modifies this
      ensures Valid() && Meets(r, Abs(), GetValue(old(Abs())))
    {
      hide NumberRest, StringRest, Literal, OpenContainer, Decode;
      if |reader.bytes| == 0 {
        return Failure(EOF);
      }
      var c := reader.bytes[0];
      if IsDigit(c) || c == MINUS {
        var n := GetNumber(reader);
        reader := n.rest;
        if n.Fail? {
          return Failure(n.error);
        }
        return Success(Number(n.value));
      } else if c == 0x74 {
        r := GetLiteral(TRUE_TEXT, Boolean(true));
      } else if c == 0x66 {
        r := GetLiteral(FALSE_TEXT, Boolean(false));
      } else if c == 0x6E {
        r := GetLiteral(NULL_TEXT, Null);
      } else if c == QUOTE {
        reader := Slice(reader, 1, -1);
        var s := GetStringRest(reader);
        reader := s.rest;
        if s.Fail? {
          return Failure(s.error);
        }
        return Success(String(s.value));
      } else if c == OPEN_BRACE {
        r := GetOpening(Object);
      } else if c == OPEN_BRACKET {
        r := GetOpening(Array);
      } else {
        return Failure(UnexpectedChar);
      }
    }

    /** `az_json_parser_get_value_space` */
    method GetValueTokenSpace() returns (r: Outcome<Token<Dec>>)
      requires Valid()
      modifies this
      ensures Valid() && Meets(r, Abs(), GetValueSpace(old(Abs())))
    {
      hide GetValue, Decode, Stripped;
      r := GetValueToken();
      if r.Failure? {
        return;
      }
      if |reader.bytes| > 0 {
        reader := SkipWhiteSpace(reader);
      }
    }

    method ParseRootToken() returns (r: Outcome<Token<Dec>>)
      requires Valid()
      modifies this
      ensures Valid() && Meets(r, Abs(), ParseToken(old(Abs())))
    {
      hide GetValueSpace, Decode, Stripped;
      var root := StackIsEmpty();
      if !root {
        return Failure(InvalidState);
      }
      reader := SkipWhiteSpace(reader);
      r := GetValueTokenSpace();
      if r.Failure? {
        return;
      }
      var isEmpty := |reader.bytes| == 0;
      if r.value.Container? {
        if isEmpty {
          return Failure(EOF);
        }
        return;
      }
      if !isEmpty {
        return Failure(UnexpectedChar);
      }
    }

    method ReadCommaOrClose() returns (r: Outcome<()>)
      requires Valid() && Abs().stack != []
      modifies this`reader
      ensures Does(r, Abs(), CommaOrClose(old(Abs())))
    {
      hide Decode, Stripped;
      // The C code reads the first byte without this check.
      if |reader.bytes| == 0 {
        return Failure(OutOfBounds);
      }
      var c := reader.bytes[0];
      if c == COMMA {
        reader := Slice(reader, 1, -1);
        reader := SkipWhiteSpace(reader);
        return Success(());
      }
      var kind := StackLast();
      if c != CloseOf(kind) {
        return Failure(UnexpectedChar);
      }
      return Success(());
    }

    method CheckItemBegin(kind: Kind) returns (r: Outcome<()>)
      requires Valid()
      modifies this
      ensures Valid() && Does(r, Abs(), ItemBegin(kind, old(Abs())))
    {
      hide Decode, Stripped, SkipSpace;
      var root := StackIsEmpty();
      var last := StackLast();
      if root || last != kind {
        return Failure(InvalidState);
      }
      if |reader.bytes| == 0 {
        return Failure(EOF);
      }
      var c := reader.bytes[0];
      if c != CloseOf(kind) {
        return Success(());
      }
      var p := PopStack();
      if p.Failure? {
        assert false;
        return;
      }
      reader := Slice(reader, 1, -1);
      reader := SkipWhiteSpace(reader);
      root := StackIsEmpty();
      if !root {
        r := ReadCommaOrClose();
        if r.Failure? {
          return;
        }
      }
      return Failure(ItemNotFound);
    }

    method CheckItemEnd(token: Token<Dec>) returns (r: Outcome<()>)
      requires Valid() && Abs().stack != []
      modifies this`reader
      ensures Does(r, Abs(), ItemEnd(old(Abs()), token))
    {
      if token.Container? {
        return Success(());
      }
      r := ReadCommaOrClose();
    }

    /** The value of a member or an item, and the comma or close after it. */
    method ParseItemValue() returns (r: Outcome<Token<Dec>>)
      requires Valid() && Abs().stack != []
      modifies this
      ensures Valid() && Meets(r, Abs(), ItemValue(old(Abs())))
    {
      hide GetValueSpace, ItemEnd, Decode;
      r := GetValueTokenSpace();
      if r.Failure? {
        return;
      }
      var e := CheckItemEnd(r.value);
      if e.Failure? {
        return Failure(e.error);
      }
    }

    /** The name of a member up to its value. */
    method ParseName() returns (r: Outcome<bytes>)
      requires Valid()
      modifies this`reader
      ensures Meets(r, Abs(), Lift(ReadKey(old(Abs()).reader), Abs().stack))
    {
      hide StringRest, Decode, Stripped;
      var q := IsExpectedSpan(reader, [QUOTE]);
      reader := q.rest;
      if q.Fail? {
        return Failure(q.error);
      }
      var s := GetStringRest(reader);
      reader := s.rest;
      if s.Fail? {
        return Failure(s.error);
      }
      reader := SkipWhiteSpace(reader);
      var c := IsExpectedSpan(reader, [COLON]);
      reader := c.rest;
      if c.Fail? {
        return Failure(c.error);
      }
      reader := SkipWhiteSpace(reader);
      return Success(s.value);
    }

    method ParseTokenMember() returns (r: Outcome<(Name, Token<Dec>)>)
      requires Valid()
      modifies this
      ensures Valid() && Meets(r, Abs(), ParseItem(Object, old(Abs())))
    {
      hide ItemBegin, ReadKey, ItemValue, Decode;
      var b := CheckItemBegin(Object);
      if b.Failure? {
        return Failure(b.error);
      }
      var n := ParseName();
      if n.Failure? {
        return Failure(n.error);
      }
      var t := ParseItemValue();
      if t.Failure? {
        return Failure(t.error);
      }
      return Success((Some(n.value), t.value));
    }

    method ParseArrayItem() returns (r: Outcome<(Name, Token<Dec>)>)
      requires Valid()
      modifies this
      ensures Valid() && Meets(r, Abs(), ParseItem(Array, old(Abs())))
    {
      hide ItemBegin, ItemValue, Decode;
      var b := CheckItemBegin(Array);
      if b.Failure? {
        return Failure(b.error);
      }
      var t := ParseItemValue();
      if t.Failure? {
        return Failure(t.error);
      }
      return Success((None, t.value));
    }

    method CheckDone() returns (r: Outcome<()>)
      requires Valid()
      ensures Does(r, Abs(), Done(Abs()))
    {
      if |reader.bytes| > 0 || stack != 1 {
        return Failure(InvalidState);
      }
      return Success(());
    }

    method SkipAllChildren(token: Token<Dec>) returns (r: Outcome<()>)
      requires Valid()
      modifies this
      ensures Valid() && Does(r, Abs(), SkipChildren(token, old(Abs())))
    {
      hide ParseItem, Decode;
      if !token.Container? {
        return Success(());
      }
      if stack <= 1 {
        DecodeInjective(stack, 1);
        assert Decode(1) == [] by { DecodeOne(); }
        return Failure(InvalidState);
      }
      TopBits(stack);
      var target: uint64 := stack / 2;
      ghost var goal := Skip(Abs(), Decode(target));
      while true
        invariant Valid() && Skip(Abs(), Decode(target)) == goal
        decreases |reader.bytes|
      {
        var kind := StackLast();
        ghost var st := Abs();
        ParseItemProgress(kind, st);
        var item: Outcome<(Name, Token<Dec>)>;
        if kind == Object {
          item := ParseTokenMember();
        } else {
          item := ParseArrayItem();
        }
        if item.Failure? && item.error != ItemNotFound {
          return Failure(item.error);
        }
        DecodeInjective(stack, target);
        if stack == target {
          return Success(());
        }
      }
    }

    // ---- az_json_get.c ----

    method GetByPointerToken(pt: bytes, token: Token<Dec>) returns (r: Outcome<Token<Dec>>)
      requires Valid()
      modifies this
      ensures Valid() && Meets(r, Abs(), GetByToken(old(Abs()), pt, token))
    {
      hide ParseItem, SkipChildren, ToUint64, TokenEq, Decode;
      if token == Container(Array) {
        var index := SpanToUint64(pt);
        if index.Failure? {
          return Failure(index.error);
        }
        r := ItemAt(index.value);
      } else if token == Container(Object) {
        r := MemberNamed(pt);
      } else {
        return Failure(ItemNotFound);
      }
    }

    method ItemAt(index: uint64) returns (r: Outcome<Token<Dec>>)
      requires Valid()
      modifies this
      ensures Valid() && Meets(r, Abs(), FindIndex(old(Abs()), index))
    {
      hide ParseItem, SkipChildren, Decode;
      var i := index;
      while true
        invariant Valid() && FindIndex(Abs(), i) == FindIndex(old(Abs()), index)
        decreases i
      {
        var item := ParseArrayItem();
        if item.Failure? {
          return Failure(item.error);
        }
        if i == 0 {
          return Success(item.value.1);
        }
        i := i - 1;
        var s := SkipAllChildren(item.value.1);
        if s.Failure? {
          return Failure(s.error);
        }
      }
    }

    method MemberNamed(pt: bytes) returns (r: Outcome<Token<Dec>>)
      requires Valid()
      modifies this
      ensures Valid() && Meets(r, Abs(), FindMember(old(Abs()), pt))
    {
      hide ParseItem, SkipChildren, TokenEq, Decode;
      while true
        invariant Valid() && FindMember(Abs(), pt) == FindMember(old(Abs()), pt)
        decreases |reader.bytes|
      {
        ParseItemProgress(Object, Abs());
        MemberHasName(Abs());
        var member := ParseTokenMember();
        if member.Failure? {
          return Failure(member.error);
        }
        var equal := PointerTokenEqJsonString(pt, member.value.0.value);
        if equal {
          return Success(member.value.1);
        }
        var s := SkipAllChildren(member.value.1);
        if s.Failure? {
          return Failure(s.error);
        }
      }
    }
  }

  lemma DecodeOne()
    ensures Decode(1) == []
  {
  }

  lemma MemberHasName(st: State)
    ensures ParseItem(Object, st).Ok? ==> ParseItem(Object, st).value.0.Some?
  {
    hide ItemBegin, ReadKey, ItemValue;
  }

  /** `az_json_parse_by_pointer` */
  method JsonParseByPointer(json: View, pointer: View) returns (r: Outcome<Token<Dec>>)
    ensures r == ParseByPointer(json.bytes, pointer.bytes)
  {
    hide ParseToken, GetByToken, PointerToken, Decode;
    var parser := new JsonParser(json);
    r := parser.ParseRootToken();
    if r.Failure? {
      return;
    }
    var pointerParser := pointer;
    while true
      invariant fresh(parser) && parser.Valid() && r.Success?
      invariant Descend(parser.Abs(), r.value, pointerParser.bytes) == ParseByPointer(json.bytes, pointer.bytes)
      decreases |pointerParser.bytes|
    {
      PointerTokenShrinks(pointerParser.bytes);
      var t := ReadPointerToken(pointerParser);
      if t.Fail? {
        if t.error == ItemNotFound {
          return;
        }
        return Failure(t.error);
      }
      pointerParser := t.rest;
      r := parser.GetByPointerToken(t.value, r.value);
      if r.Failure? {
        return;
      }
    }
  }

  lemma PointerTokenShrinks(s: bytes)
    ensures PointerToken(s).Ok? ==> |PointerToken(s).rest| < |s|
  {
  }
}
