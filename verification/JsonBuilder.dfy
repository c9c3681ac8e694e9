/** The JSON builder (sdk/core/core/src/az_json_builder.c): it appends to one span and
    keeps one bit, whether a comma is due. */
module JsonBuilder {
  import opened Basics
  import opened JsonString
  import opened JsonSyntax
  import opened Spans
  import opened JsonNumber
  import opened DecimalPrinter

  type Built = Token<Double>

  // ---- What a call writes ----

  /** A byte of a SPAN token. */
  function EscapeChunk(c: byte): (r: bytes)
    ensures r != []
  {
    if EscEncode(c) != [] then EscEncode(c)
    else if c < 0x20 then [BACKSLASH, LOWER_U, 0x30, 0x30, UpperHex(c / 16), UpperHex(c % 16)]
    else [c]
  }

  function EscapeChunks(s: bytes): seq<bytes> {
    if s == [] then [] else [EscapeChunk(s[0])] + EscapeChunks(s[1..])
  }

  function Singles(s: bytes): seq<bytes> {
    if s == [] then [] else [[s[0]]] + Singles(s[1..])
  }

  function StrChunks(s: bytes): seq<bytes> {
    [[QUOTE]] + [s, [QUOTE]]
  }

  function SpanChunks(s: bytes): seq<bytes> {
    [[QUOTE]] + (EscapeChunks(s) + [[QUOTE]])
  }

  /** The appends of `az_json_builder_append_token`. */
  function TokenChunks(token: Built): seq<bytes> {
    match token
    case Null => [NULL_TEXT]
    case Boolean(b) => [if b then TRUE_TEXT else FALSE_TEXT]
    case Number(x) => Singles(DoubleText(x))
    case String(s) => StrChunks(s)
    case Span(s) => SpanChunks(s)
    case Container(kind) => [[OpenOf(kind)]]
  }

  datatype Op =
    | PutToken(token: Built)
    | PutMember(name: bytes, token: Built)
    | PutItem(token: Built)
    | PutClose(kind: Kind)

  function CommaChunks(needComma: bool): seq<bytes> {
    if needComma then [[COMMA]] else []
  }

  /** The appends of one call. */
  function OpChunks(needComma: bool, op: Op): seq<bytes> {
    match op
    case PutToken(t) => TokenChunks(t)
    case PutMember(name, t) => CommaChunks(needComma) + (StrChunks(name) + ([[COLON]] + TokenChunks(t)))
    case PutItem(t) => CommaChunks(needComma) + TokenChunks(t)
    case PutClose(kind) => [[CloseOf(kind)]]
  }

  /** Whether a comma is due after a call that succeeded. */
  function CommaAfter(op: Op): bool {
    op.PutClose? || !op.token.Container?
  }

  /** Fractions are not implemented. */
  predicate Unprintable(op: Op) {
    !op.PutClose? && op.token.Number? && !Integral(op.token.number)
  }

  /** The error of a call, if any, and the text after it. */
  function Write(capacity: nat, now: bytes, needComma: bool, op: Op): (Option<Error>, bytes) {
    var (ok, out) := WriteAll(capacity, now, OpChunks(needComma, op));
    (if !ok then Some(BufferOverflow) else if Unprintable(op) then Some(NotImplemented) else None, out)
  }

  function ErrorOf(r: Outcome<()>): Option<Error> {
    match r
    case Success(_) => None
    case Failure(e) => Some(e)
  }

  // ---- The builder ----

  class Builder {
    var json: Span
    var needComma: bool

    ghost predicate Valid()
      reads this
    {
      json.Valid()
    }

    ghost function Text(): (s: bytes)
      requires Valid()
      reads this, json.buf
      ensures |s| <= json.capacity
    {
      json.Contents()
    }

    constructor (buffer: Span)
      requires buffer.Valid()
      ensures Valid() && json == buffer && Text() == buffer.Contents() && !needComma
    {
      json := buffer;
      needComma := false;
    }

    /** Same buffer, same window. */
    twostate predicate SameWindow()
      reads this
    {
      json == old(json).(length := json.length)
    }

    /** One append, `more` being the chunks that are to follow. */
    method AppendChunk(c: bytes, ghost more: seq<bytes>) returns (r: Outcome<()>)
      requires Valid()
      modifies this`json, json.buf
      ensures Valid() && SameWindow()
      ensures r.Success? ==>
        WriteAll(json.capacity, old(Text()), [c] + more) == WriteAll(json.capacity, Text(), more)
      ensures r.Failure? ==> r.error == BufferOverflow
      ensures r.Failure? ==> WriteAll(json.capacity, old(Text()), [c] + more) == (false, Text())
    {
      hide WriteAll;
      var out;
      r, out := AppendOne(json, c, more);
      json := out;
    }

    /** A single append as a row of one. */
    method AppendOnly(c: bytes) returns (r: Outcome<()>)
      requires Valid()
      modifies this`json, json.buf
      ensures Valid() && SameWindow()
      ensures WriteAll(json.capacity, old(Text()), [c]) == (r.Success?, Text())
      ensures r.Failure? ==> r.error == BufferOverflow
    {
      hide WriteAll;
      assert [c] + [] == [c];
      r := AppendChunk(c, []);
      WriteNothing(json.capacity, Text());
    }

    /** `az_json_builder_append_str`: raw, between quotes. */
    method AppendStr(value: bytes) returns (r: Outcome<()>)
      requires Valid()
      modifies this`json, json.buf
      ensures Valid() && SameWindow()
      ensures WriteAll(json.capacity, old(Text()), StrChunks(value)) == (r.Success?, Text())
      ensures r.Failure? ==> r.error == BufferOverflow
    {
      hide WriteAll;
      assert [value, [QUOTE]] == [value] + [[QUOTE]];
      r := AppendChunk([QUOTE], [value, [QUOTE]]);
      if r.Failure? {
        return;
      }
      r := AppendChunk(value, [[QUOTE]]);
      if r.Failure? {
        return;
      }
      r := AppendOnly([QUOTE]);
    }

    /** `az_json_builder_write_span`: escaped, between quotes. */
    method WriteSpan(value: bytes) returns (r: Outcome<()>)
      requires Valid()
      modifies this`json, json.buf
      ensures Valid() && SameWindow()
      ensures WriteAll(json.capacity, old(Text()), SpanChunks(value)) == (r.Success?, Text())
      ensures r.Failure? ==> r.error == BufferOverflow
    {
      hide WriteAll, EscEncode;
      ghost var before := Text();
      r := AppendChunk([QUOTE], EscapeChunks(value) + [[QUOTE]]);
      if r.Failure? {
        return;
      }
      assert value[0..] == value;
      for i := 0 to |value|
        invariant Valid() && SameWindow()
        invariant WriteAll(json.capacity, before, SpanChunks(value))
               == WriteAll(json.capacity, Text(), EscapeChunks(value[i..]) + [[QUOTE]])
      {
        var c := value[i];
        ghost var more := EscapeChunks(value[i + 1..]) + [[QUOTE]];
        EscapeChunksStep(value, i);
        var esc := EscEncode(c);
        if |esc| > 0 {
          r := AppendChunk(esc, more);
        } else if c < 0x20 {
          r := AppendChunk([BACKSLASH, LOWER_U, 0x30, 0x30, UpperHex(c / 16), UpperHex(c % 16)], more);
        } else {
          r := AppendChunk([c], more);
        }
        if r.Failure? {
          return;
        }
      }
      assert EscapeChunks(value[|value|..]) + [[QUOTE]] == [[QUOTE]];
      r := AppendOnly([QUOTE]);
    }

    /** `az_span_append_double` on the builder's span. */
    method AppendNumber(x: Double) returns (r: Outcome<()>)
      requires Valid()
      modifies this`json, json.buf
      ensures Valid() && SameWindow()
      ensures (ErrorOf(r), Text()) == Write(json.capacity, old(Text()), false, PutToken(Number(x)))
    {
      hide WriteAll, Cut, DoubleText, Integral;
      ghost var before := Text();
      WriteSingles(json.capacity, before, DoubleText(x));
      var out;
      r, out := AppendDouble(json, x);
      json := out;
    }

    /** `az_json_builder_append_token` */
    method AppendToken(token: Built) returns (r: Outcome<()>)
      requires Valid()
      modifies this, json.buf
      ensures Valid() && SameWindow()
      ensures (ErrorOf(r), Text()) == Write(json.capacity, old(Text()), false, PutToken(token))
      ensures needComma == !token.Container?
    {
      hide WriteAll, StrChunks, SpanChunks, DoubleText, Integral;
      needComma := true;
      match token {
        case Null =>
          r := AppendOnly(NULL_TEXT);
        case Boolean(b) =>
          r := AppendOnly(if b then TRUE_TEXT else FALSE_TEXT);
        case String(s) =>
          r := AppendStr(s);
        case Number(x) =>
          r := AppendNumber(x);
        case Container(kind) =>
          needComma := false;
          r := AppendOnly([OpenOf(kind)]);
        case Span(s) =>
          r := WriteSpan(s);
      }
    }

    /** `az_json_builder_write_comma` */
    method WriteComma() returns (r: Outcome<()>)
      requires Valid()
      modifies this`json, json.buf
      ensures Valid() && SameWindow()
      ensures WriteAll(json.capacity, old(Text()), CommaChunks(needComma)) == (r.Success?, Text())
      ensures r.Failure? ==> r.error == BufferOverflow
    {
      hide WriteAll;
      WriteNothing(json.capacity, Text());
      r := Success(());
      if needComma {
        r := AppendOnly([COMMA]);
      }
    }

    /** A member up to its token, `more` being the chunks of the token. */
    method AppendName(name: bytes, ghost more: seq<bytes>) returns (r: Outcome<()>)
      requires Valid()
      modifies this`json, json.buf
      ensures Valid() && SameWindow()
      ensures r.Failure? ==> r.error == BufferOverflow
      ensures WriteAll(json.capacity, old(Text()), CommaChunks(needComma) + (StrChunks(name) + ([[COLON]] + more)))
           == if r.Success? then WriteAll(json.capacity, Text(), more) else (false, Text())
    {
      hide WriteAll, StrChunks, CommaChunks;
      ghost var colon := [[COLON]] + more;
      WriteAllThen(json.capacity, Text(), CommaChunks(needComma), StrChunks(name) + colon);
      r := WriteComma();
      if r.Failure? {
        return;
      }
      WriteAllThen(json.capacity, Text(), StrChunks(name), colon);
      r := AppendStr(name);
      if r.Failure? {
        return;
      }
      r := AppendChunk([COLON], more);
    }

    /** `az_json_builder_append_object`: a member. */
    method AppendObject(name: bytes, token: Built) returns (r: Outcome<()>)
      requires Valid()
      modifies this, json.buf
      ensures Valid() && SameWindow()
      ensures (ErrorOf(r), Text()) == Write(json.capacity, old(Text()), old(needComma), PutMember(name, token))
      ensures r.Success? ==> needComma == CommaAfter(PutMember(name, token))
    {
      hide WriteAll, StrChunks, TokenChunks, CommaChunks, Integral;
      r := AppendName(name, TokenChunks(token));
      if r.Failure? {
        return;
      }
      r := AppendToken(token);
    }

    /** `az_json_builder_append_array_item` */
    method AppendArrayItem(token: Built) returns (r: Outcome<()>)
      requires Valid()
      modifies this, json.buf
      ensures Valid() && SameWindow()
      ensures (ErrorOf(r), Text()) == Write(json.capacity, old(Text()), old(needComma), PutItem(token))
      ensures r.Success? ==> needComma == CommaAfter(PutItem(token))
    {
      hide WriteAll, TokenChunks, Integral;
      WriteAllThen(json.capacity, Text(), CommaChunks(needComma), TokenChunks(token));
      r := WriteComma();
      if r.Failure? {
        return;
      }
      r := AppendToken(token);
    }

    /** `az_json_builder_append_object_close` and `az_json_builder_append_array_close` */
    method AppendClose(kind: Kind) returns (r: Outcome<()>)
      requires Valid()
      modifies this, json.buf
      ensures Valid() && SameWindow()
      ensures (ErrorOf(r), Text()) == Write(json.capacity, old(Text()), old(needComma), PutClose(kind))
      ensures needComma == (old(needComma) || r.Success?)
    {
      hide WriteAll;
      r := AppendOnly([CloseOf(kind)]);
      if r.Success? {
        needComma := true;
      }
    }
  }

  lemma EscapeChunksStep(s: bytes, i: nat)
    requires i < |s|
    ensures EscapeChunks(s[i..]) + [[QUOTE]] == [EscapeChunk(s[i])] + (EscapeChunks(s[i + 1..]) + [[QUOTE]])
  {
    assert s[i..][1..] == s[i + 1..];
  }

  /** Writing byte by byte stops where the room ends. */
  lemma {:induction false} WriteSingles(capacity: nat, now: bytes, s: bytes)
    requires |now| <= capacity
    ensures WriteAll(capacity, now, Singles(s)) == (|now| + |s| <= capacity, now + Cut(s, capacity - |now|))
    decreases |s|
  {
    if s == [] {
      assert now + Cut(s, capacity - |now|) == now;
    } else {
      assert s == [s[0]] + s[1..];
      assert Singles(s)[1..] == Singles(s[1..]);
      if |now| < capacity {
        WriteSingles(capacity, now + [s[0]], s[1..]);
        assert now + Cut(s, capacity - |now|) == (now + [s[0]]) + Cut(s[1..], capacity - |now| - 1);
      } else {
        assert now + Cut(s, 0) == now;
      }
    }
  }
}
