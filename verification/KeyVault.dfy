/** The JSON body of the key-creation request
    (sdk/keyvault/keyvault/src/az_keyvault_client.c, lines 159-219): the builder driven by
    the options, and what a JSON pointer finds in the text. */
module KeyVault {
  import opened Basics
  import opened JsonString
  import opened JsonNumber
  import opened JsonSyntax
  import opened JsonMachine
  import opened JsonWalk
  import opened JsonPointer
  import opened JsonLookup
  import opened Spans
  import opened Decimal
  import opened JsonBuilder
  import opened JsonPrint

  const KTY: bytes := [0x6B, 0x74, 0x79]
  const ATTRIBUTES: bytes := [0x61, 0x74, 0x74, 0x72, 0x69, 0x62, 0x75, 0x74, 0x65, 0x73]
  const ENABLED: bytes := [0x65, 0x6E, 0x61, 0x62, 0x6C, 0x65, 0x64]
  const KEY_OPS: bytes := [0x6B, 0x65, 0x79, 0x5F, 0x6F, 0x70, 0x73]
  const TAGS: bytes := [0x74, 0x61, 0x67, 0x73]

  datatype Pair = Pair(key: bytes, value: bytes)

  predicate HasNull(list: seq<Pair>) {
    exists i | 0 <= i < |list| :: list[i].key == []
  }

  /** `az_keyvault_create_key_options`. The two lists are C arrays that end at a null
      element; a span is equal to the null span exactly when it is empty. */
  datatype Options = Options(enabled: Option<bool>, operations: Option<seq<bytes>>, tags: Option<seq<Pair>>) {
    predicate Terminated() {
      && (operations.Some? ==> [] in operations.value)
      && (tags.Some? ==> HasNull(tags.value))
    }
  }

  // ---- The intended tree ----

  /** What stands before the first null element. */
  function Operations(list: seq<bytes>): (ops: seq<bytes>)
    ensures ops <= list && [] !in ops && (|ops| < |list| ==> list[|ops|] == [])
  {
    if list == [] || list[0] == [] then [] else [list[0]] + Operations(list[1..])
  }

  /** What stands before the first null key. */
  function Tags(list: seq<Pair>): (tags: seq<Pair>)
    ensures tags <= list && !HasNull(tags) && (|tags| < |list| ==> list[|tags|].key == [])
  {
    if list == [] || list[0].key == [] then [] else [list[0]] + Tags(list[1..])
  }

  function OperationKids(ops: seq<bytes>): BuiltKids {
    if ops == [] then NoKids else Kid(None, Leaf(String(ops[0])), OperationKids(ops[1..]))
  }

  function TagKids(tags: seq<Pair>): BuiltKids {
    if tags == [] then NoKids else Kid(Some(tags[0].key), Leaf(String(tags[0].value)), TagKids(tags[1..]))
  }

  function TagsPart(options: Options): BuiltKids {
    if options.tags.None? then NoKids
    else Kid(Some(TAGS), Node(Object, TagKids(Tags(options.tags.value))), NoKids)
  }

  function OperationsPart(options: Options): BuiltKids {
    if options.operations.None? then TagsPart(options)
    else Kid(Some(KEY_OPS), Node(Array, OperationKids(Operations(options.operations.value))), TagsPart(options))
  }

  function OptionsPart(options: Options): BuiltKids {
    if options.enabled.None? then OperationsPart(options)
    else Kid(Some(ATTRIBUTES), Node(Object, Kid(Some(ENABLED), Leaf(Boolean(options.enabled.value)), NoKids)),
             OperationsPart(options))
  }

  /** The object that the request is meant to carry. */
  function Body(kty: bytes, options: Option<Options>): BuiltTree {
    Node(Object, Kid(Some(KTY), Leaf(String(kty)), if options.Some? then OptionsPart(options.value) else NoKids))
  }

  // ---- Building it ----

  /** What is left to do: the run of the calls `ops` from the builder's present state. */
  ghost function Left(b: Builder, ops: seq<Op>): (Option<Error>, bytes)
    requires b.Valid()
    reads b, b.json.buf
  {
    Run(b.json.capacity, b.Text(), b.needComma, ops)
  }

  /** After calls with the result `r`, the run from before them goes on as `after`, or has
      ended with their error. */
  predicate GoesOn(r: Outcome<()>, before: (Option<Error>, bytes), after: (Option<Error>, bytes), text: bytes) {
    before == match r case Success(_) => after case Failure(e) => (Some(e), text)
  }

  lemma RunStep(capacity: nat, now: bytes, needComma: bool, op: Op, rest: seq<Op>)
    ensures var (e, out) := Write(capacity, now, needComma, op);
      Run(capacity, now, needComma, [op] + rest)
      == if e.Some? then (e, out) else Run(capacity, out, CommaAfter(op), rest)
  {
    hide Write, CommaAfter;
    assert ([op] + rest)[1..] == rest;
  }

  /** `az_json_builder_append_object`, `rest` being the calls to come. */
  method PutNamed(b: Builder, name: bytes, token: Built, ghost rest: seq<Op>) returns (r: Outcome<()>)
    requires b.Valid()
    modifies b, b.json.buf
    ensures b.Valid() && b.json == old(b.json).(length := b.json.length)
    ensures GoesOn(r, old(Left(b, [PutMember(name, token)] + rest)), Left(b, rest), b.Text())
  {
    hide Write, Run, CommaAfter;
    RunStep(b.json.capacity, b.Text(), b.needComma, PutMember(name, token), rest);
    r := b.AppendObject(name, token);
  }

  method PutOne(b: Builder, token: Built, ghost rest: seq<Op>) returns (r: Outcome<()>)
    requires b.Valid()
    modifies b, b.json.buf
    ensures b.Valid() && b.json == old(b.json).(length := b.json.length)
    ensures GoesOn(r, old(Left(b, [PutItem(token)] + rest)), Left(b, rest), b.Text())
  {
    hide Write, Run, CommaAfter;
    RunStep(b.json.capacity, b.Text(), b.needComma, PutItem(token), rest);
    r := b.AppendArrayItem(token);
  }

  method Close(b: Builder, kind: Kind, ghost rest: seq<Op>) returns (r: Outcome<()>)
    requires b.Valid()
    modifies b, b.json.buf
    ensures b.Valid() && b.json == old(b.json).(length := b.json.length)
    ensures GoesOn(r, old(Left(b, [PutClose(kind)] + rest)), Left(b, rest), b.Text())
  {
    hide Write, Run;
    RunStep(b.json.capacity, b.Text(), b.needComma, PutClose(kind), rest);
    r := b.AppendClose(kind);
  }

  function OperationOps(list: seq<bytes>): seq<Op> {
    KidsOps(OperationKids(Operations(list)))
  }

  function TagOps(list: seq<Pair>): seq<Op> {
    KidsOps(TagKids(Tags(list)))
  }

  lemma OperationsStep(list: seq<bytes>, i: nat, rest: seq<Op>)
    requires i < |list|
    ensures OperationOps(list[i..]) + rest
         == if list[i] == [] then rest
            else [PutItem(String(list[i]))] + (OperationOps(list[i + 1..]) + rest)
  {
    assert list[i..][1..] == list[i + 1..];
    if list[i] == [] {
      assert [] + rest == rest;
    } else {
      var more := Operations(list[i + 1..]);
      assert ([list[i]] + more)[1..] == more;
      assert OperationKids([list[i]] + more) == Kid(None, Leaf(String(list[i])), OperationKids(more));
      ScalarOps(None, String(list[i]), OperationKids(more));
      OneOp(PutItem(String(list[i])), KidsOps(OperationKids(more)), rest);
    }
  }

  lemma ScalarOps(name: Name, token: Built, more: BuiltKids)
    ensures KidsOps(Kid(name, Leaf(token), more))
         == [if name.Some? then PutMember(name.value, token) else PutItem(token)] + ([] + KidsOps(more))
  {
  }

  lemma OneOp(op: Op, more: seq<Op>, rest: seq<Op>)
    ensures ([op] + ([] + more)) + rest == [op] + (more + rest)
  {
  }

  lemma TagsStep(list: seq<Pair>, i: nat, rest: seq<Op>)
    requires i < |list|
    ensures TagOps(list[i..]) + rest
         == if list[i].key == [] then rest
            else [PutMember(list[i].key, String(list[i].value))] + (TagOps(list[i + 1..]) + rest)
  {
    assert list[i..][1..] == list[i + 1..];
    if list[i].key == [] {
      assert [] + rest == rest;
    } else {
      var more := Tags(list[i + 1..]);
      assert ([list[i]] + more)[1..] == more;
      assert TagKids([list[i]] + more) == Kid(Some(list[i].key), Leaf(String(list[i].value)), TagKids(more));
      ScalarOps(Some(list[i].key), String(list[i].value), TagKids(more));
      OneOp(PutMember(list[i].key, String(list[i].value)), KidsOps(TagKids(more)), rest);
    }
  }

  /** The loop over the operations. */
  method AppendOperations(b: Builder, list: seq<bytes>, ghost rest: seq<Op>) returns (r: Outcome<()>)
    requires b.Valid() && [] in list
    modifies b, b.json.buf
    ensures b.Valid() && b.json == old(b.json).(length := b.json.length)
    ensures GoesOn(r, old(Left(b, OperationOps(list) + rest)), Left(b, rest), b.Text())
  {
    hide Run, OperationOps;
    ghost var start := Left(b, OperationOps(list) + rest);
    var op := 0;
    assert list[0..] == list;
    while true
      invariant op < |list| && [] in list[op..]
      invariant b.Valid() && b.json == old(b.json).(length := b.json.length)
      invariant start == Left(b, OperationOps(list[op..]) + rest)
      decreases |list| - op
    {
      OperationsStep(list, op, rest);
      var s := list[op];
      if s == [] {
        return Success(());
      }
      assert list[op..] == [s] + list[op + 1..];
      r := PutOne(b, String(s), OperationOps(list[op + 1..]) + rest);
      if r.Failure? {
        return;
      }
      op := op + 1;
    }
  }

  lemma NullLater(list: seq<Pair>, i: nat)
    requires i < |list| && HasNull(list[i..]) && list[i].key != []
    ensures i + 1 < |list| && HasNull(list[i + 1..])
  {
    var j :| 0 <= j < |list[i..]| && list[i..][j].key == [];
    assert list[i + 1..][j - 1].key == [];
  }

  /** The loop over the tags. */
  method AppendTags(b: Builder, list: seq<Pair>, ghost rest: seq<Op>) returns (r: Outcome<()>)
    requires b.Valid() && HasNull(list)
    modifies b, b.json.buf
    ensures b.Valid() && b.json == old(b.json).(length := b.json.length)
    ensures GoesOn(r, old(Left(b, TagOps(list) + rest)), Left(b, rest), b.Text())
  {
    hide Run, TagOps;
    ghost var start := Left(b, TagOps(list) + rest);
    var index := 0;
    assert list[0..] == list;
    while true
      invariant index < |list| && HasNull(list[index..])
      invariant b.Valid() && b.json == old(b.json).(length := b.json.length)
      invariant start == Left(b, TagOps(list[index..]) + rest)
      decreases |list| - index
    {
      TagsStep(list, index, rest);
      var tag := list[index];
      if tag.key == [] {
        return Success(());
      }
      NullLater(list, index);
      r := PutNamed(b, tag.key, String(tag.value), TagOps(list[index + 1..]) + rest);
      if r.Failure? {
        return;
      }
      index := index + 1;
    }
  }

  lemma NodeOps(name: bytes, kind: Kind, kids: BuiltKids, more: BuiltKids, rest: seq<Op>)
    ensures KidsOps(Kid(Some(name), Node(kind, kids), more)) + rest
         == [PutMember(name, Container(kind))] + (KidsOps(kids) + ([PutClose(kind)] + (KidsOps(more) + rest)))
  {
    var open, close := [PutMember(name, Container(kind))], [PutClose(kind)];
    assert (open + ((KidsOps(kids) + close) + KidsOps(more))) + rest
        == open + (KidsOps(kids) + (close + (KidsOps(more) + rest)));
  }

  function TagsPartOps(options: Options): seq<Op> {
    KidsOps(TagsPart(options))
  }

  function OperationsPartOps(options: Options): seq<Op> {
    KidsOps(OperationsPart(options))
  }

  function OptionsPartOps(options: Options): seq<Op> {
    KidsOps(OptionsPart(options))
  }

  lemma TagsPartStep(options: Options, rest: seq<Op>)
    ensures TagsPartOps(options) + rest
         == if options.tags.None? then rest
            else [PutMember(TAGS, Container(Object))] + (TagOps(options.tags.value) + ([PutClose(Object)] + rest))
  {
    assert [] + rest == rest;
    if options.tags.Some? {
      NodeOps(TAGS, Object, TagKids(Tags(options.tags.value)), NoKids, rest);
    }
  }

  lemma OperationsPartStep(options: Options, rest: seq<Op>)
    ensures OperationsPartOps(options) + rest
         == (if options.operations.None? then TagsPartOps(options) + rest
             else [PutMember(KEY_OPS, Container(Array))]
                  + (OperationOps(options.operations.value) + ([PutClose(Array)] + (TagsPartOps(options) + rest))))
  {
    if options.operations.Some? {
      NodeOps(KEY_OPS, Array, OperationKids(Operations(options.operations.value)), TagsPart(options), rest);
    }
  }

  lemma OptionsPartStep(options: Options, rest: seq<Op>)
    ensures OptionsPartOps(options) + rest
         == (if options.enabled.None? then OperationsPartOps(options) + rest
             else [PutMember(ATTRIBUTES, Container(Object))]
                  + ([PutMember(ENABLED, Boolean(options.enabled.value))]
                     + ([PutClose(Object)] + (OperationsPartOps(options) + rest))))
  {
    hide KidsOps;
    if options.enabled.Some? {
      var token := Boolean(options.enabled.value);
      NodeOps(ATTRIBUTES, Object, Kid(Some(ENABLED), Leaf(token), NoKids), OperationsPart(options), rest);
      OneMemberOps(ENABLED, token);
    }
  }

  lemma OneMemberOps(name: bytes, token: Built)
    ensures KidsOps(Kid(Some(name), Leaf(token), NoKids)) == [PutMember(name, token)]
  {
    ScalarOps(Some(name), token, NoKids);
  }

  /** The part on the tags. */
  method AppendTagsPart(b: Builder, options: Options, ghost rest: seq<Op>) returns (r: Outcome<()>)
    requires b.Valid() && options.Terminated()
    modifies b, b.json.buf
    ensures b.Valid() && b.json == old(b.json).(length := b.json.length)
    ensures GoesOn(r, old(Left(b, TagsPartOps(options) + rest)), Left(b, rest), b.Text())
  {
    hide Run, TagsPartOps, TagOps;
    TagsPartStep(options, rest);
    if options.tags.None? {
      return Success(());
    }
    var tags := options.tags.value;
    r := PutNamed(b, TAGS, Container(Object), TagOps(tags) + ([PutClose(Object)] + rest));
    if r.Failure? {
      return;
    }
    r := AppendTags(b, tags, [PutClose(Object)] + rest);
    if r.Failure? {
      return;
    }
    r := Close(b, Object, rest);
  }

  /** The part on the operations, and the tags. */
  method AppendOperationsPart(b: Builder, options: Options, ghost rest: seq<Op>) returns (r: Outcome<()>)
    requires b.Valid() && options.Terminated()
    modifies b, b.json.buf
    ensures b.Valid() && b.json == old(b.json).(length := b.json.length)
    ensures GoesOn(r, old(Left(b, OperationsPartOps(options) + rest)), Left(b, rest), b.Text())
  {
    hide Run, OperationsPartOps, TagsPartOps, OperationOps;
    OperationsPartStep(options, rest);
    if options.operations.Some? {
      var list := options.operations.value;
      ghost var more := TagsPartOps(options) + rest;
      r := PutNamed(b, KEY_OPS, Container(Array), OperationOps(list) + ([PutClose(Array)] + more));
      if r.Failure? {
        return;
      }
      r := AppendOperations(b, list, [PutClose(Array)] + more);
      if r.Failure? {
        return;
      }
      r := Close(b, Array, more);
      if r.Failure? {
        return;
      }
    }
    r := AppendTagsPart(b, options, rest);
  }

  /** All options that are present. */
  method AppendOptions(b: Builder, options: Options, ghost rest: seq<Op>) returns (r: Outcome<()>)
    requires b.Valid() && options.Terminated()
    modifies b, b.json.buf
    ensures b.Valid() && b.json == old(b.json).(length := b.json.length)
    ensures GoesOn(r, old(Left(b, OptionsPartOps(options) + rest)), Left(b, rest), b.Text())
  {
    hide Run, OptionsPartOps, OperationsPartOps;
    OptionsPartStep(options, rest);
    if options.enabled.Some? {
      ghost var more := OperationsPartOps(options) + rest;
      var token := Boolean(options.enabled.value);
      r := PutNamed(b, ATTRIBUTES, Container(Object), [PutMember(ENABLED, token)] + ([PutClose(Object)] + more));
      if r.Failure? {
        return;
      }
      r := PutNamed(b, ENABLED, token, [PutClose(Object)] + more);
      if r.Failure? {
        return;
      }
      r := Close(b, Object, more);
      if r.Failure? {
        return;
      }
    }
    r := AppendOperationsPart(b, options, rest);
  }

  function PartOps(options: Option<Options>): seq<Op> {
    if options.Some? then OptionsPartOps(options.value) else []
  }

  lemma BodyOps(kty: bytes, options: Option<Options>)
    ensures TreeOps(Body(kty, options))
         == [PutToken(Container(Object))]
          + ([PutMember(KTY, String(kty))] + (PartOps(options) + [PutClose(Object)]))
  {
    var more := if options.Some? then OptionsPart(options.value) else NoKids;
    ScalarOps(Some(KTY), String(kty), more);
    OneOp(PutMember(KTY, String(kty)), KidsOps(more), [PutClose(Object)]);
  }

  lemma BodyIsPrintable(kty: bytes, options: Option<Options>)
    ensures Printable(Body(kty, options))
  {
    if options.Some? {
      OptionsArePrintable(options.value);
    }
  }

  lemma OptionsArePrintable(options: Options)
    ensures PrintableKids(OptionsPart(options))
  {
    hide Operations, Tags, OperationKids, TagKids;
    if options.tags.Some? {
      TagsArePrintable(Tags(options.tags.value));
    }
    assert PrintableKids(TagsPart(options));
    if options.operations.Some? {
      OperationsArePrintable(Operations(options.operations.value));
    }
    assert PrintableKids(OperationsPart(options));
    if options.enabled.Some? {
      var leaf: BuiltTree := Leaf(Boolean(options.enabled.value));
      assert Printable(leaf) && PrintableKids(NoKids);
      assert PrintableKids(Kid(Some(ENABLED), leaf, NoKids));
    }
  }

  lemma {:induction false} OperationsArePrintable(ops: seq<bytes>)
    ensures PrintableKids(OperationKids(ops))
    decreases |ops|
  {
    if ops != [] {
      OperationsArePrintable(ops[1..]);
    }
  }

  lemma {:induction false} TagsArePrintable(tags: seq<Pair>)
    ensures PrintableKids(TagKids(tags))
    decreases |tags|
  {
    if tags != [] {
      TagsArePrintable(tags[1..]);
    }
  }

  /** All calls on the builder. */
  method AppendBody(b: Builder, kty: bytes, options: Option<Options>) returns (r: Outcome<()>)
    requires b.Valid() && !b.needComma && (options.Some? ==> options.value.Terminated())
    modifies b, b.json.buf
    ensures b.Valid() && b.json == old(b.json).(length := b.json.length)
    ensures (ErrorOf(r), b.Text()) == Run(b.json.capacity, old(b.Text()), false, TreeOps(Body(kty, options)))
  {
    hide Run, Write, TreeOps, OptionsPartOps, Body, CommaAfter;
    BodyOps(kty, options);
    ghost var rest := PartOps(options) + [PutClose(Object)];
    RunStep(b.json.capacity, b.Text(), false, PutToken(Container(Object)), [PutMember(KTY, String(kty))] + rest);
    OpenNeedsNone();
    r := b.AppendToken(Container(Object));
    if r.Failure? {
      return;
    }
    r := PutNamed(b, KTY, String(kty), rest);
    if r.Failure? {
      return;
    }
    if options.Some? {
      r := AppendOptions(b, options.value, [PutClose(Object)]);
      if r.Failure? {
        return;
      }
    }
    assert [] + [PutClose(Object)] == [PutClose(Object)] == [PutClose(Object)] + [];
    r := Close(b, Object, []);
    RunNothing(b.json.capacity, b.Text(), b.needComma);
  }

  lemma OpenNeedsNone()
    ensures !CommaAfter(PutToken(Container(Object)))
  {
  }

  lemma RunNothing(capacity: nat, now: bytes, needComma: bool)
    ensures Run(capacity, now, needComma, []) == (None, now)
  {
  }

  /** `_az_keyvault_keys_key_create_build_json_body`: the compact text of the intended tree
      is appended to the buffer, and the call succeeds exactly when it fits. On failure the
      caller's span keeps its length and its bytes. */
  method BuildJsonBody(kty: bytes, options: Option<Options>, httpBody: Span) returns (r: Outcome<()>, out: Span)
    requires httpBody.Valid() && (options.Some? ==> options.value.Terminated())
    modifies httpBody.buf
    ensures out.Valid() && out == httpBody.(length := out.length)
    ensures r.Success? <==> httpBody.length + |Compact(Body(kty, options))| <= httpBody.capacity
    ensures r.Success? ==> out.Contents() == old(httpBody.Contents()) + Compact(Body(kty, options))
    ensures r.Failure? ==> r.error == BufferOverflow && out.Contents() == old(httpBody.Contents())
  {
    hide Run, Compact, TreeOps, Body, Printable;
    BodyIsPrintable(kty, options);
    TreeIsPrinted(httpBody.capacity, httpBody.Contents(), Body(kty, options));
    var b := new Builder(httpBody);
    r := AppendBody(b, kty, options);
    if r.Failure? {
      assert b.Text()[..httpBody.length] == httpBody.Contents();
      return r, httpBody;
    }
    out := b.json;
  }

  // ---- What a JSON pointer finds in the text ----

  /** The raw texts are string bodies in the sense of section 7 of RFC 8259. */
  predicate WellFormed(kty: bytes, options: Option<Options>) {
    && IsStringBody(kty)
    && (options.Some? ==>
          && (options.value.operations.Some? ==> AllBodies(Operations(options.value.operations.value)))
          && (options.value.tags.Some? ==> AllTags(Tags(options.value.tags.value))))
  }

  predicate AllBodies(ops: seq<bytes>) {
    forall i | 0 <= i < |ops| :: IsStringBody(ops[i])
  }

  predicate AllTags(tags: seq<Pair>) {
    forall i | 0 <= i < |tags| :: IsStringBody(tags[i].key) && IsStringBody(tags[i].value)
  }

  /** A byte that stands for itself in a string. */
  predicate Plain(c: byte) {
    EscEncode(c) == [] && c >= 0x20
  }

  lemma {:induction false} PlainUnits(s: bytes)
    requires forall i | 0 <= i < |s| :: Plain(s[i])
    ensures Escaped(s) == s && IsStringBody(s) && Units(s) == Some(s)
    decreases |s|
  {
    hide EscEncode, Units, IsStringBody;
    if s != [] {
      PlainUnits(s[1..]);
      assert Plain(s[0]);
      assert [s[0]] + s[1..] == s;
    }
    EscapedDecodes(s);
  }

  /** The five names decode to themselves. */
  lemma NameUnits(name: bytes)
    requires IsName(name)
    ensures IsStringBody(name) && Units(name) == Some(name)
  {
    hide Units, IsStringBody, Escaped, IsName;
    Lowercase(name);
    PlainUnits(name);
  }

  predicate IsName(name: bytes) {
    name == KTY || name == ATTRIBUTES || name == ENABLED || name == KEY_OPS || name == TAGS
  }

  lemma Lowercase(name: bytes)
    requires IsName(name)
    ensures forall i | 0 <= i < |name| :: 0x5F <= name[i] <= 0x7A
  {
  }

  lemma {:induction false} OperationsAreReadable(ops: seq<bytes>)
    requires AllBodies(ops)
    ensures ReadableKids(Array, OperationKids(ops)) && KidsDepth(OperationKids(ops)) == 0
    decreases |ops|
  {
    hide IsStringBody;
    if ops != [] {
      OperationsAreReadable(ops[1..]);
    }
  }

  lemma {:induction false} TagsAreReadable(tags: seq<Pair>)
    requires AllTags(tags)
    ensures ReadableKids(Object, TagKids(tags)) && KidsDepth(TagKids(tags)) == 0
    decreases |tags|
  {
    hide IsStringBody;
    if tags != [] {
      TagsAreReadable(tags[1..]);
    }
  }

  lemma AddKid(name: bytes, t: BuiltTree, rest: BuiltKids)
    requires IsStringBody(name) && Readable(t) && TreeDepth(t) <= 1
    requires ReadableKids(Object, rest) && KidsDepth(rest) <= 1
    ensures ReadableKids(Object, Kid(Some(name), t, rest)) && KidsDepth(Kid(Some(name), t, rest)) <= 1
  {
  }

  lemma AddNode(name: bytes, kind: Kind, kids: BuiltKids, rest: BuiltKids)
    requires IsName(name)
    requires ReadableKids(kind, kids) && KidsDepth(kids) == 0
    requires ReadableKids(Object, rest) && KidsDepth(rest) <= 1
    ensures ReadableKids(Object, Kid(Some(name), Node(kind, kids), rest))
    ensures KidsDepth(Kid(Some(name), Node(kind, kids), rest)) <= 1
  {
    NameUnits(name);
    hide IsStringBody;
    var t: BuiltTree := Node(kind, kids);
    assert Readable(t) && TreeDepth(t) == 1;
    AddKid(name, t, rest);
  }

  lemma OptionsAreReadable(kty: bytes, options: Options)
    requires WellFormed(kty, Some(options))
    ensures ReadableKids(Object, OptionsPart(options)) && KidsDepth(OptionsPart(options)) <= 1
  {
    hide IsStringBody, AllBodies, AllTags, ReadableKids, KidsDepth, OperationKids, TagKids, Operations, Tags;
    NoKidsAreReadable(Object);
    if options.tags.Some? {
      var tags := Tags(options.tags.value);
      TagsAreReadable(tags);
      AddNode(TAGS, Object, TagKids(tags), NoKids);
    }
    if options.operations.Some? {
      var ops := Operations(options.operations.value);
      OperationsAreReadable(ops);
      AddNode(KEY_OPS, Array, OperationKids(ops), TagsPart(options));
    }
    if options.enabled.Some? {
      var leaf: BuiltTree := Leaf(Boolean(options.enabled.value));
      LeafIsReadable(ENABLED, leaf);
      AddNode(ATTRIBUTES, Object, Kid(Some(ENABLED), leaf, NoKids), OperationsPart(options));
    }
  }

  lemma NoKidsAreReadable(kind: Kind)
    ensures ReadableKids(kind, NoKids) && KidsDepth(NoKids) == 0
  {
  }

  lemma LeafIsReadable(name: bytes, leaf: BuiltTree)
    requires IsName(name) && leaf.Leaf? && Readable(leaf)
    ensures ReadableKids(Object, Kid(Some(name), leaf, NoKids)) && KidsDepth(Kid(Some(name), leaf, NoKids)) == 0
  {
    NameUnits(name);
    hide IsStringBody;
  }

  lemma BodyIsReadable(kty: bytes, options: Option<Options>)
    requires WellFormed(kty, options)
    ensures Readable(Body(kty, options)) && TreeDepth(Body(kty, options)) <= 2
  {
    hide IsStringBody, OptionsPart, AllBodies, AllTags;
    var more := if options.Some? then OptionsPart(options.value) else NoKids;
    if options.Some? {
      OptionsAreReadable(kty, options.value);
    }
    NameUnits(KTY);
    AddKid(KTY, Leaf(String(kty)), more);
  }

  /** A pointer lookup in the text of the body follows the tokens in the intended tree. */
  lemma BodyLookup(kty: bytes, options: Option<Options>, path: seq<bytes>)
    requires WellFormed(kty, options)
    ensures ParseByPointer(Compact(Body(kty, options)), Join(path))
         == TokenOfOutcome(PathLookup(Parsed(Body(kty, options)), path))
  {
    hide WellFormed, Body, Compact, ParseByPointer, PathLookup, Join;
    BodyIsReadable(kty, options);
    CompactLookup(Body(kty, options), path);
  }

  lemma CompactLookup(t: BuiltTree, path: seq<bytes>)
    requires Readable(t) && TreeDepth(t) <= MAX_DEPTH
    ensures ParseByPointer(Compact(t), Join(path)) == TokenOfOutcome(PathLookup(Parsed(t), path))
  {
    hide Readable, TreeDepth, Compact, ParseByPointer, PathLookup, Join, Text, WF, TreeOf, Depth;
    JsonOfTree(t, []);
    assert Compact(t) + [] == Compact(t);
    assert [] + Compact(t) == Compact(t);
    LookupFollowsPath(Doc([], JsonOf(t), []), path);
  }

  lemma NamedKid(name: bytes, t: BuiltTree, rest: BuiltKids, key: bytes)
    requires Units(name) == Some(name)
    ensures FirstNamed(ParsedKids(Kid(Some(name), t, rest)), key)
         == if name == key then Some(Parsed(t)) else FirstNamed(ParsedKids(rest), key)
  {
    hide Units, Parsed;
  }

  /** The value of the first tag whose key decodes to `key`. */
  function TagValue(tags: seq<Pair>, key: bytes): Option<bytes> {
    if tags == [] then None
    else if Units(tags[0].key) == Some(key) then Some(tags[0].value)
    else TagValue(tags[1..], key)
  }

  function StringLeaf(text: bytes): Tree<Dec> {
    Leaf(String(text))
  }

  lemma {:induction false} NthOperation(ops: seq<bytes>, i: nat)
    ensures Nth(ParsedKids(OperationKids(ops)), i) == if i < |ops| then Some(StringLeaf(ops[i])) else None
    decreases |ops|
  {
    if ops != [] && i > 0 {
      NthOperation(ops[1..], i - 1);
    }
  }

  lemma {:induction false} FirstTag(tags: seq<Pair>, key: bytes)
    ensures FirstNamed(ParsedKids(TagKids(tags)), key)
         == match TagValue(tags, key) case None => None case Some(v) => Some(StringLeaf(v))
    decreases |tags|
  {
    hide Units;
    if tags != [] {
      FirstTag(tags[1..], key);
    }
  }

  function EnabledKids(b: bool): BuiltKids {
    Kid(Some(ENABLED), Leaf(Boolean(b)), NoKids)
  }

  /** What the object holds under a name, besides the key type. */
  function OptionMember(options: Options, name: bytes): Option<Tree<Dec>> {
    if name == ATTRIBUTES && options.enabled.Some? then
      Some(Parsed(Node(Object, EnabledKids(options.enabled.value))))
    else if name == KEY_OPS && options.operations.Some? then
      Some(Parsed(Node(Array, OperationKids(Operations(options.operations.value)))))
    else if name == TAGS && options.tags.Some? then
      Some(Parsed(Node(Object, TagKids(Tags(options.tags.value)))))
    else None
  }

  function BodyMember(kty: bytes, options: Option<Options>, name: bytes): Option<Tree<Dec>> {
    if name == KTY then Some(StringLeaf(kty))
    else if options.Some? then OptionMember(options.value, name)
    else None
  }

  lemma NoneNamed(key: bytes)
    ensures FirstNamed(ParsedKids(NoKids), key) == None
  {
  }

  lemma OptionNamed(options: Options, name: bytes)
    ensures FirstNamed(ParsedKids(OptionsPart(options)), name) == OptionMember(options, name)
  {
    hide Units, IsStringBody, Parsed, ParsedKids, FirstNamed, OperationKids, TagKids, Operations, Tags;
    NoneNamed(name);
    NameUnits(ATTRIBUTES);
    NameUnits(KEY_OPS);
    NameUnits(TAGS);
    NamesDiffer();
    if options.tags.Some? {
      NamedKid(TAGS, Node(Object, TagKids(Tags(options.tags.value))), NoKids, name);
    }
    if options.operations.Some? {
      NamedKid(KEY_OPS, Node(Array, OperationKids(Operations(options.operations.value))), TagsPart(options), name);
    }
    if options.enabled.Some? {
      NamedKid(ATTRIBUTES, Node(Object, EnabledKids(options.enabled.value)), OperationsPart(options), name);
    }
  }

  lemma NamesDiffer()
    ensures |KTY| == 3 && |TAGS| == 4 && |KEY_OPS| == 7 && |ATTRIBUTES| == 10
  {
  }

  /** The member of the intended object under any name. */
  lemma BodyNamed(kty: bytes, options: Option<Options>, name: bytes)
    ensures FirstNamed(ParsedKids(Body(kty, options).kids), name) == BodyMember(kty, options, name)
  {
    hide Units, IsStringBody, FirstNamed, OptionMember, OptionsPart;
    NameUnits(KTY);
    var more := if options.Some? then OptionsPart(options.value) else NoKids;
    NoneNamed(name);
    if options.Some? {
      OptionNamed(options.value, name);
    }
    NamedKid(KTY, Leaf(String(kty)), more, name);
  }

  lemma TwoSteps(t: Tree<Dec>, a: bytes, b: bytes)
    ensures PathLookup(t, [a, b])
         == match JsonLookup.Follows(t, a)
            case Failure(e) => Failure(e)
            case Success(c) => JsonLookup.Follows(c, b)
  {
    hide JsonLookup.Follows;
    assert [a, b][1..] == [b];
    if JsonLookup.Follows(t, a).Success? {
      OneStep(JsonLookup.Follows(t, a).value, b);
    }
  }

  lemma OneStep(t: Tree<Dec>, a: bytes)
    ensures PathLookup(t, [a]) == JsonLookup.Follows(t, a)
  {
    hide JsonLookup.Follows;
    assert [a][1..] == [];
  }

  // ---- The pointers, spelled out ----

  lemma NamesSpelled()
    ensures KTY == Ascii("kty") && TAGS == Ascii("tags") && KEY_OPS == Ascii("key_ops")
    ensures ATTRIBUTES == Ascii("attributes") && ENABLED == Ascii("enabled")
  {
  }

  lemma {:induction false} LowercaseEscapes(s: bytes)
    requires forall i | 0 <= i < |s| :: 0x5F <= s[i] <= 0x7A
    ensures Escape(s) == s
    decreases |s|
  {
    if s != [] {
      LowercaseEscapes(s[1..]);
      assert [s[0]] + s[1..] == s;
    }
  }

  lemma OneToken(name: bytes)
    ensures Join([name]) == [SLASH] + Escape(name)
  {
    hide Escape;
    assert [name][1..] == [];
    assert Escape(name) + [] == Escape(name);
  }

  lemma TwoTokens(name: bytes, token: bytes)
    requires IsName(name)
    ensures Join([name, token]) == ([SLASH] + (name + [SLASH])) + Escape(token)
  {
    hide Escape, IsName;
    Lowercase(name);
    LowercaseEscapes(name);
    OneToken(token);
    assert [name, token][1..] == [token];
    assert [SLASH] + (name + ([SLASH] + Escape(token))) == ([SLASH] + (name + [SLASH])) + Escape(token);
  }

  lemma KtyPointer()
    ensures Ascii("/kty") == Join([KTY])
  {
    OneToken(KTY);
    LowercaseEscapes(KTY);
  }

  lemma EnabledPointer()
    ensures Ascii("/attributes/enabled") == Join([ATTRIBUTES, ENABLED])
  {
    hide Ascii, Join, Escape;
    TwoTokens(ATTRIBUTES, ENABLED);
    EnabledText();
    LowercaseEscapes(ENABLED);
  }

  lemma EnabledText()
    ensures Ascii("/attributes/enabled") == ([SLASH] + (ATTRIBUTES + [SLASH])) + ENABLED
  {
  }

  lemma OperationPointer(i: uint64)
    ensures Ascii("/key_ops/") + Digits(i) == Join([KEY_OPS, Digits(i)])
  {
    hide Digits;
    TwoTokens(KEY_OPS, Digits(i));
    DigitsDenote(i);
    EscapeDigits(Digits(i));
    OperationPrefix();
  }

  lemma OperationPrefix()
    ensures Ascii("/key_ops/") == [SLASH] + (KEY_OPS + [SLASH])
  {
  }

  lemma TagPointer(key: bytes)
    ensures Ascii("/tags/") + Escape(key) == Join([TAGS, key])
  {
    hide Escape;
    TwoTokens(TAGS, key);
    TagPrefix();
  }

  lemma TagPrefix()
    ensures Ascii("/tags/") == [SLASH] + (TAGS + [SLASH])
  {
  }

  // ---- What is found ----

  /** A lookup of one token in the body. */
  lemma BodyStep(kty: bytes, options: Option<Options>, name: bytes)
    requires WellFormed(kty, options)
    ensures ParseByPointer(Compact(Body(kty, options)), Join([name]))
         == TokenOfOutcome(OrNotFound(BodyMember(kty, options, name)))
  {
    hide WellFormed, Compact, ParseByPointer, Join, PathLookup, FirstNamed, BodyMember;
    BodyLookup(kty, options, [name]);
    OneStep(Parsed(Body(kty, options)), name);
    BodyNamed(kty, options, name);
  }

  /** One more step. */
  function Below(t: Option<Tree<Dec>>, token: bytes): Outcome<Token<Dec>> {
    if t.None? then Failure(ItemNotFound) else TokenOfOutcome(JsonLookup.Follows(t.value, token))
  }

  /** A lookup of two tokens. */
  lemma BodySteps(kty: bytes, options: Option<Options>, name: bytes, token: bytes)
    requires WellFormed(kty, options)
    ensures ParseByPointer(Compact(Body(kty, options)), Join([name, token]))
         == Below(BodyMember(kty, options, name), token)
  {
    hide WellFormed, Compact, ParseByPointer, Join, PathLookup, FirstNamed, BodyMember;
    BodyLookup(kty, options, [name, token]);
    TwoSteps(Parsed(Body(kty, options)), name, token);
    BodyNamed(kty, options, name);
  }

  /** "/kty" looks up to the key type. */
  lemma KeyTypeFound(kty: bytes, options: Option<Options>)
    requires WellFormed(kty, options)
    ensures ParseByPointer(Compact(Body(kty, options)), Ascii("/kty")) == Success(String(kty))
  {
    hide WellFormed, Compact, ParseByPointer, Join, Ascii;
    KtyPointer();
    BodyStep(kty, options, KTY);
  }

  /** "/attributes/enabled" looks up to the setting, if there is one. */
  lemma EnabledFound(kty: bytes, options: Options)
    requires WellFormed(kty, Some(options))
    ensures ParseByPointer(Compact(Body(kty, Some(options))), Ascii("/attributes/enabled"))
         == match options.enabled
            case None => Failure(ItemNotFound)
            case Some(b) => Success(Boolean(b))
  {
    hide WellFormed, Compact, ParseByPointer, Join, Ascii, Units, FirstNamed;
    EnabledPointer();
    BodySteps(kty, Some(options), ATTRIBUTES, ENABLED);
    NamesDiffer();
    if options.enabled.Some? {
      NameUnits(ENABLED);
      NamedKid(ENABLED, Leaf(Boolean(options.enabled.value)), NoKids, ENABLED);
    }
  }

  /** "/key_ops/i" looks up to the i-th operation, and past the last one, or without
      operations, to nothing. */
  lemma OperationFound(kty: bytes, options: Options, i: uint64)
    requires WellFormed(kty, Some(options))
    ensures ParseByPointer(Compact(Body(kty, Some(options))), Ascii("/key_ops/") + Digits(i))
         == match options.operations
            case None => Failure(ItemNotFound)
            case Some(list) => if i < |Operations(list)| then Success(String(Operations(list)[i])) else Failure(ItemNotFound)
  {
    hide WellFormed, Compact, ParseByPointer, Join, Digits, ToUint64, Nth, Operations, OperationKids, Ascii;
    OperationPointer(i);
    BodySteps(kty, Some(options), KEY_OPS, Digits(i));
    NamesDiffer();
    if options.operations.Some? {
      Uint64RoundTrip(i);
      NthOperation(Operations(options.operations.value), i);
    }
  }

  /** "/tags/key" looks up to the value of the first tag with that key, if there is one. */
  lemma TagFound(kty: bytes, options: Options, key: bytes)
    requires WellFormed(kty, Some(options))
    ensures ParseByPointer(Compact(Body(kty, Some(options))), Ascii("/tags/") + Escape(key))
         == match options.tags
            case None => Failure(ItemNotFound)
            case Some(list) =>
              match TagValue(Tags(list), key)
              case None => Failure(ItemNotFound)
              case Some(value) => Success(String(value))
  {
    hide WellFormed, Compact, ParseByPointer, Join, Escape, FirstNamed, Tags, TagKids, TagValue, Ascii;
    TagPointer(key);
    BodySteps(kty, Some(options), TAGS, key);
    NamesDiffer();
    if options.tags.Some? {
      FirstTag(Tags(options.tags.value), key);
    }
  }

  /** The first tag whose key decodes to `key`, by its index. */
  lemma {:induction false} TagValueExactly(tags: seq<Pair>, key: bytes) returns (i: nat)
    ensures match TagValue(tags, key)
      case None => forall j | 0 <= j < |tags| :: Units(tags[j].key) != Some(key)
      case Some(v) =>
        && i < |tags| && Units(tags[i].key) == Some(key) && tags[i].value == v
        && forall j | 0 <= j < i :: Units(tags[j].key) != Some(key)
    decreases |tags|
  {
    hide Units;
    i := 0;
    if tags != [] && Units(tags[0].key) != Some(key) {
      i := TagValueExactly(tags[1..], key);
      i := i + 1;
      assert forall j | 0 < j < |tags| :: tags[j] == tags[1..][j - 1];
    }
  }

  /** A single token finds exactly the members that the options name, and in each its kind
      of value. */
  lemma MemberFound(kty: bytes, options: Option<Options>, name: bytes)
    requires WellFormed(kty, options)
    ensures ParseByPointer(Compact(Body(kty, options)), Join([name]))
         == if name == Ascii("kty") then Success(String(kty))
            else if options.None? then Failure(ItemNotFound)
            else if name == Ascii("attributes") && options.value.enabled.Some? then Success(Container(Object))
            else if name == Ascii("key_ops") && options.value.operations.Some? then Success(Container(Array))
            else if name == Ascii("tags") && options.value.tags.Some? then Success(Container(Object))
            else Failure(ItemNotFound)
  {
    hide WellFormed, Compact, ParseByPointer, Join, Ascii, OperationKids, TagKids, Operations, Tags;
    NamesSpelled();
    NamesDiffer();
    BodyStep(kty, options, name);
  }

  // ---- The members of the two fixed objects, in order ----

  function NamesOf(kids: Kids<Dec>): seq<Name> {
    if kids.NoKids? then [] else [kids.name] + NamesOf(kids.rest)
  }

  lemma OneMore(name: bytes, t: BuiltTree, rest: BuiltKids)
    ensures NamesOf(ParsedKids(Kid(Some(name), t, rest))) == [Some(name)] + NamesOf(ParsedKids(rest))
  {
  }

  function Present(b: bool, name: bytes): seq<Name> {
    if b then [Some(name)] else []
  }

  lemma TagsNames(options: Options)
    ensures NamesOf(ParsedKids(TagsPart(options))) == Present(options.tags.Some?, TAGS)
  {
    hide TagKids, Tags;
    if options.tags.Some? {
      OneMore(TAGS, Node(Object, TagKids(Tags(options.tags.value))), NoKids);
    }
  }

  lemma OperationsNames(options: Options)
    ensures NamesOf(ParsedKids(OperationsPart(options)))
         == Present(options.operations.Some?, KEY_OPS) + NamesOf(ParsedKids(TagsPart(options)))
  {
    hide OperationKids, Operations, TagsPart, NamesOf, ParsedKids;
    if options.operations.Some? {
      OneMore(KEY_OPS, Node(Array, OperationKids(Operations(options.operations.value))), TagsPart(options));
    }
  }

  lemma OptionsNames(options: Options)
    ensures NamesOf(ParsedKids(OptionsPart(options)))
         == Present(options.enabled.Some?, ATTRIBUTES) + NamesOf(ParsedKids(OperationsPart(options)))
  {
    hide OperationsPart, NamesOf, ParsedKids;
    if options.enabled.Some? {
      OneMore(ATTRIBUTES, Node(Object, EnabledKids(options.enabled.value)), OperationsPart(options));
    }
  }

  function OptionNames(options: Options): seq<Name> {
    Present(options.enabled.Some?, Ascii("attributes"))
    + (Present(options.operations.Some?, Ascii("key_ops")) + Present(options.tags.Some?, Ascii("tags")))
  }

  /** The body is an object with the key type first and then the members that the options
      name, each once and in this order. */
  lemma BodyMembers(kty: bytes, options: Option<Options>)
    requires WellFormed(kty, options)
    ensures var w := WalkDocument(Compact(Body(kty, options)));
      && w.Ok? && w.value.Node? && w.value.kind == Object
      && NamesOf(w.value.kids) == [Some(Ascii("kty"))] + if options.Some? then OptionNames(options.value) else []
  {
    BodyIsReadable(kty, options);
    PrintThenParse(Body(kty, options));
    hide WalkDocument, Compact, Ascii, WellFormed, OptionsPart, ParsedKids, NamesOf;
    NamesSpelled();
    NoNames();
    if options.Some? {
      TagsNames(options.value);
      OperationsNames(options.value);
      OptionsNames(options.value);
      OneMore(KTY, Leaf(String(kty)), OptionsPart(options.value));
    } else {
      OneMore(KTY, Leaf(String(kty)), NoKids);
    }
  }

  lemma NoNames()
    ensures NamesOf(ParsedKids(NoKids)) == []
  {
  }

  /** The attributes hold the setting and nothing else. */
  lemma AttributesMembers(kty: bytes, options: Options, name: bytes)
    requires WellFormed(kty, Some(options)) && options.enabled.Some?
    ensures ParseByPointer(Compact(Body(kty, Some(options))), Join([Ascii("attributes"), name]))
         == if name == Ascii("enabled") then Success(Boolean(options.enabled.value)) else Failure(ItemNotFound)
  {
    hide WellFormed, Compact, ParseByPointer, Join, Ascii, Units, FirstNamed;
    NamesSpelled();
    NamesDiffer();
    BodySteps(kty, Some(options), ATTRIBUTES, name);
    NameUnits(ENABLED);
    NoneNamed(name);
    NamedKid(ENABLED, Leaf(Boolean(options.enabled.value)), NoKids, name);
  }
}
