/** The URL of a request, built in place: paths are spliced in before the query,
    parameters are appended (sdk/core/core/src/az_http_request.c, lines 15-108). */
module HttpRequest {
  import opened Basics
  import opened Separated
  import opened Spans

  const QUESTION: byte := 0x3F

  lemma Spelled()
    ensures [QUESTION, SLASH, AMP, EQUALS] == Ascii("?/&=")
  {
  }

  // ---- The URL and the index kept with it, as values ----

  datatype Url = Url(text: bytes, queryStart: nat)

  /** The index of the first '?', or the length when there is none. */
  function QueryAt(text: bytes): (q: nat)
    ensures q <= |text|
  {
    IndexOf(text, QUESTION)
  }

  /** `az_http_request_init`: the index of '?', 0 when there is none. */
  function Initial(text: bytes): Url {
    Url(text, if QueryAt(text) == |text| then 0 else QueryAt(text))
  }

  predicate WF(u: Url) {
    u.queryStart <= |u.text|
  }

  /** Where `az_http_request_append_path` inserts. */
  function InsertAt(u: Url): (at: nat)
    requires WF(u)
    ensures at <= |u.text|
  {
    if u.queryStart > 0 then u.queryStart - 1 else |u.text|
  }

  function Insert(text: bytes, at: nat, x: bytes): (r: bytes)
    requires at <= |text|
    ensures |r| == |text| + |x|
  {
    text[..at] + x + text[at..]
  }

  function AddPath(u: Url, path: bytes): (v: Url)
    requires WF(u)
    ensures WF(v)
  {
    Url(Insert(u.text, InsertAt(u), [SLASH] + path),
        if u.queryStart > 0 then u.queryStart + 1 + |path| else 0)
  }

  function AddParameter(u: Url, name: bytes, value: bytes): (v: Url)
    requires WF(u)
    ensures WF(v)
  {
    Url(u.text + [if u.queryStart == 0 then QUESTION else AMP] + name + [EQUALS] + value,
        if u.queryStart == 0 then |u.text| + 1 else u.queryStart)
  }

  // ---- The methods ----

  /** `_az_scan_until`: the first index whose byte satisfies the predicate. */
  method ScanUntil(self: bytes, stop: byte -> bool) returns (r: Outcome<nat>)
    ensures r.Success? <==> exists i | 0 <= i < |self| :: stop(self[i])
    ensures r.Success? ==> r.value < |self| && stop(self[r.value]) && forall i | 0 <= i < r.value :: !stop(self[i])
    ensures r.Failure? ==> r.error == ItemNotFound
  {
    for index := 0 to |self|
      invariant forall i | 0 <= i < index :: !stop(self[i])
    {
      if stop(self[index]) {
        return Success(index);
      }
    }
    return Failure(ItemNotFound);
  }

  /** The two replacements of `az_http_request_append_path`. */
  method InsertPath(self: Span, at: nat, path: bytes) returns (r: Outcome<()>, out: Span)
    requires self.Valid() && at <= self.length
    modifies self.buf
    ensures out.Valid() && out == self.(length := out.length) && self.length <= out.length
    ensures r.Success? <==> self.length + 1 + |path| <= self.capacity
    ensures r.Failure? ==> r.error == Arg
    ensures out.Contents() == (if r.Success? then Insert(old(self.Contents()), at, [SLASH] + path)
                               else if self.length < self.capacity then Insert(old(self.Contents()), at, [SLASH])
                               else old(self.Contents()))
  {
    hide Insert;
    ghost var c := self.Contents();
    InsertSplices(c, at, [SLASH]);
    out := self;
    var s := Replace(out, at, at, [SLASH]);
    if s.Failure? {
      return Failure(s.error), out;
    }
    out := s.value;
    InsertSplices(out.Contents(), at + 1, path);
    InsertTwice(c, at, [SLASH], path);
    s := Replace(out, at + 1, at + 1, path);
    if s.Failure? {
      return Failure(s.error), out;
    }
    return Success(()), s.value;
  }

  class Request {
    var url: Span
    var queryStart: nat

    ghost predicate Valid()
      reads this
    {
      url.Valid() && queryStart <= url.length
    }

    ghost function Abs(): (u: Url)
      requires Valid()
      reads this, url.buf
      ensures WF(u)
    {
      Url(url.Contents(), queryStart)
    }

    constructor (url: Span)
      requires url.Valid()
      ensures Valid() && this.url == url && Abs() == Initial(url.Contents())
    {
      var content := url.buf[url.ptr..url.ptr + url.length];
      var q := ScanUntil(content, b => b == QUESTION);
      this.url := url;
      this.queryStart := if q.Success? then q.value else 0;
    }

    /** Same buffer, same window. */
    twostate predicate SameWindow()
      reads this
    {
      url == old(url).(length := url.length)
    }

    /** On success the path is in place and the index has moved with the query. On failure
        either nothing has changed or only the slash has been inserted. */
    method AppendPath(path: bytes) returns (r: Outcome<()>)
      requires Valid()
      modifies this, url.buf
      ensures Valid() && SameWindow()
      ensures r.Success? <==> old(url.length) + 1 + |path| <= url.capacity
      ensures r.Success? ==> Abs() == AddPath(old(Abs()), path)
      ensures r.Failure? ==> r.error == Arg
      ensures r.Failure? ==> Abs() == (if old(url.length) < url.capacity
                                       then Url(Insert(old(Abs()).text, InsertAt(old(Abs())), [SLASH]), old(queryStart))
                                       else old(Abs()))
    {
      var hasQuery := queryStart > 0;
      var at: nat := if hasQuery then queryStart - 1 else url.length;
      var out;
      r, out := InsertPath(url, at, path);
      url := out;
      if r.Success? && hasQuery {
        queryStart := at + 1 + |path| + 1;
      }
    }

    /** On overflow a proper prefix of the parameter has been appended; once the separator is
        there the index is that of the complete parameter. */
    method SetQueryParameter(name: bytes, value: bytes) returns (r: Outcome<()>)
      requires Valid()
      modifies this, url.buf
      ensures Valid() && SameWindow()
      ensures r.Success?
        <==> name != [] && value != [] && old(url.length) + 2 + |name| + |value| <= url.capacity
      ensures r.Success? ==> Abs() == AddParameter(old(Abs()), name, value)
      ensures r.Failure? && (name == [] || value == []) ==> r.error == Arg && Abs() == old(Abs())
      ensures r.Failure? && name != [] && value != [] ==>
        r.error == BufferOverflow && old(Abs()).text <= Abs().text < AddParameter(old(Abs()), name, value).text
      ensures r.Failure? && name != [] && value != [] ==>
        if old(url.length) == url.capacity then Abs() == old(Abs())
        else queryStart == AddParameter(old(Abs()), name, value).queryStart
    {
      hide WriteAll, Concat;
      if !(|name| > 0 && |value| > 0) {
        return Failure(Arg);
      }
      var sep := if queryStart == 0 then QUESTION else AMP;
      ParameterChunks(url.capacity, url.Contents(), sep, name, value);
      var out;
      r, out := AppendOne(url, [sep], [name, [EQUALS], value]);
      url := out;
      if r.Failure? {
        return;
      }
      if queryStart == 0 {
        queryStart := url.length;
      }
      r, out := AppendNameValue(url, name, value);
      url := out;
    }
  }

  /** The last three appends of a parameter. */
  method AppendNameValue(self: Span, name: bytes, value: bytes) returns (r: Outcome<()>, out: Span)
    requires self.Valid()
    modifies self.buf
    ensures out.Valid() && out == self.(length := out.length) && self.length <= out.length
    ensures WriteAll(self.capacity, old(self.Contents()), [name, [EQUALS], value]) == (r.Success?, out.Contents())
    ensures r.Failure? ==> r.error == BufferOverflow
  {
    hide WriteAll;
    assert [name, [EQUALS], value] == [name] + [[EQUALS], value];
    assert [[EQUALS], value] == [[EQUALS]] + [value];
    assert [value] == [value] + [];
    r, out := AppendOne(self, name, [[EQUALS], value]);
    if r.Failure? {
      return;
    }
    r, out := AppendOne(out, [EQUALS], [value]);
    if r.Failure? {
      return;
    }
    r, out := AppendOne(out, value, []);
    WriteNothing(self.capacity, out.Contents());
  }

  /** What the four appends of a parameter write. */
  lemma ParameterChunks(capacity: nat, c: bytes, sep: byte, name: bytes, value: bytes)
    requires |c| <= capacity
    ensures var chunks := [[sep]] + [name, [EQUALS], value];
      var whole := c + [sep] + name + [EQUALS] + value;
      var (ok, out) := WriteAll(capacity, c, chunks);
      && (ok <==> |whole| <= capacity)
      && (ok ==> out == whole)
      && (!ok ==> c <= out < whole)
  {
    var chunks := [[sep]] + [name, [EQUALS], value];
    assert chunks[1..] == [name, [EQUALS], value];
    ConcatThree(name, [EQUALS], value);
    assert c + ([sep] + (name + ([EQUALS] + value))) == c + [sep] + name + [EQUALS] + value;
    WriteAllExactly(capacity, c, chunks);
  }

  lemma ConcatThree(x: bytes, y: bytes, z: bytes)
    ensures Concat([x, y, z]) == x + (y + z)
  {
    ConcatOne(z);
    assert [y, z][1..] == [z];
    assert Concat([y, z]) == y + z;
    assert [x, y, z][1..] == [y, z];
  }

  lemma InsertSplices(c: bytes, at: nat, x: bytes)
    requires at <= |c|
    ensures Insert(c, at, x) == c[..at] + x + c[at..]
  {
  }

  lemma InsertTwice(c: bytes, at: nat, x: bytes, y: bytes)
    requires at <= |c|
    ensures Insert(Insert(c, at, x), at + |x|, y) == Insert(c, at, x + y)
  {
    var d := Insert(c, at, x);
    assert d[..at + |x|] == c[..at] + x && d[at + |x|..] == c[at..];
  }

  // ---- Every sequence of calls ----

  datatype Call = Path(path: bytes) | Parameter(name: bytes, value: bytes)

  function Apply(u: Url, calls: seq<Call>): (v: Url)
    requires WF(u)
    ensures WF(v)
    decreases |calls|
  {
    if calls == [] then u
    else match calls[0]
      case Path(p) => Apply(AddPath(u, p), calls[1..])
      case Parameter(n, v) => Apply(AddParameter(u, n, v), calls[1..])
  }

  /** The paths of the calls, in call order, each with its slash. */
  function Paths(calls: seq<Call>): bytes {
    if calls == [] then []
    else if calls[0].Path? then [SLASH] + calls[0].path + Paths(calls[1..])
    else Paths(calls[1..])
  }

  /** The parameters of the calls, in call order; `sep` comes before the first one. */
  function Parameters(calls: seq<Call>, sep: byte): bytes {
    if calls == [] then []
    else match calls[0]
      case Path(_) => Parameters(calls[1..], sep)
      case Parameter(n, v) => ParameterText(sep, n, v) + Parameters(calls[1..], AMP)
  }

  predicate NoParameters(calls: seq<Call>) {
    forall i | 0 <= i < |calls| :: calls[i].Path?
  }

  /** A URL of two parts, the query part possibly still empty. */
  function Parts(front: bytes, query: bytes): Url {
    Url(front + query, if query == [] then 0 else |front| + 1)
  }

  lemma AddPathToParts(front: bytes, query: bytes, path: bytes)
    ensures WF(Parts(front, query))
    ensures AddPath(Parts(front, query), path) == Parts(front + ([SLASH] + path), query)
  {
    var u := Parts(front, query);
    var q := InsertAt(u);
    assert u.text[..q] == front && u.text[q..] == query;
  }

  /** The text of one parameter. */
  function ParameterText(sep: byte, n: bytes, v: bytes): (r: bytes)
    ensures r != []
  {
    [sep] + n + [EQUALS] + v
  }

  function Separator(query: bytes): byte {
    if query == [] then QUESTION else AMP
  }

  lemma AddParameterToParts(front: bytes, query: bytes, n: bytes, v: bytes)
    ensures WF(Parts(front, query))
    ensures AddParameter(Parts(front, query), n, v) == Parts(front, query + ParameterText(Separator(query), n, v))
  {
    var sep := Separator(query);
    assert front + query + [sep] + n + [EQUALS] + v == front + (query + ParameterText(sep, n, v));
  }

  lemma {:induction false} ApplyToParts(front: bytes, query: bytes, calls: seq<Call>)
    ensures WF(Parts(front, query))
    ensures Apply(Parts(front, query), calls)
         == Parts(front + Paths(calls), query + Parameters(calls, Separator(query)))
    decreases |calls|
  {
    hide AddPath, AddParameter, Parts, ParameterText;
    AddPathToParts(front, query, []);
    if calls == [] {
      assert front + [] == front && query + [] == query;
    } else {
      var rest := calls[1..];
      match calls[0]
      case Path(p) =>
        AddPathToParts(front, query, p);
        ApplyToParts(front + ([SLASH] + p), query, rest);
        assert (front + ([SLASH] + p)) + Paths(rest) == front + Paths(calls);
      case Parameter(n, v) =>
        var more := ParameterText(Separator(query), n, v);
        AddParameterToParts(front, query, n, v);
        ApplyToParts(front, query + more, rest);
        assert Paths(calls) == Paths(rest);
        assert (query + more) + Parameters(rest, AMP) == query + (more + Parameters(rest, AMP));
    }
  }

  lemma {:induction false} NoQueryExactly(calls: seq<Call>, sep: byte)
    ensures Parameters(calls, sep) == [] <==> NoParameters(calls)
    decreases |calls|
  {
    if calls != [] {
      NoQueryExactly(calls[1..], sep);
      assert calls == [calls[0]] + calls[1..];
    }
  }

  /** From a URL without '?', whatever the order of the calls: the paths in call order,
      then the parameters in call order; the index is 0 as long as there is no parameter and
      otherwise one past the '?'. */
  lemma UrlInterleaving(start: bytes, calls: seq<Call>)
    requires QUESTION !in start
    ensures WF(Initial(start))
    ensures var u := Apply(Initial(start), calls);
      && u.text == start + Paths(calls) + Parameters(calls, QUESTION)
      && u.queryStart == if NoParameters(calls) then 0 else |start + Paths(calls)| + 1
    ensures !NoParameters(calls) ==> Parameters(calls, QUESTION)[0] == QUESTION
  {
    assert QueryAt(start) == |start|;
    assert start + [] == start;
    assert Initial(start) == Parts(start, []);
    ApplyToParts(start, [], calls);
    NoQueryExactly(calls, QUESTION);
    FirstSeparator(calls, QUESTION);
    assert [] + Parameters(calls, QUESTION) == Parameters(calls, QUESTION);
  }

  lemma {:induction false} FirstSeparator(calls: seq<Call>, sep: byte)
    ensures Parameters(calls, sep) != [] ==> Parameters(calls, sep)[0] == sep
    decreases |calls|
  {
    if calls != [] {
      FirstSeparator(calls[1..], sep);
    }
  }

  // ---- Reading the URL back: section 3 of RFC 3986 ----

  function PathList(calls: seq<Call>): seq<bytes> {
    if calls == [] then []
    else if calls[0].Path? then [calls[0].path] + PathList(calls[1..])
    else PathList(calls[1..])
  }

  function ParameterList(calls: seq<Call>): seq<FormField> {
    if calls == [] then []
    else match calls[0]
      case Path(_) => ParameterList(calls[1..])
      case Parameter(n, v) => [FormField(n, v)] + ParameterList(calls[1..])
  }

  /** No argument contains a separator that would be taken for one of the URL. */
  predicate Separable(calls: seq<Call>) {
    forall i | 0 <= i < |calls| :: SeparableCall(calls[i])
  }

  predicate SeparableCall(call: Call) {
    match call
    case Path(p) => 0x2F !in p && 0x3F !in p
    case Parameter(n, v) => 0x3D !in n && 0x26 !in n && 0x26 !in v
  }

  lemma SeparableRest(calls: seq<Call>)
    requires Separable(calls) && calls != []
    ensures SeparableCall(calls[0]) && Separable(calls[1..])
  {
  }

  lemma {:induction false} PathsStart(calls: seq<Call>)
    ensures Paths(calls) != [] ==> Paths(calls)[0] == SLASH
    decreases |calls|
  {
    if calls != [] {
      PathsStart(calls[1..]);
    }
  }

  lemma {:induction false} PathsSplit(calls: seq<Call>)
    requires Separable(calls)
    ensures Split(Paths(calls), SLASH) == [[]] + PathList(calls)
    decreases |calls|
  {
    hide Split, Separable, SeparableCall;
    if calls == [] {
      SplitLast([], SLASH);
    } else {
      SeparableRest(calls);
      PathsSplit(calls[1..]);
      PathsStart(calls[1..]);
      if calls[0].Path? {
        PathSplits(calls[0].path, Paths(calls[1..]), PathList(calls[1..]));
      }
    }
  }

  lemma PathSplits(p: bytes, rest: bytes, pieces: seq<bytes>)
    requires SeparableCall(Path(p)) && (rest == [] || rest[0] == SLASH)
    requires Split(rest, SLASH) == [[]] + pieces
    ensures Split([SLASH] + p + rest, SLASH) == [[]] + ([p] + pieces)
  {
    hide Split;
    SplitFirst([], SLASH, p + rest);
    assert [] + ([SLASH] + (p + rest)) == [SLASH] + p + rest;
    if rest == [] {
      SplitLast([], SLASH);
      SplitLast(p, SLASH);
      assert p + rest == p;
      assert pieces == ([[]] + pieces)[1..] == [];
    } else {
      assert rest == [] + ([SLASH] + rest[1..]);
      SplitFirst([], SLASH, rest[1..]);
      SplitFirst(p, SLASH, rest[1..]);
      assert p + rest == p + ([SLASH] + rest[1..]);
      assert pieces == ([[]] + pieces)[1..] == Split(rest[1..], SLASH);
    }
  }

  lemma {:induction false} PathsHaveNoQuestion(calls: seq<Call>)
    requires Separable(calls)
    ensures QUESTION !in Paths(calls)
    decreases |calls|
  {
    if calls != [] {
      SeparableRest(calls);
      PathsHaveNoQuestion(calls[1..]);
    }
  }

  lemma {:induction false} ParametersFields(calls: seq<Call>, sep: byte)
    requires Separable(calls)
    ensures Parameters(calls, sep) == [] ==> ParameterList(calls) == []
    ensures Parameters(calls, sep) != [] ==> Fields(Parameters(calls, sep)[1..]) == ParameterList(calls)
    decreases |calls|
  {
    hide Fields, Separable;
    if calls != [] {
      SeparableRest(calls);
      match calls[0]
      case Path(_) => ParametersFields(calls[1..], sep);
      case Parameter(n, v) =>
        ParametersFields(calls[1..], AMP);
        FirstSeparator(calls[1..], AMP);
        ParameterFields(sep, n, v, Parameters(calls[1..], AMP), ParameterList(calls[1..]));
    }
  }

  lemma ParameterFields(sep: byte, n: bytes, v: bytes, rest: bytes, fields: seq<FormField>)
    requires SeparableCall(Parameter(n, v))
    requires rest == [] ==> fields == []
    requires rest != [] ==> rest[0] == AMP && Fields(rest[1..]) == fields
    ensures Fields((ParameterText(sep, n, v) + rest)[1..]) == [FormField(n, v)] + fields
  {
    hide Fields;
    var piece := n + ([EQUALS] + v);
    if rest == [] {
      assert (ParameterText(sep, n, v) + rest)[1..] == piece;
      FieldsLast(n, v);
    } else {
      assert (ParameterText(sep, n, v) + rest)[1..] == piece + ([AMP] + rest[1..]);
      FieldsFirst(n, v, rest[1..]);
    }
  }

  /** From a URL without '?', after any calls whose arguments contain no separators: the URL
      starts with what it was; its path goes on with the paths in call order, each after a
      slash; and behind the first '?', if there was a parameter, stand the names and values
      in call order. */
  lemma UrlReadsBack(start: bytes, calls: seq<Call>)
    requires 0x3F !in start && Separable(calls)
    ensures WF(Initial(start))
    ensures var text := Apply(Initial(start), calls).text;
      var q := IndexOf(text, 0x3F);
      && |start| <= q && text[..|start|] == start
      && Split(text[|start|..q], 0x2F) == [[]] + PathList(calls)
      && (q == |text| <==> ParameterList(calls) == [])
      && (q < |text| ==> Fields(text[q + 1..]) == ParameterList(calls))
  {
    hide Apply, Split, Fields, Separable, IndexOf;
    UrlInterleaving(start, calls);
    PathsSplit(calls);
    PathsHaveNoQuestion(calls);
    ParametersFields(calls, QUESTION);
    FirstSeparator(calls, QUESTION);
    ParameterListEmpty(calls, QUESTION);
    var query := Parameters(calls, QUESTION);
    CutUrl(start, Paths(calls), query);
  }

  lemma {:induction false} ParameterListEmpty(calls: seq<Call>, sep: byte)
    ensures ParameterList(calls) == [] <==> Parameters(calls, sep) == []
    decreases |calls|
  {
    if calls != [] {
      ParameterListEmpty(calls[1..], if calls[0].Path? then sep else AMP);
    }
  }

  lemma CutUrl(start: bytes, path: bytes, query: bytes)
    requires QUESTION !in start && QUESTION !in path && (query == [] || query[0] == QUESTION)
    ensures var text := start + path + query;
      var q := IndexOf(text, QUESTION);
      && q == |start| + |path| && text[..|start|] == start && text[|start|..q] == path
      && (q == |text| <==> query == []) && (query != [] ==> text[q + 1..] == query[1..])
  {
    var text := start + path + query;
    var q := IndexOf(text, QUESTION);
    assert forall i | 0 <= i < |start| + |path| :: text[i] == (start + path)[i];
    assert query != [] ==> text[|start| + |path|] == QUESTION;
  }

  // ---- Initial URLs that already have a query ----

  /** The paths where they belong, after the path of the URL and before its query, and the
      parameters at the end. */
  function Intended(text: bytes, calls: seq<Call>): bytes {
    var q := QueryAt(text);
    Insert(text, q, Paths(calls)) + Parameters(calls, if q == |text| then QUESTION else AMP)
  }

  /** The URL after any calls, whatever it was before them: with a '?' at an index q > 0
      the paths go before the byte q - 1, and with a '?' at index 0 it is ignored. */
  lemma UrlOfCalls(text: bytes, calls: seq<Call>)
    ensures WF(Initial(text))
    ensures var q := QueryAt(text);
      Apply(Initial(text), calls).text
      == if 0 < q < |text| then Insert(text, q - 1, Paths(calls)) + Parameters(calls, AMP)
         else text + Paths(calls) + Parameters(calls, QUESTION)
  {
    hide Apply, Paths, Parameters;
    var q := QueryAt(text);
    if 0 < q < |text| {
      var front, query := text[..q - 1], text[q - 1..];
      InitialParts(text);
      ApplyToParts(front, query, calls);
      RegroupParts(front, Paths(calls), query, Parameters(calls, AMP));
    } else {
      InitialParts(text);
      ApplyToParts(text, [], calls);
      RegroupParts(text, Paths(calls), [], Parameters(calls, QUESTION));
    }
  }

  lemma InitialParts(text: bytes)
    ensures var q := QueryAt(text);
      Initial(text) == if 0 < q < |text| then Parts(text[..q - 1], text[q - 1..]) else Parts(text, [])
  {
    hide QueryAt, Parts;
    var q := QueryAt(text);
    if 0 < q < |text| {
      PartsAt(text, q);
    } else {
      PartsWhole(text);
    }
  }

  lemma PartsAt(text: bytes, q: nat)
    requires 0 < q < |text|
    ensures Parts(text[..q - 1], text[q - 1..]) == Url(text, q)
  {
    var front, query := text[..q - 1], text[q - 1..];
    assert front + query == text;
    assert |query| > 0;
  }

  lemma PartsWhole(text: bytes)
    ensures Parts(text, []) == Url(text, 0)
  {
    assert text + [] == text;
  }

  lemma RegroupParts(a: bytes, x: bytes, b: bytes, z: bytes)
    ensures (a + x) + (b + z) == (a + x + b) + z
    ensures b == [] ==> (a + x) + (b + z) == a + x + z
  {
  }

  predicate AllSlashes(s: bytes) {
    forall i | 0 <= i < |s| :: s[i] == SLASH
  }

  /** What a caller can check: there is no '?', or it is not the first byte and no path is
      added, or nothing is added, or only slashes are added next to a slash. */
  predicate Indifferent(text: bytes, calls: seq<Call>) {
    var q := QueryAt(text);
    || q == |text|
    || (Paths(calls) == [] && (q > 0 || NoParameters(calls)))
    || (q > 0 && text[q - 1] == SLASH && AllSlashes(Paths(calls)))
  }

  lemma {:induction false} ShiftedEqual(x: bytes, c: byte, i: nat)
    requires x + [c] == [c] + x && i < |x|
    ensures x[i] == c
    decreases i
  {
    assert (x + [c])[i] == ([c] + x)[i];
    if i > 0 {
      ShiftedEqual(x, c, i - 1);
    }
  }

  lemma ShiftedExactly(x: bytes, c: byte)
    requires x != [] ==> x[0] == SLASH
    ensures x + [c] == [c] + x <==> x == [] || (c == SLASH && AllSlashes(x))
  {
    if x + [c] == [c] + x {
      forall i | 0 <= i < |x|
        ensures x[i] == c
      {
        ShiftedEqual(x, c, i);
      }
    }
  }

  lemma CancelAround(a: bytes, x: bytes, y: bytes, b: bytes)
    requires |x| == |y|
    ensures a + x + b == a + y + b <==> x == y
  {
    if a + x + b == a + y + b {
      assert (a + x + b)[|a|..|a| + |x|] == x;
      assert (a + y + b)[|a|..|a| + |y|] == y;
    }
  }

  /** Inserting one byte too early, whatever is then appended. */
  lemma ShiftedInsert(text: bytes, q: nat, x: bytes, end: bytes)
    requires 0 < q <= |text| && (x != [] ==> x[0] == SLASH)
    ensures Insert(text, q - 1, x) + end == Insert(text, q, x) + end
      <==> x == [] || (text[q - 1] == SLASH && AllSlashes(x))
  {
    var a, c, b := text[..q - 1], text[q - 1], text[q..];
    assert text[q - 1..] == [c] + b && text[..q] == a + [c];
    assert (a + x + ([c] + b)) + end == a + (x + [c]) + (b + end);
    assert ((a + [c]) + x + b) + end == a + ([c] + x) + (b + end);
    CancelAround(a, x + [c], [c] + x, b + end);
    ShiftedExactly(x, c);
  }

  /** A '?' at index 0 is not seen: any path is then misplaced and any parameter is
      introduced by a second '?'. */
  lemma LeadingQuestion(text: bytes, calls: seq<Call>)
    requires text != [] && text[0] == QUESTION
    ensures text + Paths(calls) + Parameters(calls, QUESTION) == Insert(text, 0, Paths(calls)) + Parameters(calls, AMP)
      <==> Paths(calls) == [] && NoParameters(calls)
  {
    var x, y, z := Paths(calls), Parameters(calls, QUESTION), Parameters(calls, AMP);
    PathsStart(calls);
    NoQueryExactly(calls, QUESTION);
    NoQueryExactly(calls, AMP);
    FirstSeparator(calls, QUESTION);
    FirstSeparator(calls, AMP);
    var left, right := text + x + y, Insert(text, 0, x) + z;
    if x != [] {
      assert left[0] == QUESTION && right[0] == SLASH;
    } else if y != [] {
      assert left[|text|] == QUESTION && right[|text|] == AMP;
    }
  }

  /** For every initial URL and every sequence of calls, the URL is the intended one exactly
      under that condition. */
  lemma IntendedExactly(text: bytes, calls: seq<Call>)
    ensures WF(Initial(text))
    ensures Apply(Initial(text), calls).text == Intended(text, calls) <==> Indifferent(text, calls)
  {
    hide Apply, Insert;
    var q, x := QueryAt(text), Paths(calls);
    UrlOfCalls(text, calls);
    PathsStart(calls);
    if q == |text| {
      InsertAtEnd(text, x);
    } else if q == 0 {
      LeadingQuestion(text, calls);
    } else {
      ShiftedInsert(text, q, x, Parameters(calls, AMP));
    }
  }

  lemma InsertAtEnd(text: bytes, x: bytes)
    ensures Insert(text, |text|, x) == text + x
  {
  }

  /** For example "h?a" with the path "p" becomes "/ph?a" instead of "h/p?a". */
  lemma MisplacedPath()
    ensures WF(Initial([0x68, QUESTION, 0x61]))
    ensures AddPath(Initial([0x68, QUESTION, 0x61]), [0x70]).text == [SLASH, 0x70, 0x68, QUESTION, 0x61]
    ensures Intended([0x68, QUESTION, 0x61], [Path([0x70])]) == [0x68, SLASH, 0x70, QUESTION, 0x61]
  {
    var t: bytes := [0x68, QUESTION, 0x61];
    assert t[1..] == [QUESTION, 0x61];
    assert IndexOf(t[1..], QUESTION) == 0;
    assert QueryAt(t) == 1;
    assert t[..0] == [] && t[..1] == [0x68];
  }
}
