/** Which errors a longer text could mend: only those at the end of the text. Every other
    error of the parser is final (sdk/core/core/src/az_json_parser.c, lines 88-435). */
module JsonTruncated {
  import opened Basics
  import opened JsonString
  import opened JsonNumber
  import opened JsonSyntax
  import opened JsonMachine
  import opened JsonWalk
  import opened JsonSkip

  /** The text ended, by the code's check or without one. */
  predicate AtEnd(e: Error) {
    e == EOF || e == OutOfBounds
  }

  /** Reading goes the same way when `k` is appended, unless it came to the end of the text:
      `r` is the result on the shorter text and `q` on the longer one. */
  predicate Extends<T(==)>(r: Result<T, bytes>, q: Result<T, bytes>, k: bytes) {
    match r
    case Ok(v, t) => t != [] ==> q == Ok(v, t + k)
    case Fail(e, _) => AtEnd(e) || (q.Fail? && q.error == e)
  }

  /** The same of the parser; a close counts as a success. */
  predicate Goes<T(==)>(r: Result<T, State>, q: Result<T, State>, k: bytes) {
    var st := State(r.rest.reader + k, r.rest.stack);
    match r
    case Ok(v, _) => r.rest.reader != [] ==> q == Ok(v, st)
    case Fail(e, _) =>
      if e == ItemNotFound then r.rest.reader != [] ==> q == Fail(e, st)
      else AtEnd(e) || (q.Fail? && q.error == e)
  }

  // ---- Readers ----

  lemma {:induction false} HexUnitExtends(s: bytes, n: nat, acc: nat, k: bytes)
    ensures match HexUnit(s, n, acc)
      case Ok(v, t) => HexUnit(s + k, n, acc) == Ok(v, t + k)
      case Fail(e, _) => e == EOF || (HexUnit(s + k, n, acc).Fail? && HexUnit(s + k, n, acc).error == e)
    decreases n
  {
    if n > 0 && s != [] {
      assert (s + k)[1..] == s[1..] + k;
      if HexDigit(s[0]).Some? {
        HexUnitExtends(s[1..], n - 1, acc * 16 + HexDigit(s[0]).value, k);
      }
    }
  }

  lemma StringCharExtends(s: bytes, k: bytes)
    requires s != []
    ensures match StringChar(s)
      case Ok(v, t) => StringChar(s + k) == Ok(v, t + k)
      case Fail(e, _) => e == EOF || (StringChar(s + k).Fail? && StringChar(s + k).error == e)
  {
    hide HexUnit;
    assert (s + k)[1..] == s[1..] + k;
    if |s| >= 2 {
      assert (s + k)[2..] == s[2..] + k;
      HexUnitExtends(s[2..], 4, 0, k);
    }
  }

  lemma SameStart(s: bytes, t: bytes, k: bytes)
    requires |t| <= |s|
    ensures (s + k)[..|s + k| - |t + k|] == s[..|s| - |t|]
  {
  }

  lemma {:induction false} StringRestExtends(s: bytes, k: bytes)
    ensures match StringRest(s)
      case Ok(v, t) => StringRest(s + k) == Ok(v, t + k)
      case Fail(e, _) => e == EOF || (StringRest(s + k).Fail? && StringRest(s + k).error == e)
    decreases |s|
  {
    hide StringChar;
    if s != [] {
      StringCharExtends(s, k);
      var c := StringChar(s);
      if c.Ok? {
        StringRestExtends(c.rest, k);
        SameStart(s, c.rest, k);
      } else if c.error == StringEnd {
        assert (s + k)[1..] == s[1..] + k;
      }
    }
  }

  lemma {:induction false} DigitRunExtends(s: bytes, n: Dec, offset: int, k: bytes)
    requires s != [] && IsDigit(s[0])
    ensures var (m, t) := DigitRun(s, n, offset); t != [] ==> DigitRun(s + k, n, offset) == (m, t + k)
    decreases |s|
  {
    hide AddDigit;
    assert (s + k)[1..] == s[1..] + k;
    if |s| > 1 && IsDigit(s[1]) {
      DigitRunExtends(s[1..], AddDigit(n, s[0], offset), offset, k);
    }
  }

  lemma {:induction false} ExpRunExtends(s: bytes, e: int, k: bytes)
    requires s != [] && IsDigit(s[0])
    ensures var (f, t) := ExpRun(s, e); t != [] ==> ExpRun(s + k, e) == (f, t + k)
    decreases |s|
  {
    hide Wrap16;
    assert (s + k)[1..] == s[1..] + k;
    if |s| > 1 && IsDigit(s[1]) {
      ExpRunExtends(s[1..], Wrap16(e * 10 + (s[0] - 0x30)), k);
    }
  }

  lemma FracPartExtends(s: bytes, n: Dec, k: bytes)
    requires s != []
    ensures Extends(FracPart(s, n), FracPart(s + k, n), k)
  {
    hide DigitRun;
    assert (s + k)[1..] == s[1..] + k;
    if |s| > 1 && IsDigit(s[1]) {
      DigitRunExtends(s[1..], n, -1, k);
    }
  }

  lemma ExpDigitsExtends(s: bytes, n: Dec, sign: int, k: bytes)
    ensures Extends(ExpDigits(s, n, sign), ExpDigits(s + k, n, sign), k)
  {
    hide ExpRun, Wrap16;
    if s != [] && IsDigit(s[0]) {
      ExpRunExtends(s, 0, k);
    }
  }

  lemma ExpPartExtends(s: bytes, n: Dec, k: bytes)
    requires s != []
    ensures Extends(ExpPart(s, n), ExpPart(s + k, n), k)
  {
    hide ExpDigits;
    assert (s + k)[1..] == s[1..] + k;
    if |s| > 1 {
      assert (s + k)[2..] == s[2..] + k;
      ExpDigitsExtends(s[2..], n, -1, k);
      ExpDigitsExtends(s[2..], n, 1, k);
      ExpDigitsExtends(s[1..], n, 1, k);
    }
  }

  lemma UnsignedExtends(s: bytes, n: Dec, k: bytes)
    requires s != [] && IsDigit(s[0])
    ensures Extends(Unsigned(s, n), Unsigned(s + k, n), k)
  {
    hide DigitRun, FracPart, ExpPart;
    assert (s + k)[1..] == s[1..] + k;
    DigitRunExtends(s, n, 0, k);
    var (m, t) := IntPart(s, n);
    if t == [] {
      NothingAfter(m);
    } else {
      FracPartExtends(t, m, k);
      var f := FracPart(t, m);
      if f.Ok? && f.rest == [] {
        NothingAfter(f.value);
      } else if f.Ok? {
        ExpPartExtends(f.rest, f.value, k);
      }
    }
  }

  lemma NothingAfter(n: Dec)
    ensures FracPart([], n) == Ok(n, []) && ExpPart([], n) == Ok(n, [])
  {
  }

  lemma NumberRestExtends(s: bytes, k: bytes)
    requires s != [] && (IsDigit(s[0]) || s[0] == MINUS)
    ensures Extends(NumberRest(s), NumberRest(s + k), k)
  {
    hide Unsigned;
    assert (s + k)[1..] == s[1..] + k;
    if s[0] != MINUS {
      UnsignedExtends(s, ZERO, k);
    } else if |s| > 1 && IsDigit(s[1]) {
      UnsignedExtends(s[1..], ZERO.(negative := true), k);
    }
  }

  lemma {:induction false} SkipSpaceExtends(s: bytes, k: bytes)
    requires SkipSpace(s) != []
    ensures SkipSpace(s + k) == SkipSpace(s) + k
    decreases |s|
  {
    assert (s + k)[1..] == s[1..] + k;
    if IsSpace(s[0]) {
      SkipSpaceExtends(s[1..], k);
    }
  }

  lemma ExpectExtends(s: bytes, text: bytes, k: bytes)
    ensures match Expect(s, text)
      case Ok(_, t) => Expect(s + k, text).Ok? && Expect(s + k, text).rest == t + k
      case Fail(e, _) => e == EOF || (Expect(s + k, text).Fail? && Expect(s + k, text).error == e)
  {
    if |text| <= |s| {
      assert (s + k)[..|text|] == s[..|text|] && (s + k)[|text|..] == s[|text|..] + k;
    }
  }

  lemma ReadKeyExtends(s: bytes, k: bytes)
    ensures Extends(ReadKey(s), ReadKey(s + k), k)
  {
    hide Expect, StringRest, SkipSpace;
    ExpectExtends(s, [QUOTE], k);
    if Expect(s, [QUOTE]).Ok? {
      var s1 := Expect(s, [QUOTE]).rest;
      StringRestExtends(s1, k);
      if StringRest(s1).Ok? {
        var s2 := StringRest(s1).rest;
        var s3 := SkipSpace(s2);
        ExpectExtends(s3, [COLON], k);
        if s3 == [] {
          ExpectNothing([COLON]);
        } else {
          SkipSpaceExtends(s2, k);
          var c := Expect(s3, [COLON]);
          if c.Ok? && SkipSpace(c.rest) != [] {
            SkipSpaceExtends(c.rest, k);
          }
        }
      }
    }
  }

  lemma ExpectNothing(text: bytes)
    requires text != []
    ensures Expect([], text) == Fail(EOF, [])
  {
  }

  // ---- The parser ----

  /** The state with more text behind it. */
  function Longer(st: State, k: bytes): State {
    State(st.reader + k, st.stack)
  }

  lemma LiteralGoes(st: State, text: bytes, token: Token<Dec>, k: bytes)
    ensures Goes(Literal(st, text, token), Literal(Longer(st, k), text, token), k)
  {
    hide Expect;
    ExpectExtends(st.reader, text, k);
    ExpectErrors(st.reader, text);
  }

  lemma ExpectErrors(s: bytes, text: bytes)
    ensures Expect(s, text).Fail? ==> Expect(s, text).error in {EOF, UnexpectedChar}
  {
  }

  lemma OpeningGoes(st: State, kind: Kind, k: bytes)
    requires st.reader != []
    ensures Goes(OpenContainer(st, kind), OpenContainer(Longer(st, k), kind), k)
  {
    assert (st.reader + k)[1..] == st.reader[1..] + k;
  }

  lemma GetValueGoes(st: State, k: bytes)
    ensures Goes(GetValue(st), GetValue(Longer(st, k)), k)
  {
    hide NumberRest, StringRest, Literal, OpenContainer;
    if st.reader != [] {
      var c := st.reader[0];
      if IsDigit(c) || c == MINUS {
        NumberRestExtends(st.reader, k);
      } else {
        LiteralGoes(st, TRUE_TEXT, Boolean(true), k);
        LiteralGoes(st, FALSE_TEXT, Boolean(false), k);
        LiteralGoes(st, NULL_TEXT, Null, k);
        OpeningGoes(st, Object, k);
        OpeningGoes(st, Array, k);
        StringRestExtends(st.reader[1..], k);
        assert (st.reader + k)[1..] == st.reader[1..] + k;
      }
    }
  }

  lemma GetValueSpaceGoes(st: State, k: bytes)
    ensures Goes(GetValueSpace(st), GetValueSpace(Longer(st, k)), k)
  {
    hide GetValue, SkipSpace;
    GetValueGoes(st, k);
    GetValueProgress(st);
    var r := GetValue(st);
    if r.Ok? && SkipSpace(r.rest.reader) != [] {
      SkipNothing();
      SkipSpaceExtends(r.rest.reader, k);
    }
  }

  lemma SkipNothing()
    ensures SkipSpace([]) == []
  {
  }

  lemma CommaOrCloseGoes(st: State, k: bytes)
    requires st.stack != []
    ensures Goes(CommaOrClose(st), CommaOrClose(Longer(st, k)), k)
  {
    hide SkipSpace;
    if st.reader != [] && st.reader[0] == COMMA {
      assert (st.reader + k)[1..] == st.reader[1..] + k;
      if SkipSpace(st.reader[1..]) != [] {
        SkipSpaceExtends(st.reader[1..], k);
      }
    }
  }

  lemma AfterCloseGoes(stack: seq<Kind>, tail: bytes, k: bytes)
    ensures Goes(AfterClose(stack, tail), AfterClose(stack, tail + k), k)
  {
    hide CommaOrClose, SkipSpace;
    var st := State(SkipSpace(tail), stack);
    if st.reader != [] {
      SkipSpaceExtends(tail, k);
    }
    if stack != [] {
      CommaOrCloseGoes(st, k);
      EmptyComma(st);
    }
  }

  lemma EmptyComma(st: State)
    requires st.stack != []
    ensures st.reader == [] ==> CommaOrClose(st) == Fail(OutOfBounds, st)
    ensures CommaOrClose(st).Fail? ==> CommaOrClose(st).error != ItemNotFound
  {
  }

  lemma ItemBeginGoes(kind: Kind, st: State, k: bytes)
    ensures Goes(ItemBegin(kind, st), ItemBegin(kind, Longer(st, k)), k)
  {
    hide AfterClose;
    if st.stack != [] && st.reader != [] {
      assert (st.reader + k)[1..] == st.reader[1..] + k;
      AfterCloseGoes(Pop(st.stack), st.reader[1..], k);
      AfterCloseProgress(Pop(st.stack), st.reader[1..]);
    }
  }

  lemma ItemNameGoes(kind: Kind, st: State, k: bytes)
    ensures Goes(ItemName(kind, st), ItemName(kind, Longer(st, k)), k)
  {
    hide ReadKey;
    ReadKeyExtends(st.reader, k);
    ReadKeyErrors(st.reader);
  }

  lemma ReadKeyErrors(s: bytes)
    ensures ReadKey(s).Fail? ==> ReadKey(s).error in {EOF, UnexpectedChar}
  {
  }

  lemma ItemValueGoes(st: State, k: bytes)
    requires st.stack != []
    ensures Goes(ItemValue(st), ItemValue(Longer(st, k)), k)
  {
    hide GetValueSpace, CommaOrClose;
    GetValueSpaceGoes(st, k);
    GetValueSpaceErrors(st);
    var r := GetValueSpace(st);
    if r.Ok? && !r.value.Container? {
      EmptyComma(r.rest);
      if r.rest.reader != [] {
        CommaOrCloseGoes(r.rest, k);
      }
    }
  }

  lemma GetValueSpaceErrors(st: State)
    ensures GetValueSpace(st).Fail? ==> GetValueSpace(st).error in {EOF, UnexpectedChar, NestingOverflow}
    ensures st.reader == [] ==> GetValueSpace(st) == Fail(EOF, st)
  {
    hide NumberRest, StringRest;
    GetValueProgress(st);
  }

  lemma ParseItemGoes(kind: Kind, st: State, k: bytes)
    ensures Goes(ParseItem(kind, st), ParseItem(kind, Longer(st, k)), k)
  {
    hide ItemBegin, ItemName, ItemValue;
    ItemBeginGoes(kind, st, k);
    ItemBeginStays(kind, st);
    if ItemBegin(kind, st).Ok? {
      ItemNameGoes(kind, st, k);
      ItemNameErrors(kind, st);
      var n := ItemName(kind, st);
      if n.Ok? {
        ItemValueGoes(n.rest, k);
        ItemValueErrors(n.rest);
      }
    }
  }

  lemma ItemBeginStays(kind: Kind, st: State)
    ensures ItemBegin(kind, st).Ok? ==> ItemBegin(kind, st).rest == st && st.stack != [] && st.reader != []
  {
  }

  lemma ItemNameErrors(kind: Kind, st: State)
    ensures ItemName(kind, st).rest.stack == st.stack
    ensures ItemName(kind, st).Fail? ==> ItemName(kind, st).error in {EOF, UnexpectedChar}
  {
  }

  lemma ItemValueErrors(st: State)
    requires st.stack != []
    ensures ItemValue(st).Fail? ==> ItemValue(st).error != ItemNotFound
    ensures st.reader == [] ==> ItemValue(st) == Fail(EOF, st)
  {
    GetValueSpaceErrors(st);
    ItemValueProgress(st);
  }

  // ---- Where the end is reported ----

  /** An error at the end leaves at most a piece of a literal unread. */
  predicate Ends<T>(r: Result<T, bytes>) {
    r.Fail? && AtEnd(r.error) ==> |r.rest| < 5
  }

  predicate EndsAt<T>(r: Result<T, State>) {
    r.Fail? && AtEnd(r.error) ==> |r.rest.reader| < 5
  }

  lemma {:induction false} HexUnitEnds(s: bytes, n: nat, acc: nat)
    ensures Ends(HexUnit(s, n, acc))
    decreases n
  {
    if n > 0 && s != [] && HexDigit(s[0]).Some? {
      HexUnitEnds(s[1..], n - 1, acc * 16 + HexDigit(s[0]).value);
    }
  }

  lemma {:induction false} StringRestEnd(s: bytes)
    ensures Ends(StringRest(s))
    decreases |s|
  {
    if |s| >= 2 {
      HexUnitEnds(s[2..], 4, 0);
    }
    if StringChar(s).Ok? {
      StringRestEnd(StringChar(s).rest);
    }
  }

  lemma NumberRestEnds(s: bytes)
    requires s != [] && (IsDigit(s[0]) || s[0] == MINUS)
    ensures Ends(NumberRest(s))
  {
    hide DigitRun, ExpRun;
  }

  lemma ReadKeyEnds(s: bytes)
    ensures Ends(ReadKey(s))
  {
    hide StringRest, SkipSpace;
    if Expect(s, [QUOTE]).Ok? {
      StringRestEnd(Expect(s, [QUOTE]).rest);
    }
  }

  lemma GetValueEnds(st: State)
    ensures EndsAt(GetValue(st))
  {
    hide NumberRest, StringRest;
    if st.reader != [] {
      StringRestEnd(st.reader[1..]);
      if IsDigit(st.reader[0]) || st.reader[0] == MINUS {
        NumberRestEnds(st.reader);
      }
    }
  }

  lemma ItemBeginEnds(kind: Kind, st: State)
    ensures EndsAt(ItemBegin(kind, st))
  {
  }

  lemma ParseItemEnds(kind: Kind, st: State)
    ensures EndsAt(ParseItem(kind, st))
  {
    hide ItemBegin, ReadKey, GetValue, SkipSpace;
    ItemBeginEnds(kind, st);
    ItemBeginStays(kind, st);
    if ItemBegin(kind, st).Ok? {
      ReadKeyEnds(st.reader);
      if ItemName(kind, st).Ok? {
        GetValueEnds(ItemName(kind, st).rest);
      }
    }
  }

  lemma {:induction false} KidsEnd(kind: Kind, st: State)
    ensures EndsAt(WalkKids(kind, st))
    decreases |st.reader|
  {
    hide ParseItem;
    ParseItemProgress(kind, st);
    ParseItemEnds(kind, st);
    var r := ParseItem(kind, st);
    if r.Ok? {
      if r.value.1.Container? {
        KidsEnd(r.value.1.kind, r.rest);
      }
      if WalkValue(r.value.1, r.rest).Ok? {
        KidsEnd(kind, WalkValue(r.value.1, r.rest).rest);
      }
    }
  }

  lemma RootEnds(json: bytes)
    ensures EndsAt(ParseToken(State(json, [])))
  {
    hide GetValue, SkipSpace;
    GetValueEnds(State(SkipSpace(json), []));
  }

  // ---- The traversal ----

  /** An empty text inside a container: the end. */
  lemma EmptyItem(kind: Kind, st: State)
    requires st.reader == [] && st.stack != [] && Top(st.stack) == kind
    ensures ParseItem(kind, st) == Fail(EOF, st)
  {
  }

  lemma {:induction false} KidsGo(kind: Kind, st: State, stack: seq<Kind>, k: bytes)
    requires st.stack == stack + [kind]
    ensures Goes(WalkKids(kind, st), WalkKids(kind, Longer(st, k)), k)
    ensures WalkKids(kind, st).Ok? ==> WalkKids(kind, st).rest.stack == stack
    ensures WalkKids(kind, st).Fail? ==> WalkKids(kind, st).error != ItemNotFound
    ensures st.reader == [] ==> WalkKids(kind, st) == Fail(EOF, st)
    decreases |st.reader|
  {
    hide ParseItem;
    ParseItemProgress(kind, st);
    ParseItemProgress(kind, Longer(st, k));
    ParseItemStack(kind, st, stack);
    ParseItemGoes(kind, st, k);
    var r := ParseItem(kind, st);
    if st.reader == [] {
      EmptyItem(kind, st);
    } else if r.Ok? {
      var (token, st1) := (r.value.1, r.rest);
      if token.Container? {
        KidsGo(token.kind, st1, st.stack, k);
      }
      var w := WalkValue(token, st1);
      if w.Ok? {
        KidsGo(kind, w.rest, stack, k);
      }
    }
  }

  /** The root token: a scalar leaves nothing unread, a container leaves something. */
  lemma RootGoes(json: bytes, k: bytes)
    ensures var (r, q) := (ParseToken(State(json, [])), ParseToken(State(json + k, [])));
      && (r.Fail? ==> r.error != ItemNotFound && Goes(r, q, k))
      && (r.Ok? && !r.value.Container? ==> r.rest == State([], []))
      && (r.Ok? && r.value.Container? ==>
            r.rest.reader != [] && r.rest.stack == [r.value.kind] && Goes(r, q, k))
  {
    hide GetValueSpace, SkipSpace;
    var st := State(SkipSpace(json), []);
    GetValueSpaceErrors(st);
    if st.reader != [] {
      SkipSpaceExtends(json, k);
      GetValueSpaceGoes(st, k);
    }
  }

  /** An error other than the end of the text stays, whatever is appended. */
  lemma ErrorsAreFinal(json: bytes, k: bytes)
    requires WalkDocument(json).Fail? && !AtEnd(WalkDocument(json).error)
    ensures WalkDocument(json + k).Fail? && WalkDocument(json + k).error == WalkDocument(json).error
  {
    hide ParseToken, WalkKids;
    RootGoes(json, k);
    var r := ParseToken(State(json, []));
    if r.Ok? && r.value.Container? {
      assert r.rest.stack == [] + [r.value.kind];
      KidsGo(r.value.kind, r.rest, [], k);
    }
  }

  /** Conversely, the end of the text is reported at the end: what is left unread is no longer
      than the longest literal. */
  lemma AtEndIsAtEnd(json: bytes)
    requires WalkDocument(json).Fail? && AtEnd(WalkDocument(json).error)
    ensures |WalkDocument(json).rest.reader| < 5
  {
    hide ParseToken, WalkKids;
    RootEnds(json);
    var r := ParseToken(State(json, []));
    if r.Ok? && r.value.Container? {
      KidsEnd(r.value.kind, r.rest);
    }
  }

  /** A truncated document is either accepted or fails at its end. */
  lemma TruncatedDocument(json: bytes, k: bytes)
    requires WalkDocument(json + k).Ok?
    ensures WalkDocument(json).Ok? || WalkDocument(json).error == EOF || WalkDocument(json).error == OutOfBounds
  {
    hide WalkDocument;
    if WalkDocument(json).Fail? && !AtEnd(WalkDocument(json).error) {
      ErrorsAreFinal(json, k);
    }
  }
}
