/** `az_json_parser_skip_children` (sdk/core/core/src/az_json_parser.c, lines 437-475)
    reads, without recursion, exactly what the recursive traversal reads. */
module JsonSkip {
  import opened Basics
  import opened JsonNumber
  import opened JsonSyntax
  import opened JsonMachine
  import opened JsonWalk

  /** The kind of item that the loop reads next; an empty stack has its sentinel bit set. */
  function LastKind(stack: seq<Kind>): Kind {
    if stack == [] then Array else Top(stack)
  }

  /** Read items of whatever container is innermost until the stack is `target`. */
  function Skip(st: State, target: seq<Kind>): (r: Result<(), State>)
    ensures |r.rest.reader| <= |st.reader|
    decreases |st.reader|
  {
    var kind := LastKind(st.stack);
    ParseItemProgress(kind, st);
    var r := ParseItem(kind, st);
    if r.Fail? && r.error != ItemNotFound then Fail(r.error, r.rest)
    else if r.rest.stack == target then Ok((), r.rest)
    else Skip(r.rest, target)
  }

  function SkipChildren(token: Token<Dec>, st: State): (r: Result<(), State>)
    ensures |r.rest.reader| <= |st.reader|
  {
    if !token.Container? then Ok((), st)
    else if st.stack == [] then Fail(InvalidState, st)
    else Skip(st, Pop(st.stack))
  }

  /** The result without its value. */
  function Forget<T, S>(r: Result<T, S>): Result<(), S> {
    match r
    case Ok(_, s) => Ok((), s)
    case Fail(e, s) => Fail(e, s)
  }

  lemma ParseItemStack(kind: Kind, st: State, stack: seq<Kind>)
    requires st.stack == stack + [kind]
    ensures var r := ParseItem(kind, st);
      && (r.Ok? ==> r.rest.stack == StackAfter(st.stack, r.value.1))
      && (r.Fail? && r.error == ItemNotFound ==> r.rest.stack == stack)
  {
    ParseItemProgress(kind, st);
    assert Pop(st.stack) == stack;
    if st.reader != [] {
      AfterCloseProgress(stack, st.reader[1..]);
    }
    hide AfterClose, GetValueSpace, ReadKey;
    if ParseItem(kind, st).Ok? {
      var st2 := ItemName(kind, st).rest;
      var g := GetValueSpace(st2);
      if !g.value.Container? {
        CommaOrCloseProgress(g.rest);
      }
    }
  }

  /** For a loop that is to stop somewhere outside the innermost container: the items up
      to its close are those of the traversal, and the loop goes on from there. */
  lemma {:induction false} SkipFollowsWalk(kind: Kind, st: State, stack: seq<Kind>, target: seq<Kind>)
    requires st.stack == stack + [kind] && target <= stack
    ensures var w := WalkKids(kind, st);
      if w.Fail? then Skip(st, target) == Fail(w.error, w.rest)
      else
        && w.rest.stack == stack
        && Skip(st, target) == if stack == target then Ok((), w.rest) else Skip(w.rest, target)
    decreases |st.reader|
  {
    hide ParseItem;
    ParseItemProgress(kind, st);
    ParseItemStack(kind, st, stack);
    var r := ParseItem(kind, st);
    if r.Ok? {
      var (token, st1) := (r.value.1, r.rest);
      assert |st1.stack| > |target|;
      var st2 := WalkValue(token, st1).rest;
      if token.Container? {
        SkipFollowsWalk(token.kind, st1, st.stack, target);
      }
      if WalkValue(token, st1).Ok? {
        SkipFollowsWalk(kind, st2, stack, target);
      }
    }
  }

  /** Right after a token has been read, on any input: skipping its children ends as
      traversing them does, with the same error or in the same state. */
  lemma SkipChildrenIsWalk(token: Token<Dec>, st: State)
    requires token.Container? ==> st.stack != [] && Top(st.stack) == token.kind
    ensures SkipChildren(token, st) == Forget(WalkValue(token, st))
  {
    if token.Container? {
      assert st.stack == Pop(st.stack) + [token.kind];
      SkipFollowsWalk(token.kind, st, Pop(st.stack), Pop(st.stack));
    }
  }
}
