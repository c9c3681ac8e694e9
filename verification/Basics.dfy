/** Bytes, error codes and the result type shared by every reader and writer. */
module Basics {

  type byte = x: int | 0 <= x < 0x100
  type bytes = seq<byte>
  type uint64 = x: int | 0 <= x < 0x1_0000_0000_0000_0000

  const AMP: byte := 0x26
  const DOT: byte := 0x2E
  const SLASH: byte := 0x2F
  const COLON: byte := 0x3A

  const UINT64_MAX: uint64 := 0xFFFF_FFFF_FFFF_FFFF

  datatype Option<+T> = None | Some(value: T)

  /** The failing `az_result` codes that the modelled functions return.
      OutOfBounds stands for a read past the end of a span: the C code has no
      check there and its behaviour is undefined. */
  datatype Error =
    | Arg
    | BufferOverflow
    | NotImplemented
    | ItemNotFound
    | UnexpectedChar
    | EOF
    | InvalidState
    | NestingOverflow
    | StringEnd
    | PointerTokenEnd
    | HttpInvalidState
    | OutOfBounds

  /** What a reader leaves behind: a value or an error, and in both cases the
      state (for a plain reader, the unread bytes) at the point where it stopped. */
  datatype Result<+T, +S> = Ok(value: T, rest: S) | Fail(error: Error, rest: S) {
    predicate IsFailure() {
      Fail?
    }

    function PropagateFailure<U>(): Result<U, S>
      requires Fail?
    {
      Fail(error, rest)
    }

    function Extract(): (T, S)
      requires Ok?
    {
      (value, rest)
    }
  }

  /** A result without a state: of a function that has no reader, or whose reader is local. */
  datatype Outcome<+T> = Success(value: T) | Failure(error: Error)

  /** The bytes of a text of ASCII characters. */
  function Ascii(s: string): (b: bytes)
    ensures |b| == |s|
  {
    seq(|s|, i requires 0 <= i < |s| => (s[i] as int % 0x100) as byte)
  }

  predicate IsDigit(b: byte) {
    0x30 <= b <= 0x39
  }

  /** The specification of `_az_is_expected_span`: consume `expected`. */
  function Expect(s: bytes, expected: bytes): (r: Result<(), bytes>)
    ensures |r.rest| <= |s|
    ensures r.Fail? ==> r.error in {EOF, UnexpectedChar} && r.rest == s
  {
    if |expected| > |s| then Fail(EOF, s)
    else if s[..|expected|] != expected then Fail(UnexpectedChar, s)
    else Ok((), s[|expected|..])
  }

  /** A prefix of `s` and a split of the remainder give a split of `s`. */
  lemma Regroup(s: bytes, n: nat, c: bytes, k: bytes)
    requires n <= |s| && s[n..] == c + k
    ensures s == (s[..n] + c) + k
  {
    assert s == s[..n] + s[n..];
  }

  lemma ConsParts(b: byte, x: bytes)
    ensures ([b] + x)[0] == b && ([b] + x)[1..] == x
  {
  }
}
