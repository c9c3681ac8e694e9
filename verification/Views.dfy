/** Read-only spans: content and capacity, with `az_span_take`, `az_span_drop`
    (sdk/core/core/src/az_span_private.h) and `az_span_slice` (sdk/core/core/src/az_span.c). */
module Views {
  import opened Basics

  datatype View_ = View(bytes: bytes, capacity: nat)

  /** The length never exceeds the capacity. */
  type View = v: View_ | |v.bytes| <= v.capacity witness View([], 0)

  const EMPTY: View := View([], 0)

  /** No room behind the content. */
  predicate Tight(v: View) {
    v.capacity == |v.bytes|
  }

  function Take(v: View, n: nat): (r: View)
    ensures r.bytes == if n <= |v.bytes| then v.bytes[..n] else v.bytes
    ensures r.capacity == if n <= v.capacity then n else v.capacity
  {
    if v.capacity <= n then v
    else View(v.bytes[..if |v.bytes| > n then n else |v.bytes|], n)
  }

  function Drop(v: View, n: nat): (r: View)
    ensures r.bytes == if n <= |v.bytes| then v.bytes[n..] else []
    ensures r.capacity == if n <= v.capacity then v.capacity - n else 0
  {
    if v.capacity <= n then EMPTY
    else View(if |v.bytes| < n then [] else v.bytes[n..], v.capacity - n)
  }

  /** Whatever the capacity was, a slice is tight and consists of the content in range;
      a negative `high` means up to the end. */
  function Slice(v: View, low: nat, high: int): (r: View)
    ensures Tight(r)
    ensures var end := if 0 <= high < |v.bytes| then high else |v.bytes|;
      r.bytes == if low <= end then v.bytes[low..end] else []
  {
    var left := if high >= 0 then Take(v, high) else v;
    var right := Drop(left, low);
    View(right.bytes, |right.bytes|)
  }

  /** What the reader functions, which see only the content, say of a result. */
  function Seen<T>(r: Result<T, View>): Result<T, bytes> {
    match r
    case Ok(v, s) => Ok(v, s.bytes)
    case Fail(e, s) => Fail(e, s.bytes)
  }

  /** `_az_is_expected_span` */
  method IsExpectedSpan(self: View, expected: bytes) returns (r: Result<(), View>)
    ensures r.Ok? <==> expected <= self.bytes
    ensures r.Ok? ==> r.rest.bytes == self.bytes[|expected|..] && Tight(r.rest)
    ensures r.Fail? ==> r.rest == self && r.error == if |expected| > |self.bytes| then EOF else UnexpectedChar
  {
    if |expected| > |self.bytes| {
      return Fail(EOF, self);
    }
    var actual := Slice(self, 0, |expected|);
    if actual.bytes != expected {
      return Fail(UnexpectedChar, self);
    }
    return Ok((), Slice(self, |expected|, -1));
  }
}
