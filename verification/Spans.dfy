/** Writable spans: a window of a buffer with a length and a capacity, and the operations
    that write through them (sdk/core/core/src/az_span.c, lines 84-150 and 224-302). */
module Spans {
  import opened Basics

  datatype Span = Span(buf: array<byte>, ptr: nat, length: nat, capacity: nat) {
    ghost predicate Valid() {
      length <= capacity && ptr + capacity <= buf.Length
    }

    ghost function Contents(): (s: bytes)
      requires Valid()
      reads buf
      ensures |s| == length
    {
      buf[ptr..ptr + length]
    }
  }

  /** `az_span_drop`; a span without capacity stands for the null span. */
  function Drop(s: Span, n: nat): (r: Span)
    requires s.Valid()
    ensures r.Valid() && r.buf == s.buf
    ensures r.capacity == if n < s.capacity then s.capacity - n else 0
    ensures r.length == if n < s.length then s.length - n else 0
    ensures r.capacity > 0 ==> r.ptr == s.ptr + n
  {
    if s.capacity <= n then Span(s.buf, 0, 0, 0)
    else Span(s.buf, s.ptr + n, if s.length < n then 0 else s.length - n, s.capacity - n)
  }

  /** `s` with `t` written over it from `at` on. */
  function Overwrite(s: bytes, at: nat, t: bytes): (r: bytes)
    requires at + |t| <= |s|
    ensures |r| == |s|
    ensures forall i | 0 <= i < |s| :: r[i] == if at <= i < at + |t| then t[i - at] else s[i]
    ensures t == [] ==> r == s
  {
    s[..at] + t + s[at + |t|..]
  }

  /** memmove within one buffer: forwards or backwards, so that no byte is overwritten
      before it has been moved. */
  method MoveWithin(buf: array<byte>, dst: nat, src: nat, n: nat)
    requires dst + n <= buf.Length && src + n <= buf.Length
    modifies buf
    ensures buf[..] == Overwrite(old(buf[..]), dst, old(buf[src..src + n]))
  {
    ghost var b := buf[..];
    if dst <= src {
      for i := 0 to n
        invariant forall j | dst <= j < dst + i :: buf[j] == b[src + (j - dst)]
        invariant forall j | 0 <= j < buf.Length && !(dst <= j < dst + i) :: buf[j] == b[j]
      {
        assert buf[src + i] == b[src + i];
        buf[dst + i] := buf[src + i];
      }
    } else {
      for i := n downto 0
        invariant forall j | dst + i <= j < dst + n :: buf[j] == b[src + (j - dst)]
        invariant forall j | 0 <= j < buf.Length && !(dst + i <= j < dst + n) :: buf[j] == b[j]
      {
        assert buf[src + i] == b[src + i];
        buf[dst + i] := buf[src + i];
      }
    }
    ghost var moved := b[src..src + n];
    assert forall j | dst <= j < dst + n :: buf[j] == moved[j - dst];
    assert buf[..] == Overwrite(b, dst, moved);
  }

  /** `az_span_copy` of a source that does not lie in the destination's buffer. */
  method Copy(dst: Span, src: bytes) returns (r: Outcome<Span>)
    requires dst.Valid()
    modifies dst.buf
    ensures r.Success? <==> |src| <= dst.capacity
    ensures r.Success? ==>
      && r.value == dst.(length := |src|)
      && dst.buf[..] == Overwrite(old(dst.buf[..]), dst.ptr, src)
    ensures r.Failure? ==> r.error == BufferOverflow && unchanged(dst.buf)
  {
    if dst.capacity < |src| {
      return Failure(BufferOverflow);
    }
    forall i | 0 <= i < |src| {
      dst.buf[dst.ptr + i] := src[i];
    }
    assert dst.buf[dst.ptr..dst.ptr + |src|] == src;
    return Success(dst.(length := |src|));
  }

  /** `az_span_copy` of one window of a buffer over another, possibly overlapping one. */
  method CopyWithin(dst: Span, src: Span) returns (r: Outcome<Span>)
    requires dst.Valid() && src.Valid() && dst.buf == src.buf
    modifies dst.buf
    ensures r.Success? <==> src.length <= dst.capacity
    ensures r.Success? ==>
      && r.value == dst.(length := src.length)
      && dst.buf[..] == Overwrite(old(dst.buf[..]), dst.ptr, old(src.Contents()))
    ensures r.Failure? ==> r.error == BufferOverflow && unchanged(dst.buf)
  {
    hide Overwrite;
    if dst.capacity < src.length {
      return Failure(BufferOverflow);
    }
    MoveWithin(dst.buf, dst.ptr, src.ptr, src.length);
    return Success(dst.(length := src.length));
  }

  /** `az_span_append`: all or nothing. */
  method Append(self: Span, value: bytes) returns (r: Outcome<Span>)
    requires self.Valid()
    modifies self.buf
    ensures r.Success? <==> self.length + |value| <= self.capacity
    ensures r.Success? ==>
      && r.value == self.(length := self.length + |value|)
      && r.value.Contents() == old(self.Contents()) + value
      && self.buf[..] == Overwrite(old(self.buf[..]), self.ptr + self.length, value)
    ensures r.Failure? ==> r.error == BufferOverflow && unchanged(self.buf)
  {
    var remainder := Drop(self, self.length);
    var c := Copy(remainder, value);
    if c.Failure? {
      return Failure(c.error);
    }
    if remainder.capacity == 0 {
      assert value == [];
      assert self.buf[..] == old(self.buf[..]);
    }
    r := Success(Span(self.buf, self.ptr, self.length + |value|, self.capacity));
    ghost var b := old(self.buf[..]);
    ghost var at := self.ptr + self.length;
    assert self.buf[..] == Overwrite(b, at, value);
    AppendedContents(b, self.ptr, self.length, value);
    assert self.buf[self.ptr..at + |value|] == self.buf[..][self.ptr..at + |value|];
    assert b[self.ptr..at] == old(self.buf[self.ptr..at]);
  }

  lemma AppendedContents(b: bytes, ptr: nat, length: nat, value: bytes)
    requires ptr + length + |value| <= |b|
    ensures Overwrite(b, ptr + length, value)[ptr..ptr + length + |value|] == b[ptr..ptr + length] + value
  {
  }

  /** `_az_span_replace`: the bytes from `start` to `end` give way to `value`; what is
      behind them is moved within the buffer. */
  method Replace(self: Span, start: nat, end: int, value: bytes) returns (r: Outcome<Span>)
    requires self.Valid()
    modifies self.buf
    ensures r.Success?
      <==> start <= end <= self.length && self.length - (end - start) + |value| <= self.capacity
    ensures r.Success? ==>
      && r.value.Valid() && r.value == self.(length := self.length - (end - start) + |value|)
      && r.value.Contents() == old(self.Contents())[..start] + value + old(self.Contents())[end..]
      && OnlyWindow(self, old(self.buf[..]), self.buf[..])
    ensures r.Failure? ==> r.error == Arg && unchanged(self.buf)
  {
    var replacedSize := end - start;
    var sizeAfter := self.length - replacedSize + |value|;
    if !(replacedSize <= self.length) {
      return Failure(Arg);
    }
    if !(start <= self.length && end <= self.length) {
      return Failure(Arg);
    }
    if !(start <= end) {
      return Failure(Arg);
    }
    if !(sizeAfter <= self.capacity) {
      return Failure(Arg);
    }
    Splice(self, start, end, value);
    return Success(self.(length := sizeAfter));
  }

  /** The two writes of `_az_span_replace`, once the sizes have been checked. */
  method Splice(self: Span, start: nat, end: nat, value: bytes)
    requires self.Valid() && start <= end <= self.length
    requires start + |value| + (self.length - end) <= self.capacity
    modifies self.buf
    ensures var size := start + |value| + (self.length - end);
      self.(length := size).Contents() == old(self.Contents())[..start] + value + old(self.Contents())[end..]
    ensures OnlyWindow(self, old(self.buf[..]), self.buf[..])
  {
    hide Overwrite;
    ghost var b := self.buf[..];
    ghost var c := self.Contents();
    assert c == b[self.ptr..self.ptr + self.length];
    MoveTail(self, start + |value|, end);
    PutAt(self, start, value);
    ghost var b2 := self.buf[..];
    Spliced(b, c, self.ptr, start, end, value, b2);
    ghost var size := start + |value| + (self.length - end);
    assert self.(length := size).Contents() == b2[self.ptr..self.ptr + size];
  }

  /** The content from `from` on, moved to `to`. */
  method MoveTail(self: Span, to: nat, from: nat)
    requires self.Valid() && from <= self.length && to + (self.length - from) <= self.capacity
    modifies self.buf
    ensures self.buf[..] == Overwrite(old(self.buf[..]), self.ptr + to, old(self.Contents())[from..])
  {
    var dst := Drop(self, to);
    var src := Drop(self, from);
    assert src.Contents() == self.Contents()[from..];
    var r := CopyWithin(dst, src);
  }

  method PutAt(self: Span, at: nat, value: bytes)
    requires self.Valid() && at + |value| <= self.capacity
    modifies self.buf
    ensures self.buf[..] == Overwrite(old(self.buf[..]), self.ptr + at, value)
  {
    var r := Copy(Drop(self, at), value);
  }

  /** A window with content `c` after its tail has been moved and the new bytes written. */
  lemma Spliced(b: bytes, c: bytes, ptr: nat, start: nat, end: nat, value: bytes, b2: bytes)
    requires start <= end <= |c| && ptr + |c| <= |b| && c == b[ptr..ptr + |c|]
    requires ptr + start + |value| + (|c| - end) <= |b|
    requires b2 == Overwrite(Overwrite(b, ptr + start + |value|, c[end..]), ptr + start, value)
    ensures var size := start + |value| + (|c| - end);
      && |b2| == |b|
      && b2[ptr..ptr + size] == c[..start] + value + c[end..]
      && forall i | 0 <= i < |b| && !(ptr <= i < ptr + size) :: b2[i] == b[i]
  {
  }

  /** Nothing outside the window of `s` has changed. */
  ghost predicate OnlyWindow(s: Span, before: bytes, after: bytes)
    requires s.Valid()
  {
    |before| == |after| == s.buf.Length
    && forall i | 0 <= i < |before| && !(s.ptr <= i < s.ptr + s.capacity) :: after[i] == before[i]
  }

  // ---- Several appends in a row ----

  function Concat(chunks: seq<bytes>): bytes {
    if chunks == [] then [] else chunks[0] + Concat(chunks[1..])
  }

  /** Chunks appended one by one to `now`, up to the first that does not fit; whether all
      fitted, and the text then. */
  function WriteAll(capacity: nat, now: bytes, chunks: seq<bytes>): (bool, bytes)
    decreases |chunks|
  {
    if chunks == [] then (true, now)
    else if |now| + |chunks[0]| > capacity then (false, now)
    else WriteAll(capacity, now + chunks[0], chunks[1..])
  }

  /** All chunks are written exactly when the whole text fits; otherwise what has been
      written is a proper prefix of it. */
  lemma {:induction false} WriteAllExactly(capacity: nat, now: bytes, chunks: seq<bytes>)
    requires |now| <= capacity
    ensures var (ok, out) := WriteAll(capacity, now, chunks);
      && (ok <==> |now| + |Concat(chunks)| <= capacity)
      && now <= out <= now + Concat(chunks)
      && |out| <= capacity
      && (ok <==> out == now + Concat(chunks))
    decreases |chunks|
  {
    if chunks == [] {
      assert now + [] == now;
    } else {
      var c, more := chunks[0], Concat(chunks[1..]);
      assert now + (c + more) == (now + c) + more;
      if |now| + |c| <= capacity {
        WriteAllExactly(capacity, now + c, chunks[1..]);
      }
    }
  }

  lemma WriteOne(capacity: nat, now: bytes, c: bytes, more: seq<bytes>)
    ensures WriteAll(capacity, now, [c] + more)
      == if |now| + |c| > capacity then (false, now) else WriteAll(capacity, now + c, more)
  {
    assert ([c] + more)[1..] == more;
  }

  /** One append of a row, `more` being the chunks that are to follow. */
  method AppendOne(self: Span, c: bytes, ghost more: seq<bytes>) returns (r: Outcome<()>, out: Span)
    requires self.Valid()
    modifies self.buf
    ensures out.Valid() && out == self.(length := out.length)
    ensures r.Success? <==> self.length + |c| <= self.capacity
    ensures r.Success? ==>
      WriteAll(self.capacity, old(self.Contents()), [c] + more) == WriteAll(self.capacity, out.Contents(), more)
    ensures r.Failure? ==> r.error == BufferOverflow
    ensures r.Failure? ==> WriteAll(self.capacity, old(self.Contents()), [c] + more) == (false, out.Contents())
    ensures out.Contents() == if r.Success? then old(self.Contents()) + c else old(self.Contents())
  {
    WriteOne(self.capacity, self.Contents(), c, more);
    var a := Append(self, c);
    if a.Failure? {
      return Failure(a.error), self;
    }
    return Success(()), a.value;
  }

  lemma {:induction false} WriteAllThen(capacity: nat, now: bytes, a: seq<bytes>, b: seq<bytes>)
    ensures var (ok, out) := WriteAll(capacity, now, a);
      WriteAll(capacity, now, a + b) == if ok then WriteAll(capacity, out, b) else (false, out)
    decreases |a|
  {
    if a == [] {
      assert a + b == b;
    } else {
      assert (a + b)[1..] == a[1..] + b;
      if |now| + |a[0]| <= capacity {
        WriteAllThen(capacity, now + a[0], a[1..], b);
      }
    }
  }

  lemma {:induction false} ConcatAppend(a: seq<bytes>, b: seq<bytes>)
    ensures Concat(a + b) == Concat(a) + Concat(b)
    decreases |a|
  {
    if a == [] {
      assert a + b == b;
    } else {
      assert (a + b)[1..] == a[1..] + b;
      ConcatAppend(a[1..], b);
    }
  }

  lemma WriteNothing(capacity: nat, now: bytes)
    ensures WriteAll(capacity, now, []) == (true, now)
  {
  }

  lemma ConcatOne(z: bytes)
    ensures Concat([z]) == z
  {
    assert z + [] == z;
  }
}
