/** Texts cut at a separator byte: paths at slashes, query strings and form bodies at
    ampersands and equal signs. */
module Separated {
  import opened Basics

  const EQUALS: byte := 0x3D

  /** The first index of `c`, or the length. */
  function IndexOf(s: bytes, c: byte): (i: nat)
    ensures i <= |s| && (i < |s| ==> s[i] == c) && (forall j | 0 <= j < i :: s[j] != c)
  {
    if s == [] || s[0] == c then 0 else 1 + IndexOf(s[1..], c)
  }

  lemma {:induction false} IndexOfIs(a: bytes, c: byte, k: bytes)
    requires forall i | 0 <= i < |a| :: a[i] != c
    ensures IndexOf(a + ([c] + k), c) == |a|
  {
    var s := a + ([c] + k);
    assert s[|a|] == c;
    assert forall i | 0 <= i < |a| :: s[i] == a[i];
  }

  /** The pieces of `s` between the separators. */
  function Split(s: bytes, c: byte): (pieces: seq<bytes>)
    ensures pieces != []
    decreases |s|
  {
    var i := IndexOf(s, c);
    if i == |s| then [s] else [s[..i]] + Split(s[i + 1..], c)
  }

  lemma SplitLast(x: bytes, c: byte)
    requires c !in x
    ensures Split(x, c) == [x]
  {
  }

  lemma SplitFirst(x: bytes, c: byte, k: bytes)
    requires c !in x
    ensures Split(x + ([c] + k), c) == [x] + Split(k, c)
  {
    var s := x + ([c] + k);
    IndexOfIs(x, c, k);
    assert s[..|x|] == x && s[|x| + 1..] == k;
  }

  // ---- Forms: name=value&name=value ----

  datatype FormField = FormField(name: bytes, value: bytes)

  /** Cut at the first equal sign. */
  function FieldOf(piece: bytes): FormField {
    var i := IndexOf(piece, EQUALS);
    if i == |piece| then FormField(piece, []) else FormField(piece[..i], piece[i + 1..])
  }

  function FieldsOf(pieces: seq<bytes>): (fields: seq<FormField>)
    ensures |fields| == |pieces|
  {
    if pieces == [] then [] else [FieldOf(pieces[0])] + FieldsOf(pieces[1..])
  }

  function Fields(s: bytes): seq<FormField> {
    FieldsOf(Split(s, AMP))
  }

  lemma FieldIs(name: bytes, value: bytes)
    requires EQUALS !in name
    ensures FieldOf(name + ([EQUALS] + value)) == FormField(name, value)
  {
    var s := name + ([EQUALS] + value);
    IndexOfIs(name, EQUALS, value);
    assert s[..|name|] == name && s[|name| + 1..] == value;
  }

  lemma FieldsFirst(name: bytes, value: bytes, k: bytes)
    requires EQUALS !in name && AMP !in name && AMP !in value
    ensures Fields(name + ([EQUALS] + value) + ([AMP] + k)) == [FormField(name, value)] + Fields(k)
  {
    hide Split, FieldOf;
    var piece := name + ([EQUALS] + value);
    FieldIs(name, value);
    SplitFirst(piece, AMP, k);
    assert ([piece] + Split(k, AMP))[1..] == Split(k, AMP);
  }

  lemma FieldsLast(name: bytes, value: bytes)
    requires EQUALS !in name && AMP !in name && AMP !in value
    ensures Fields(name + ([EQUALS] + value)) == [FormField(name, value)]
  {
    hide Split, FieldOf;
    var piece := name + ([EQUALS] + value);
    FieldIs(name, value);
    SplitLast(piece, AMP);
    assert FieldsOf([piece][1..]) == [];
  }
}
