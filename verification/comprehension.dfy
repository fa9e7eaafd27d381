/**
 The two-level list comprehension `[f(a, b) for a in outer for b in inner]`:
 `a` is bound by the outer loop and `b` by the inner one, so consecutive
 results share their `a` and run through every `b` before `a` advances.
 */
module Comprehension {

  /** `[f(a, b) for b in inner]` for one fixed outer element a. */
  function Row<A, B, C>(a: A, inner: seq<B>, f: (A, B) -> C): (r: seq<C>)
    ensures |r| == |inner|
  {
    if |inner| == 0 then [] else [f(a, inner[0])] + Row(a, inner[1..], f)
  }

  /** Position j of the row combines a with the j-th inner element. */
  lemma {:induction false} RowAt<A, B, C>(a: A, inner: seq<B>, f: (A, B) -> C, j: nat)
    requires j < |inner|
    ensures Row(a, inner, f)[j] == f(a, inner[j])
  {
    if j > 0 {
      RowAt(a, inner[1..], f, j - 1);
    }
  }

  /** A row over `[x] + rest` starts with f(a, x) followed by the row over rest. */
  lemma RowCons<A, B, C>(a: A, x: B, rest: seq<B>, f: (A, B) -> C)
    ensures Row(a, [x] + rest, f) == [f(a, x)] + Row(a, rest, f)
  {
    assert ([x] + rest)[0] == x;
    assert ([x] + rest)[1..] == rest;
  }

  /** `[f(a, b) for a in outer for b in inner]`: one row per outer element,
      rows in the order of `outer` (NestedLength and NestedAt give the size
      and the exact positions). */
  function Nested<A, B, C>(outer: seq<A>, inner: seq<B>, f: (A, B) -> C): seq<C>
  {
    if |outer| == 0 then [] else Row(outer[0], inner, f) + Nested(outer[1..], inner, f)
  }

  /** One result per combination of an outer and an inner element. */
  lemma {:induction false} NestedLength<A, B, C>(outer: seq<A>, inner: seq<B>, f: (A, B) -> C)
    ensures |Nested(outer, inner, f)| == |outer| * |inner|
  {
    if |outer| > 0 {
      NestedLength(outer[1..], inner, f);
      BlockCount(|outer|, |inner|);
    }
  }

  /** The result at position `i * |inner| + j` combines the i-th outer with
      the j-th inner element: the inner loop varies fastest. */
  lemma {:induction false} NestedAt<A, B, C>(outer: seq<A>, inner: seq<B>, f: (A, B) -> C, i: nat, j: nat)
    requires i < |outer| && j < |inner|
    ensures i * |inner| + j < |Nested(outer, inner, f)|
    ensures Nested(outer, inner, f)[i * |inner| + j] == f(outer[i], inner[j])
  {
    var m := |inner|;
    var row := Row(outer[0], inner, f);
    var rest := Nested(outer[1..], inner, f);
    var r := Nested(outer, inner, f);
    assert r == row + rest;
    NestedLength(outer, inner, f);
    NestedLength(outer[1..], inner, f);
    var k := i * m + j;
    if i == 0 {
      assert k == j;
      RowAt(outer[0], inner, f, j);
      assert r[k] == row[j];
    } else {
      NestedAt(outer[1..], inner, f, i - 1, j);
      var k' := (i - 1) * m + j;
      assert k == m + k' by {
        BlockIndex(i, j, m, |outer|);
      }
      assert r[k] == rest[k'];
      assert outer[1..][i - 1] == outer[i];
    }
  }

  /** n blocks of m are one block followed by n - 1 blocks. */
  lemma BlockCount(n: nat, m: nat)
    requires n > 0
    ensures n * m == m + (n - 1) * m
  {
  }

  /** Position j of block i lies in the blocks after the first, at position
      j of block i - 1 there. */
  lemma BlockIndex(i: nat, j: nat, m: nat, n: nat)
    requires 0 < i < n && j < m
    ensures i * m + j == m + ((i - 1) * m + j)
    ensures (i - 1) * m + j < (n - 1) * m
  {
    assert i * m == m + (i - 1) * m;
    assert (i - 1) * m + m <= (n - 1) * m by {
      assert (i - 1) * m + m == i * m;
      MulMono(i, n - 1, m);
    }
  }

  lemma MulMono(a: nat, b: nat, m: nat)
    requires a <= b
    ensures a * m <= b * m
  {
    assert b * m == a * m + (b - a) * m;
  }

  /** An element is in the comprehension exactly when it combines some
      outer element with some inner element. */
  lemma {:induction false} NestedMember<A, B, C>(outer: seq<A>, inner: seq<B>, f: (A, B) -> C, c: C)
    ensures c in Nested(outer, inner, f) <==>
            exists a, b :: a in outer && b in inner && c == f(a, b)
  {
    if |outer| > 0 {
      NestedMember(outer[1..], inner, f, c);
      var row := Row(outer[0], inner, f);
      assert Nested(outer, inner, f) == row + Nested(outer[1..], inner, f);
      if c in row {
        var j :| 0 <= j < |row| && row[j] == c;
        RowAt(outer[0], inner, f, j);
        assert outer[0] in outer && inner[j] in inner;
      }
      if exists a, b :: a in outer && b in inner && c == f(a, b) {
        var a, b :| a in outer && b in inner && c == f(a, b);
        if a == outer[0] {
          var j :| 0 <= j < |inner| && inner[j] == b;
          RowAt(outer[0], inner, f, j);
          assert row[j] == c;
        } else {
          assert a in outer[1..];
        }
      }
    }
  }
}
