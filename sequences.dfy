/** Facts about sequences used by the proofs. */
module Sequences {

  lemma Assoc<T>(a: seq<T>, b: seq<T>, c: seq<T>)
    ensures a + b + c == a + (b + c)
  {
  }

  lemma Assoc4<T>(a: seq<T>, b: seq<T>, c: seq<T>, d: seq<T>)
    ensures a + b + c + d == a + (b + c + d)
  {
  }

  /** A sequence is a prefix of itself followed by anything. */
  lemma PrefixOfConcat<T>(a: seq<T>, b: seq<T>, c: seq<T>)
    ensures a <= a + b + c
  {
    assert (a + b + c)[..|a|] == a;
  }

  lemma Concat3At<T>(a: seq<T>, b: seq<T>, c: seq<T>, i: int)
    requires 0 <= i < |a + b + c|
    ensures (a + b + c)[i] ==
      if i < |a| then a[i] else if i < |a| + |b| then b[i - |a|] else c[i - |a| - |b|]
  {
  }

  lemma Regroup<T>(t: seq<T>, a: seq<T>, b: seq<T>, c: seq<T>)
    ensures t + (a + b + c) == (t + a) + (b + c)
  {
  }

  /** Three elements appended one at a time. */
  lemma Snoc3<T>(t: seq<T>, x: T, y: T, z: T)
    ensures t + [x] + [y] + [z] == t + [x, y, z]
  {
  }

  /** Dropping the first element of a concatenation with a nonempty left part. */
  lemma DropFirst<T>(a: seq<T>, b: seq<T>)
    requires |a| > 0
    ensures (a + b)[1..] == a[1..] + b
  {
  }

  /** Dropping the last element of a concatenation with a nonempty right part. */
  lemma DropLast<T>(t: seq<T>, u: seq<T>)
    requires |u| > 0
    ensures (t + u)[..|t + u| - 1] == t + u[..|u| - 1]
    ensures (t + u)[|t + u| - 1] == u[|u| - 1]
  {
  }

  /** A prefix of a concatenation. */
  lemma TakeConcat<T>(t: seq<T>, u: seq<T>, i: int)
    requires 0 <= i <= |t + u|
    ensures (t + u)[..i] == if i <= |t| then t[..i] else t + u[..i - |t|]
  {
  }

  /** A prefix one element longer. */
  lemma TakeNext<T>(s: seq<T>, j: int)
    requires 0 <= j < |s|
    ensures s[..j + 1] == s[..j] + [s[j]]
  {
  }
}
