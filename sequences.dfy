/** Facts about sequence concatenation and slicing that the other modules use in generic form. */
module Sequences {
  lemma EmptyAppend<T>(a: seq<T>, b: seq<T>)
    requires a == []
    ensures a + b == b
  {
  }

  lemma AppendEmpty<T>(a: seq<T>, b: seq<T>)
    requires b == []
    ensures a + b == a
  {
  }

  lemma AppendAssociative<T>(a: seq<T>, b: seq<T>, c: seq<T>)
    ensures a + (b + c) == (a + b) + c
  {
  }

  lemma TailOfAppend<T>(a: seq<T>, b: seq<T>)
    requires a != []
    ensures (a + b)[0] == a[0] && (a + b)[1..] == a[1..] + b
  {
  }

  lemma SuffixStep<T>(s: seq<T>, i: nat)
    requires i < |s|
    ensures s[i..] != [] && s[i..][0] == s[i] && s[i..][1..] == s[i + 1..]
  {
  }

  lemma PrefixAndTail<T>(s: seq<T>, k: nat)
    requires 0 < k <= |s|
    ensures s[..k][0] == s[0] && s[..k][1..] == s[1..][..k - 1]
  {
  }

  lemma IndexAfterPrefix<T>(a: seq<T>, b: seq<T>, j: nat)
    requires j < |b|
    ensures (a + b)[|a| + j] == b[j]
  {
  }

  lemma PrefixOfAppend<T>(a: seq<T>, b: seq<T>, c: seq<T>)
    requires |c| <= |b| && c == b[..|c|]
    ensures |a + c| <= |a + b| && a + c == (a + b)[..|a + c|]
  {
  }

  lemma ConsOfAppend<T>(a: seq<T>, m: seq<T>, x: seq<T>)
    requires |a| >= 1
    ensures (a + m + x)[0] == a[0] && (a + m + x)[1..] == a[1..] + m + x
    ensures [a[0]] + (a[1..] + m + x) == a + m + x
  {
  }
}
