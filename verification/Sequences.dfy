/** Equations between slices and concatenations. */
module Sequences {
  lemma Assoc<T>(x: seq<T>, y: seq<T>, z: seq<T>)
    ensures x + (y + z) == x + y + z
  {
  }

  lemma Halves<T>(s: seq<T>, m: nat)
    requires m <= |s|
    ensures s == s[0..m] + s[m..|s|] && s == s[..m] + s[m..]
  {
  }

  lemma DropDrop<T>(s: seq<T>, i: nat, j: nat)
    requires i + j <= |s|
    ensures s[i..][j..] == s[i + j..]
  {
  }

  lemma AppendDrop<T>(a: seq<T>, b: seq<T>, k: nat)
    requires k <= |a|
    ensures (a + b)[k..] == a[k..] + b
  {
  }

  lemma AppendParts<T>(a: seq<T>, b: seq<T>)
    ensures (a + b)[..|a|] == a && (a + b)[|a|..] == b
  {
  }

  lemma Glue<T>(whole: seq<T>, done: seq<T>, rest: seq<T>, next: seq<T>, last: seq<T>)
    requires whole == done + rest && rest == next + last
    ensures whole == done + next + last
  {
  }

  lemma SliceOfTake<T>(s: seq<T>, i: nat, j: nat, n: nat)
    requires i <= j <= n <= |s|
    ensures s[0..n][i..j] == s[i..j]
  {
  }

  lemma Last<T>(s: seq<T>)
    requires s != []
    ensures s == s[..|s| - 1] + [s[|s| - 1]]
  {
  }

  /** Elements of two sequences with a third put between them. */
  lemma PutBetween<T>(a: seq<T>, b: seq<T>, mid: seq<T>, j: nat)
    requires j < |a| + |mid| + |b|
    ensures j < |a| ==> (a + mid + b)[j] == (a + b)[j]
    ensures |a| <= j < |a| + |mid| ==> (a + mid + b)[j] == mid[j - |a|]
    ensures |a| + |mid| <= j ==> (a + mid + b)[j] == (a + b)[j - |mid|]
  {
  }

  lemma ConsAppend<T>(a: seq<T>, b: seq<T>)
    requires a != []
    ensures a + b == [a[0]] + (a[1..] + b)
  {
  }
}
