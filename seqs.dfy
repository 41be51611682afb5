/** Facts about sequences that the proofs name explicitly instead of rediscovering. */
module Seqs {
  lemma Assoc<T>(a: seq<T>, b: seq<T>, c: seq<T>)
    ensures (a + b) + c == a + (b + c)
  {
  }

  lemma SnocSplit<T>(a: seq<T>, b: seq<T>)
    requires b != []
    ensures a + b == (a + b[..|b| - 1]) + [b[|b| - 1]]
    ensures b == b[..|b| - 1] + [b[|b| - 1]]
  {
  }

  /** A non-empty sequence is its front followed by its last element. */
  lemma FrontLast<T>(s: seq<T>)
    requires s != []
    ensures s[..|s| - 1] + [s[|s| - 1]] == s
  {
  }

  /** The elements of `m` framed by `h` and `t`. */
  lemma Framed<T>(h: T, m: seq<T>, t: T)
    ensures |[h] + m + [t]| == |m| + 2
    ensures ([h] + m + [t])[0] == h && ([h] + m + [t])[|m| + 1] == t
    ensures forall i :: 0 <= i < |m| ==> ([h] + m + [t])[i + 1] == m[i]
  {
  }

  lemma NotInConcat<T>(x: T, a: seq<T>, b: seq<T>)
    requires x !in a && x !in b
    ensures x !in a + b
  {
  }

  lemma SliceOfDrop<T>(s: seq<T>, i: nat, j: nat)
    requires i <= j <= |s|
    ensures s[i..j] == s[i..][..j - i]
  {
  }

  lemma SliceOfSlice<T>(s: seq<T>, a: nat, b: nat, c: nat, d: nat)
    requires a <= b <= |s| && c <= d <= b - a
    ensures s[a..b][c..d] == s[a + c..a + d]
  {
    var t := s[a..b];
    var u := t[c..d];
    assert |u| == d - c;
    forall x | 0 <= x < |u| ensures u[x] == s[a + c + x] {
      assert u[x] == t[c + x];
    }
  }
  lemma TakeDrop<T>(s: seq<T>, k: nat)
    requires k <= |s|
    ensures s[..k] + s[k..] == s
  {
  }

  /** A slice that ends one further is the shorter slice and one more element. */
  lemma SliceSnoc<T>(s: seq<T>, a: nat, b: nat)
    requires a <= b < |s|
    ensures s[a..b + 1] == s[a..b] + [s[b]]
  {
  }

  lemma TakeOfSlice<T>(s: seq<T>, a: nat, b: nat, n: nat)
    requires a <= b <= |s| && n <= b - a
    ensures s[a..b][..n] == s[a..a + n]
  {
  }

  lemma DropOfSlice<T>(s: seq<T>, a: nat, b: nat, n: nat)
    requires a <= b <= |s| && n <= b - a
    ensures s[a..b][n..] == s[a + n..b]
  {
  }
  /** Slices of `b + r` that start inside `b`. */
  lemma ConcatSlices<T>(b: seq<T>, r: seq<T>, a: nat, c: nat)
    requires a <= c <= |b|
    ensures (b + r)[a..c] == b[a..c]
    ensures (b + r)[a..] == b[a..] + r
  {
  }

  /** A prefix is its first element, the slice after it, and its last element. */
  lemma HeadMiddleLast<T>(s: seq<T>, j: nat)
    requires 1 <= j < |s|
    ensures s[..j + 1] == [s[0]] + (s[1..j] + [s[j]])
  {
  }
  /** Taking the first element out of the middle part. */
  lemma HeadOut<T>(a: seq<T>, x: seq<T>, r1: seq<T>, r2: seq<T>)
    requires x != []
    ensures a + ((x + r1) + r2) == a + [x[0]] + ((x[1..] + r1) + r2)
  {
    assert x == [x[0]] + x[1..];
  }
}
