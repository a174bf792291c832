/** Facts about sequences and numbers that several modules need. */
module Basics {

  function Min(a: int, b: int): int { if a < b then a else b }

  lemma Regroup<T>(a: seq<T>, b: seq<T>, c: seq<T>)
    ensures a + b + c == a + (b + c)
  {
  }

  lemma DropStep<T>(s: seq<T>, i: nat)
    requires i < |s|
    ensures s[i..] == [s[i]] + s[i + 1..]
  {
  }

  lemma CutAt<T>(s: seq<T>, i: nat)
    requires i < |s|
    ensures s == s[..i] + [s[i]] + s[i + 1..]
  {
  }

  lemma Behind<T>(a: seq<T>, b: seq<T>)
    ensures (a + b)[|a|..] == b
  {
  }

  lemma Shifted<T>(c: T, b: seq<T>, n: nat)
    requires n <= |b|
    ensures ([c] + b)[..n + 1] == [c] + b[..n] && ([c] + b)[n + 1..] == b[n..]
  {
  }

  lemma SliceOfTake<T>(s: seq<T>, e: nat, x: nat, y: nat)
    requires x <= y <= e <= |s|
    ensures s[..e][x..y] == s[x..y]
  {
  }

  lemma SliceOfDrop<T>(s: seq<T>, d: nat, x: nat, y: nat)
    requires d <= |s| && x <= y <= |s| - d
    ensures s[d..][x..y] == s[d + x..d + y]
  {
  }

  lemma ProductIsNat(a: nat, b: nat)
    ensures a * b >= 0
  {
  }

  lemma DivModUnique(x: int, d: int, k: int, r: int)
    requires 0 <= r < d && x == d * k + r
    ensures x / d == k && x % d == r
  {
    var q := x / d - k;
    assert x == d * (x / d) + x % d;
    assert d * q == r - x % d by { assert d * q == d * (x / d) - d * k; }
    MulBound(d, q);
  }

  lemma MulBound(d: int, q: int)
    requires d > 0
    ensures (q >= 1 ==> d * q >= d) && (q <= -1 ==> d * q <= -d)
  {
  }
}
