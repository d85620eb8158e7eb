/** Sequences without one of their elements, and other facts shared by the modules. */
module Seqs {

  /** The sequence without its k-th element. */
  function Without<T>(s: seq<T>, k: nat): (r: seq<T>)
    requires k < |s|
    ensures |r| == |s| - 1
  {
    s[..k] + s[k + 1..]
  }

  lemma WithoutTail<T>(s: seq<T>, k: nat)
    requires 0 < k < |s|
    ensures Without(s, k) == [s[0]] + Without(s[1..], k - 1)
    ensures Without(s, k)[1..] == Without(s[1..], k - 1) && s[1..][k - 1] == s[k]
  {
  }

  /** The element taken out and the others are those of the sequence. */
  lemma WithoutSame<T>(s: seq<T>, k: nat)
    requires k < |s|
    ensures forall x :: x in [s[k]] + Without(s, k) <==> x in s
  {
    forall i | 0 <= i < |s|
      ensures s[i] in [s[k]] + Without(s, k)
    {
      if i != k {
        assert Without(s, k)[if i < k then i else i - 1] == s[i];
      }
    }
  }

  ghost predicate NoDup<T>(s: seq<T>) {
    forall i, j :: 0 <= i < j < |s| ==> s[i] != s[j]
  }

  lemma Regroup<T>(a: seq<T>, b: seq<T>, c: seq<T>)
    ensures (a + b) + c == a + (b + c)
  {
  }

  /** A sequence that starts with another is that one and the rest. */
  lemma StartsWith<T>(a: seq<T>, s: seq<T>)
    requires a <= s
    ensures s[..|a|] == a && a + s[|a|..] == s
  {
  }

  lemma AllButLast<T>(s: seq<T>)
    requires s != []
    ensures s == s[..|s| - 1] + [s[|s| - 1]]
  {
  }

  lemma TakeTake<T>(s: seq<T>, n: nat, i: nat)
    requires i <= n <= |s|
    ensures s[..n][..i] == s[..i]
  {
  }

  lemma TakeNext<T>(x: T, s: seq<T>, n: nat)
    requires n <= |s|
    ensures ([x] + s)[..n + 1] == [x] + s[..n]
  {
  }

  lemma SameFirst<T>(x: T, a: seq<T>, b: seq<T>)
    requires a <= b
    ensures [x] + a <= [x] + b
  {
  }

  /** Two parts in front of a sequence are a prefix of it. */
  lemma TwoParts<T>(a: seq<T>, b: seq<T>, rest: seq<T>)
    requires b <= rest
    ensures a + b <= a + rest && (a + rest)[..|a| + |b|] == a + b
  {
  }

  /** What is left of a tail once its first part is gone. */
  lemma TailOfTail<T>(s: seq<T>, n: nat, a: seq<T>, rest: seq<T>)
    requires n <= |s| && s[n..] == a + rest
    ensures n + |a| <= |s| && rest == s[n + |a|..] && s[..n] + a == s[..n + |a|]
  {
  }
}
