/** Sequence reversal, prefixes and the in-place swap loop the listings and base58 share. */
module Sequences {

  function Reversed<T>(s: seq<T>): (r: seq<T>)
    ensures |r| == |s|
    ensures forall i | 0 <= i < |s| :: r[i] == s[|s| - 1 - i]
  {
    seq(|s|, i requires 0 <= i < |s| => s[|s| - 1 - i])
  }

  lemma ReversedTwice<T>(s: seq<T>)
    ensures Reversed(Reversed(s)) == s
  {
  }

  lemma ReversedConcat<T>(a: seq<T>, b: seq<T>)
    ensures Reversed(a + b) == Reversed(b) + Reversed(a)
  {
  }

  lemma ReversedTake<T>(s: seq<T>, n: nat)
    requires n <= |s|
    ensures Reversed(s[..n]) == Reversed(s)[|s| - n..]
    ensures Reversed(s[n..]) == Reversed(s)[..|s| - n]
  {
  }

  /** At most the first n elements. */
  function Take<T>(s: seq<T>, n: nat): (r: seq<T>)
    ensures |r| == if n <= |s| then n else |s|
    ensures forall i | 0 <= i < |r| :: r[i] == s[i]
  {
    if n <= |s| then s[..n] else s
  }

  /** The first n elements from the back, turned round, are the last n. */
  lemma LastOnes<T>(s: seq<T>, n: nat)
    ensures Reversed(Take(Reversed(s), n)) == s[if |s| > n then |s| - n else 0..]
  {
  }

  /** Swapping from both ends to the middle reverses a list. */
  method SwapReverse<T>(list: seq<T>) returns (r: seq<T>)
    ensures r == Reversed(list)
  {
    r := list;
    var i, j := 0, |list| - 1;
    while i < j
      invariant |r| == |list| && 0 <= i && j == |list| - 1 - i
      invariant i <= j + 1
      invariant forall k | 0 <= k < i || j < k < |list| :: r[k] == list[|list| - 1 - k]
      invariant forall k | i <= k <= j :: r[k] == list[k]
    {
      r := r[i := r[j]][j := r[i]];
      i, j := i + 1, j - 1;
    }
  }
}
