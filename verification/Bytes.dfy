/** Byte strings: the lexicographic order of Go's bytes.Compare and big-endian numbers. */
module Bytes {

  type byte = b: int | 0 <= b < 256

  type Bytes = seq<byte>

  /** bytes.Compare(a, b) < 0. */
  predicate Less(a: Bytes, b: Bytes) {
    if b == [] then false
    else if a == [] then true
    else a[0] < b[0] || (a[0] == b[0] && Less(a[1..], b[1..]))
  }

  /** a is a proper prefix of b, or is smaller at the first byte where they differ. */
  ghost predicate Before(a: Bytes, b: Bytes) {
    exists k: nat :: ComesFirst(a, b, k)
  }

  /** They agree before position k, and there a has ended or is smaller. */
  ghost predicate ComesFirst(a: Bytes, b: Bytes, k: nat) {
    k <= |a| && k < |b| && (forall i | 0 <= i < k :: a[i] == b[i]) && (k == |a| || a[k] < b[k])
  }

  lemma {:induction false} LessExactly(a: Bytes, b: Bytes)
    ensures Less(a, b) <==> Before(a, b)
  {
    if a != [] && b != [] && a[0] == b[0] {
      LessExactly(a[1..], b[1..]);
      BeforeBehind(a, b);
    } else {
      BeforeAtOnce(a, b);
    }
  }

  /** Behind an equal first byte nothing changes. */
  lemma BeforeBehind(a: Bytes, b: Bytes)
    requires a != [] && b != [] && a[0] == b[0]
    ensures Before(a, b) <==> Before(a[1..], b[1..])
  {
    if k: nat :| ComesFirst(a, b, k) {
      FirstBehind(a, b, k - 1);
    }
    if k: nat :| ComesFirst(a[1..], b[1..], k) {
      FirstBehind(a, b, k);
    }
  }

  lemma FirstBehind(a: Bytes, b: Bytes, k: nat)
    requires a != [] && b != [] && a[0] == b[0]
    ensures ComesFirst(a[1..], b[1..], k) <==> ComesFirst(a, b, k + 1)
  {
    if ComesFirst(a[1..], b[1..], k) {
      forall i | 0 < i < k + 1
        ensures a[i] == b[i]
      {
        assert a[1..][i - 1] == b[1..][i - 1];
      }
    }
  }

  lemma BeforeAtOnce(a: Bytes, b: Bytes)
    requires a == [] || b == [] || a[0] != b[0]
    ensures Before(a, b) <==> b != [] && (a == [] || a[0] < b[0])
  {
    if b != [] && (a == [] || a[0] < b[0]) {
      assert ComesFirst(a, b, 0);
    }
  }

  lemma {:induction false} LessIrreflexive(a: Bytes)
    ensures !Less(a, a)
  {
    if a != [] {
      LessIrreflexive(a[1..]);
    }
  }

  lemma {:induction false} LessTransitive(a: Bytes, b: Bytes, c: Bytes)
    requires Less(a, b) && Less(b, c)
    ensures Less(a, c)
  {
    if a != [] && a[0] == b[0] == c[0] {
      LessTransitive(a[1..], b[1..], c[1..]);
    }
  }

  lemma {:induction false} LessTotal(a: Bytes, b: Bytes)
    ensures Less(a, b) || a == b || Less(b, a)
  {
    if a != [] && b != [] && a[0] == b[0] {
      LessTotal(a[1..], b[1..]);
      assert a == [a[0]] + a[1..] && b == [b[0]] + b[1..];
    }
  }

  lemma LessAsymmetric(a: Bytes, b: Bytes)
    requires Less(a, b)
    ensures !Less(b, a) && a != b
  {
    LessIrreflexive(a);
    if Less(b, a) {
      LessTransitive(a, b, a);
    }
  }

  /** Comparing two strings with a common prefix is comparing what follows it. */
  lemma {:induction false} LessCommonPrefix(p: Bytes, a: Bytes, b: Bytes)
    ensures Less(p + a, p + b) <==> Less(a, b)
  {
    if p == [] {
      assert p + a == a && p + b == b;
    } else {
      assert (p + a)[1..] == p[1..] + a && (p + b)[1..] == p[1..] + b;
      LessCommonPrefix(p[1..], a, b);
    }
  }

  /** Two prefixes of one length that are ordered decide the order. */
  lemma {:induction false} LessByPrefix(p: Bytes, q: Bytes, a: Bytes, b: Bytes)
    requires |p| == |q| && Less(p, q)
    ensures Less(p + a, q + b)
  {
    assert (p + a)[1..] == p[1..] + a && (q + b)[1..] == q[1..] + b;
    if p[0] == q[0] {
      LessByPrefix(p[1..], q[1..], a, b);
    }
  }

  /** 256 to the power k. */
  function Pow256(k: nat): (r: nat)
    ensures r >= 1
  {
    if k == 0 then 1 else 256 * Pow256(k - 1)
  }

  /** The number whose big-endian digits are b. */
  function BigEndian(b: Bytes): nat {
    if b == [] then 0 else BigEndian(b[..|b| - 1]) * 256 + b[|b| - 1]
  }

  /** The low k bytes of n, most significant first. */
  function ToBigEndian(n: nat, k: nat): (r: Bytes)
    ensures |r| == k
  {
    if k == 0 then [] else ToBigEndian(n / 256, k - 1) + [n % 256]
  }

  lemma {:induction false} BigEndianBound(b: Bytes)
    ensures BigEndian(b) < Pow256(|b|)
  {
    if b != [] {
      BigEndianBound(b[..|b| - 1]);
    }
  }

  lemma {:induction false} BigEndianOfTo(n: nat, k: nat)
    requires n < Pow256(k)
    ensures BigEndian(ToBigEndian(n, k)) == n
  {
    if k > 0 {
      BigEndianOfTo(n / 256, k - 1);
      var r := ToBigEndian(n, k);
      assert r[..k - 1] == ToBigEndian(n / 256, k - 1);
    }
  }

  lemma {:induction false} ToOfBigEndian(b: Bytes)
    ensures ToBigEndian(BigEndian(b), |b|) == b
  {
    if b != [] {
      ToOfBigEndian(b[..|b| - 1]);
      assert b == b[..|b| - 1] + [b[|b| - 1]];
    }
  }

  /** Big-endian digits of one length are ordered as the numbers they stand for. */
  lemma {:induction false} BigEndianMonotone(m: nat, n: nat, k: nat)
    requires m < n < Pow256(k)
    ensures Less(ToBigEndian(m, k), ToBigEndian(n, k))
  {
    if m / 256 < n / 256 {
      BigEndianMonotone(m / 256, n / 256, k - 1);
      LessByPrefix(ToBigEndian(m / 256, k - 1), ToBigEndian(n / 256, k - 1), [m % 256], [n % 256]);
    } else {
      LessCommonPrefix(ToBigEndian(m / 256, k - 1), [m % 256], [n % 256]);
    }
  }
}
