/** Map encoding does not see Go's iteration order, and text keys come out shortest first. */
module CborOrder {
  import opened Bytes
  import opened Cbor
  import opened CborProofs
  import opened CborTheorems
  import opened Sets

  /** Equality of Go values: maps are compared by key, whatever order their pairs are listed in. */
  ghost predicate SameTree(v: Value, w: Value)
    decreases v
  {
    match (v, w)
    case (Array(a), Array(b)) => |a| == |b| && forall i | 0 <= i < |a| :: SameTree(a[i], b[i])
    case (Map(p), Map(q)) =>
      |p| == |q| && forall i | 0 <= i < |p| :: HasLike(p[i], q)
    case _ => v == w
  }

  ghost predicate SamePair(p: Pair, q: Pair)
    decreases p, 0
  {
    p.key == q.key && SameTree(p.value, q.value)
  }

  /** Some pair of q is the same entry as p. */
  ghost predicate HasLike(p: Pair, q: seq<Pair>)
    decreases p, 1
  {
    exists j | 0 <= j < |q| :: SamePair(p, q[j])
  }

  /** Every key of a canonical pair list is above the one before the list. */
  lemma {:induction false} KeysAbove(pairs: seq<Pair>, prev: Bytes)
    requires AreCanonicalPairs(pairs, prev)
    ensures forall q | q in pairs :: Less(prev, Emit(q.key))
  {
    hide Emit, IsCanonicalPair;
    if pairs != [] {
      var k := Emit(pairs[0].key);
      KeysAbove(pairs[1..], k);
      forall q | q in pairs
        ensures Less(prev, Emit(q.key))
      {
        if q != pairs[0] {
          assert q in pairs[1..];
          LessTransitive(prev, k, Emit(q.key));
        }
      }
    }
  }

  /** The tail of a canonical pair list is the list without its first pair. */
  lemma TailMembers(pairs: seq<Pair>, prev: Bytes)
    requires pairs != [] && AreCanonicalPairs(pairs, prev)
    ensures forall q :: q in pairs[1..] <==> q in pairs && q != pairs[0]
  {
    hide Emit, IsCanonicalPair;
    KeysAbove(pairs[1..], Emit(pairs[0].key));
    LessIrreflexive(Emit(pairs[0].key));
  }

  /** A canonical pair list is determined by its pairs. */
  lemma {:induction false} SortedUnique(a: seq<Pair>, b: seq<Pair>, prev: Bytes)
    requires AreCanonicalPairs(a, prev) && AreCanonicalPairs(b, prev)
    requires forall q :: q in a <==> q in b
    ensures a == b
  {
    hide Emit, IsCanonicalPair;
    if a == [] {
      assert forall i: nat | i < |b| :: b[i] in b;
    } else {
      assert a[0] in b && b[0] in b;
      if a[0] != b[0] {
        assert a[0] in b[1..] && b[0] in a[1..];
        KeysAbove(a[1..], Emit(a[0].key));
        KeysAbove(b[1..], Emit(b[0].key));
        LessAsymmetric(Emit(a[0].key), Emit(b[0].key));
      }
      TailMembers(a, prev);
      TailMembers(b, prev);
      SortedUnique(a[1..], b[1..], Emit(a[0].key));
      assert a == [a[0]] + a[1..] && b == [b[0]] + b[1..];
    }
  }

  lemma {:induction false} CanonItemsAt(items: seq<Value>, i: nat)
    requires i < |items|
    ensures CanonItems(items)[i] == Canon(items[i])
  {
    hide Canon;
    if i > 0 {
      CanonItemsAt(items[1..], i - 1);
    }
  }

  /** The same value always has the same sorted form. */
  lemma {:induction false} SameTreeSameCanon(v: Value, w: Value)
    requires IsEncodable(v) && IsEncodable(w) && SameTree(v, w)
    ensures Canon(v) == Canon(w)
    decreases v
  {
    match (v, w)
    case (Array(a), Array(b)) =>
      forall i | 0 <= i < |a|
        ensures CanonItems(a)[i] == CanonItems(b)[i]
      {
        SameTreeSameCanon(a[i], b[i]);
        CanonItemsAt(a, i);
        CanonItemsAt(b, i);
      }
    case (Map(p), Map(q)) =>
      SamePairsSameCanon(p, q);
    case _ =>
  }

  lemma {:induction false} SamePairCanon(p: Pair, q: Pair)
    requires EncodablePair(p) && EncodablePair(q) && SamePair(p, q)
    ensures CanonPair(p) == CanonPair(q)
    decreases p
  {
    SameTreeSameCanon(p.value, q.value);
  }

  ghost predicate DistinctKeys(p: seq<Pair>) {
    forall i, j | 0 <= i < j < |p| :: p[i].key != p[j].key
  }

  /** The keys of a canonical map are distinct. */
  lemma {:induction false} CanonicalDistinct(pairs: seq<Pair>, prev: Bytes)
    requires AreCanonicalPairs(pairs, prev)
    ensures DistinctKeys(pairs)
  {
    hide Emit, IsCanonicalPair;
    if pairs != [] {
      var k := Emit(pairs[0].key);
      CanonicalDistinct(pairs[1..], k);
      KeysAbove(pairs[1..], k);
      LessIrreflexive(k);
      forall j | 0 < j < |pairs|
        ensures pairs[j].key != pairs[0].key
      {
        assert pairs[j] in pairs[1..];
      }
      assert forall j | 0 < j < |pairs| :: pairs[j] == pairs[1..][j - 1];
    }
  }

  lemma {:induction false} CanonicalMembers(pairs: seq<Pair>, prev: Bytes)
    requires AreCanonicalPairs(pairs, prev)
    ensures forall p | p in pairs :: IsCanonicalPair(p)
  {
    hide Emit, IsCanonicalPair;
    if pairs != [] {
      CanonicalMembers(pairs[1..], Emit(pairs[0].key));
      assert pairs == [pairs[0]] + pairs[1..];
    }
  }

  /** A decoded item can be encoded: it is canonical already. */
  lemma {:induction false} CanonicalEncodable(v: Value)
    requires IsCanonical(v)
    ensures IsEncodable(v)
    decreases v
  {
    match v
    case Array(items) => CanonicalItemsEncodable(items);
    case Map(pairs) =>
      CanonicalDistinct(pairs, []);
      CanonicalMembers(pairs, []);
      CanonicalPairsEncodable(pairs);
    case _ =>
  }

  lemma {:induction false} CanonicalItemsEncodable(items: seq<Value>)
    requires AreCanonical(items)
    ensures forall i | 0 <= i < |items| :: IsEncodable(items[i])
    decreases items
  {
    hide IsCanonical, IsEncodable;
    if items != [] {
      CanonicalEncodable(items[0]);
      CanonicalItemsEncodable(items[1..]);
      assert forall i | 0 < i < |items| :: items[i] == items[1..][i - 1];
    }
  }

  lemma {:induction false} CanonicalPairsEncodable(pairs: seq<Pair>)
    requires forall p | p in pairs :: IsCanonicalPair(p)
    ensures forall i | 0 <= i < |pairs| :: EncodablePair(pairs[i])
    decreases pairs, 0
  {
    forall i | 0 <= i < |pairs|
      ensures EncodablePair(pairs[i])
    {
      assert pairs[i] in pairs;
      CanonicalPairEncodable(pairs[i]);
    }
  }

  lemma {:induction false} CanonicalPairEncodable(p: Pair)
    requires IsCanonicalPair(p)
    ensures EncodablePair(p)
    decreases p
  {
    CanonicalEncodable(p.value);
  }

  ghost predicate EncodablePairs(p: seq<Pair>) {
    DistinctKeys(p) && forall i | 0 <= i < |p| :: EncodablePair(p[i])
  }

  ghost predicate HasKey(k: Value, p: seq<Pair>) {
    exists i | 0 <= i < |p| :: p[i].key == k
  }

  /** Some pair of q has p's key and sorts as p does. */
  ghost predicate SortsAs(p: Pair, q: seq<Pair>) {
    exists j | 0 <= j < |q| :: q[j].key == p.key && CanonPair(q[j]) == CanonPair(p)
  }

  /** A matching of pairs with distinct keys on both sides and equal sizes is onto. */
  lemma KeysCovered(p: seq<Pair>, q: seq<Pair>)
    requires DistinctKeys(p) && DistinctKeys(q) && |p| == |q|
    requires forall i | 0 <= i < |p| :: HasKey(p[i].key, q)
    ensures forall j | 0 <= j < |q| :: HasKey(q[j].key, p)
  {
    var kp := set i | 0 <= i < |p| :: p[i].key;
    var kq := set j | 0 <= j < |q| :: q[j].key;
    KeySetSize(p);
    KeySetSize(q);
    SubsetSize(kp, kq);
    forall j | 0 <= j < |q|
      ensures HasKey(q[j].key, p)
    {
      assert q[j].key in kp;
    }
  }

  lemma {:induction false} KeySetSize(p: seq<Pair>)
    requires DistinctKeys(p)
    ensures |set i | 0 <= i < |p| :: p[i].key| == |p|
  {
    var keys := set i | 0 <= i < |p| :: p[i].key;
    if p != [] {
      var last := |p| - 1;
      KeySetSize(p[..last]);
      var before := set i | 0 <= i < last :: p[..last][i].key;
      forall k
        ensures k in keys <==> k in before + {p[last].key}
      {
        if k in keys {
          var i :| 0 <= i < |p| && p[i].key == k;
          assert i == last || p[..last][i].key == k;
        }
        if k in before {
          var i :| 0 <= i < last && p[..last][i].key == k;
          assert p[i].key == k;
        }
      }
      assert keys == before + {p[last].key} && p[last].key !in before;
    }
  }

  /** Every entry of p is in q, and so sorts to an entry of q's sorted list. */
  lemma {:induction false} EntriesFollow(p: seq<Pair>, q: seq<Pair>)
    requires EncodablePairs(p) && EncodablePairs(q)
    requires forall i | 0 <= i < |p| :: HasLike(p[i], q)
    ensures forall i | 0 <= i < |p| :: SortsAs(p[i], q)
    decreases p, 0
  {
    hide CanonPair, EncodablePair, SameTree;
    forall i | 0 <= i < |p|
      ensures SortsAs(p[i], q)
    {
      var j :| 0 <= j < |q| && SamePair(p[i], q[j]);
      SamePairCanon(p[i], q[j]);
    }
  }

  /** Maps with the same entries sort to the same list. */
  lemma {:induction false} SamePairsSameCanon(p: seq<Pair>, q: seq<Pair>)
    requires EncodablePairs(p) && EncodablePairs(q) && |p| == |q|
    requires forall i | 0 <= i < |p| :: HasLike(p[i], q)
    ensures CanonPairs(p) == CanonPairs(q)
    decreases p, 1
  {
    hide CanonPair, CanonPairs, EncodablePair, HasLike, AreCanonicalPairs;
    EntriesFollow(p, q);
    SortedForward(p, q);
    KeysCovered(p, q);
    SortedBack(p, q);
    hide SortsTo, SortsAs, HasKey;
    CanonPairsMembers(p);
    CanonPairsMembers(q);
    CanonPairsCanonical(p);
    CanonPairsCanonical(q);
    SortedUnique(CanonPairs(p), CanonPairs(q), []);
  }

  lemma SortedForward(p: seq<Pair>, q: seq<Pair>)
    requires forall i | 0 <= i < |p| :: SortsAs(p[i], q)
    ensures forall i | 0 <= i < |p| :: HasKey(p[i].key, q) && SortsTo(CanonPair(p[i]), q)
    ensures forall x | SortsTo(x, p) :: SortsTo(x, q)
  {
    hide CanonPair;
    forall i | 0 <= i < |p|
      ensures HasKey(p[i].key, q) && SortsTo(CanonPair(p[i]), q)
    {
      assert SortsAs(p[i], q);
    }
  }

  lemma SortedBack(p: seq<Pair>, q: seq<Pair>)
    requires DistinctKeys(q)
    requires forall i | 0 <= i < |p| :: SortsAs(p[i], q)
    requires forall j | 0 <= j < |q| :: HasKey(q[j].key, p)
    ensures forall x | SortsTo(x, q) :: SortsTo(x, p)
  {
    hide CanonPair;
    forall j | 0 <= j < |q|
      ensures SortsTo(CanonPair(q[j]), p)
    {
      assert HasKey(q[j].key, p);
      var i :| 0 <= i < |p| && p[i].key == q[j].key;
      assert SortsAs(p[i], q);
      var j' :| 0 <= j' < |q| && q[j'].key == p[i].key && CanonPair(q[j']) == CanonPair(p[i]);
      assert j' == j;
    }
  }

  /** Trees with one sorted form are the same value. */
  lemma {:induction false} SameCanonSameTree(v: Value, w: Value)
    requires Canon(v) == Canon(w)
    ensures SameTree(v, w)
    decreases v
  {
    match (v, w)
    case (Array(a), Array(b)) =>
      forall i | 0 <= i < |a|
        ensures SameTree(a[i], b[i])
      {
        CanonItemsAt(a, i);
        CanonItemsAt(b, i);
        SameCanonSameTree(a[i], b[i]);
      }
    case (Map(p), Map(q)) =>
      SameCanonCovered(p, q);
    case _ =>
  }

  lemma {:induction false} SameCanonPair(p: Pair, q: Pair)
    requires CanonPair(p) == CanonPair(q)
    ensures SamePair(p, q)
    decreases p
  {
    SameCanonSameTree(p.value, q.value);
  }

  lemma {:induction false} SameCanonCovered(p: seq<Pair>, q: seq<Pair>)
    requires CanonPairs(p) == CanonPairs(q)
    ensures |p| == |q| && forall i | 0 <= i < |p| :: HasLike(p[i], q)
    decreases p
  {
    hide CanonPair, CanonPairs, SameTree;
    CanonPairsMembers(p);
    CanonPairsMembers(q);
    forall i | 0 <= i < |p|
      ensures HasLike(p[i], q)
    {
      assert SortsTo(CanonPair(p[i]), p);
      var j :| 0 <= j < |q| && CanonPair(q[j]) == CanonPair(p[i]);
      SameCanonPair(p[i], q[j]);
    }
  }

  /**
   The encoding depends on the value alone: two trees are encoded alike exactly when they are the
   same up to the order in which the entries of their maps are listed.
   */
  lemma EncodingIsOrderFree(v: Value, w: Value)
    requires IsEncodable(v) && IsEncodable(w)
    ensures Encode(v) == Encode(w) <==> SameTree(v, w)
  {
    if SameTree(v, w) {
      SameTreeSameCanon(v, w);
    }
    if Encode(v) == Encode(w) {
      CanonIsCanonical(v);
      CanonIsCanonical(w);
      EmitInjective(Canon(v), Canon(w));
      SameCanonSameTree(v, w);
    }
  }

  /** Shortest-form heads of one major type are ordered as their arguments. */
  lemma HeadMonotone(major: nat, m: nat, n: nat, a: Bytes, b: Bytes)
    requires major < 8 && m < n < TWO64
    ensures Less(Head(major, m) + a, Head(major, n) + b)
  {
    Pow256Values();
    var p, q := Head(major, m), Head(major, n);
    if p[0] < q[0] {
    } else {
      var k := if n <= 0xff then 1 else if n <= 0xffff then 2 else if n <= 0xffff_ffff then 4 else 8;
      assert p == [p[0]] + ToBigEndian(m, k) && q == [p[0]] + ToBigEndian(n, k);
      BigEndianMonotone(m, n, k);
      LessCommonPrefix([p[0]], ToBigEndian(m, k), ToBigEndian(n, k));
      LessByPrefix(p, q, a, b);
    }
  }

  /** Encoded text keys are in length-first order (section 4.2.3 of RFC 8949). */
  lemma TextKeysLengthFirst(a: Bytes, b: Bytes)
    requires |a| < TWO64 && |b| < TWO64
    ensures Less(Emit(Text(a)), Emit(Text(b))) <==> |a| < |b| || (|a| == |b| && Less(a, b))
  {
    if |a| < |b| {
      HeadMonotone(3, |a|, |b|, a, b);
    } else if |b| < |a| {
      HeadMonotone(3, |b|, |a|, b, a);
      LessAsymmetric(Emit(Text(b)), Emit(Text(a)));
    } else {
      LessCommonPrefix(Head(3, |a|), a, b);
    }
  }
}
