/** What the deterministic encoding is for: one encoding per tree, in both directions. */
module CborTheorems {
  import opened Bytes
  import opened Cbor
  import opened CborProofs

  /** The structural encoder: maps are sorted by encoded key at every level. */
  function Encode(v: Value): Bytes {
    Emit(Canon(v))
  }

  /** The accepted inputs are exactly the encodings of the canonical trees. */
  lemma AcceptedExactly(data: Bytes, v: Value)
    ensures Decode(data) == Ok(v, []) <==> IsCanonical(v) && data == Emit(v)
  {
    if Decode(data) == Ok(v, []) {
      ParseSound(data, v, []);
      assert Emit(v) + [] == Emit(v);
    }
    if IsCanonical(v) && data == Emit(v) {
      ParseEmit(v, []);
      assert data + [] == data;
    }
  }

  /** Parsing an item does not look at what follows it. */
  lemma ParseIgnoresTail(s: Bytes, tail: Bytes)
    requires Parse(s).Ok?
    ensures Parse(Raw(s, Parse(s).rest) + tail) == Ok(Parse(s).value, tail)
  {
    var r := Parse(s);
    ParseSound(s, r.value, r.rest);
    assert Raw(s, r.rest) == Emit(r.value);
    ParseEmit(r.value, tail);
  }

  /** No accepted input is a proper prefix of another. */
  lemma PrefixFree(a: Bytes, b: Bytes)
    requires Decode(a).Ok? && Decode(b).Ok? && a <= b
    ensures a == b
  {
    hide Parse;
    ParseIgnoresTail(a, b[|a|..]);
    assert a + b[|a|..] == b && Raw(a, []) == a;
  }

  /** The strict order of the keys makes the duplicate check unreachable. */
  lemma {:induction false} NeverDuplicate(s: Bytes)
    ensures Parse(s) != Err(DuplicateKey)
    decreases |s|, 0
  {
    if s != [] && s[0] / 32 in {4, 5} {
      var a := ReadArgument(s[0] % 32, s[1..]);
      if a.Ok? {
        if s[0] / 32 == 4 {
          NeverDuplicateItems(a.rest, a.value);
        } else {
          NeverDuplicatePairs(a.rest, a.value, [], {});
        }
      }
    }
  }

  lemma {:induction false} NeverDuplicateItems(s: Bytes, n: nat)
    ensures ParseItems(s, n) != Err(DuplicateKey)
    decreases |s|, 1
  {
    hide Parse;
    if n > 0 {
      NeverDuplicate(s);
      var r := Parse(s);
      if r.Ok? {
        NeverDuplicateItems(r.rest, n - 1);
      }
    }
  }

  lemma {:induction false} NeverDuplicatePairs(s: Bytes, n: nat, prev: Bytes, seen: set<Bytes>)
    requires SeenBelow(seen, prev)
    ensures ParsePairs(s, n, prev, seen) != Err(DuplicateKey)
    decreases |s|, 1
  {
    hide Parse;
    if n > 0 {
      NeverDuplicate(s);
      var k := Parse(s);
      if k.Ok? && (prev == [] || Less(prev, Raw(s, k.rest))) {
        NewKey(seen, prev, Raw(s, k.rest));
        NeverDuplicate(k.rest);
        var v := Parse(k.rest);
        if v.Ok? {
          NeverDuplicatePairs(v.rest, n - 1, Raw(s, k.rest), seen + {Raw(s, k.rest)});
        }
      }
    }
  }

  /** Distinct canonical trees have distinct encodings. */
  lemma EmitInjective(v: Value, w: Value)
    requires IsCanonical(v) && IsCanonical(w) && Emit(v) == Emit(w)
    ensures v == w
  {
    ParseEmit(v, []);
    ParseEmit(w, []);
  }

  /** Inserting a new key keeps a canonical pair list canonical. */
  lemma {:induction false} InsertKeepsOrder(p: Pair, sorted: seq<Pair>, prev: Bytes)
    requires AreCanonicalPairs(sorted, prev) && IsCanonicalPair(p) && Less(prev, Emit(p.key))
    requires forall q | q in sorted :: q.key != p.key
    ensures AreCanonicalPairs(InsertPair(p, sorted), prev)
  {
    if sorted != [] {
      var q := sorted[0];
      if !Less(Emit(p.key), Emit(q.key)) {
        LessTotal(Emit(p.key), Emit(q.key));
        if Emit(p.key) == Emit(q.key) {
          EmitInjective(p.key, q.key);
        }
        InsertKeepsOrder(p, sorted[1..], Emit(q.key));
      }
    }
  }

  lemma {:induction false} InsertMembers(p: Pair, sorted: seq<Pair>)
    ensures forall q :: q in InsertPair(p, sorted) <==> q == p || q in sorted
  {
    if sorted != [] && !Less(Emit(p.key), Emit(sorted[0].key)) {
      InsertMembers(p, sorted[1..]);
    }
  }

  /** Some pair of the list sorts to x. */
  ghost predicate SortsTo(x: Pair, pairs: seq<Pair>) {
    exists i | 0 <= i < |pairs| :: CanonPair(pairs[i]) == x
  }

  lemma {:induction false} CanonPairsMembers(pairs: seq<Pair>)
    ensures forall x :: x in CanonPairs(pairs) <==> SortsTo(x, pairs)
  {
    hide CanonPair;
    if pairs != [] {
      var tail := pairs[1..];
      CanonPairsMembers(tail);
      InsertMembers(CanonPair(pairs[0]), CanonPairs(tail));
      forall x
        ensures SortsTo(x, pairs) <==> x == CanonPair(pairs[0]) || SortsTo(x, tail)
      {
        if i :| 0 <= i < |pairs| && CanonPair(pairs[i]) == x && i > 0 {
          assert CanonPair(tail[i - 1]) == x;
        }
        if i :| 0 <= i < |tail| && CanonPair(tail[i]) == x {
          assert CanonPair(pairs[i + 1]) == x;
        }
      }
    }
  }

  /** Sorting turns what the encoder is given into a canonical tree. */
  lemma {:induction false} CanonIsCanonical(v: Value)
    requires IsEncodable(v)
    ensures IsCanonical(Canon(v))
    decreases v
  {
    match v
    case Array(items) => CanonItemsCanonical(items);
    case Map(pairs) => CanonPairsCanonical(pairs);
    case _ =>
  }

  lemma {:induction false} CanonItemsCanonical(items: seq<Value>)
    requires forall i | 0 <= i < |items| :: IsEncodable(items[i])
    ensures AreCanonical(CanonItems(items))
    decreases items
  {
    hide Canon, IsCanonical, IsEncodable;
    if items != [] {
      CanonIsCanonical(items[0]);
      CanonItemsCanonical(items[1..]);
    }
  }

  ghost predicate EncodablePair(p: Pair) {
    IsCanonical(p.key) && IsEncodable(p.value)
  }

  lemma {:induction false} CanonPairCanonical(p: Pair)
    requires EncodablePair(p)
    ensures IsCanonicalPair(CanonPair(p))
    decreases p
  {
    CanonIsCanonical(p.value);
  }

  lemma {:induction false} CanonPairsCanonical(pairs: seq<Pair>)
    requires forall i | 0 <= i < |pairs| :: EncodablePair(pairs[i])
    requires forall i, j | 0 <= i < j < |pairs| :: pairs[i].key != pairs[j].key
    ensures AreCanonicalPairs(CanonPairs(pairs), [])
    decreases pairs
  {
    hide Canon, IsCanonical, EncodablePair;
    if pairs != [] {
      CanonPairCanonical(pairs[0]);
      CanonPairsCanonical(pairs[1..]);
      CanonPairsMembers(pairs[1..]);
      EmitNonEmpty(pairs[0].key);
      InsertKeepsOrder(CanonPair(pairs[0]), CanonPairs(pairs[1..]), []);
    }
  }

  /** Round trip: decoding an encoding gives the tree back, up to the order of each map's pairs. */
  lemma RoundTrip(v: Value)
    requires IsEncodable(v)
    ensures Decode(Encode(v)) == Ok(Canon(v), [])
  {
    CanonIsCanonical(v);
    AcceptedExactly(Encode(v), Canon(v));
  }

  /** A canonical tree is already sorted. */
  lemma {:induction false} CanonOfCanonical(v: Value)
    requires IsCanonical(v)
    ensures Canon(v) == v
    decreases v
  {
    match v
    case Array(items) => CanonItemsOfCanonical(items);
    case Map(pairs) => CanonPairsOfCanonical(pairs, []);
    case _ =>
  }

  lemma {:induction false} CanonItemsOfCanonical(items: seq<Value>)
    requires AreCanonical(items)
    ensures CanonItems(items) == items
    decreases items
  {
    hide Canon, IsCanonical;
    if items != [] {
      CanonOfCanonical(items[0]);
      CanonItemsOfCanonical(items[1..]);
    }
  }

  lemma {:induction false} CanonPairOfCanonical(p: Pair)
    requires IsCanonicalPair(p)
    ensures CanonPair(p) == p
    decreases p
  {
    CanonOfCanonical(p.value);
  }

  lemma {:induction false} CanonPairsOfCanonical(pairs: seq<Pair>, prev: Bytes)
    requires AreCanonicalPairs(pairs, prev)
    ensures CanonPairs(pairs) == pairs
    decreases pairs
  {
    hide CanonPair, IsCanonicalPair, Emit;
    if pairs != [] {
      CanonPairOfCanonical(pairs[0]);
      CanonPairsOfCanonical(pairs[1..], Emit(pairs[0].key));
    }
  }

  /** Re-encoding what was accepted gives back the input, so each tree has one accepted encoding. */
  lemma Canonicity(data: Bytes)
    requires Decode(data).Ok?
    ensures Encode(Decode(data).value) == data
  {
    AcceptedExactly(data, Decode(data).value);
    CanonOfCanonical(Decode(data).value);
  }
}
