/**
 The deterministic encoding written out in bytes (sections 3 and 4.2.1 of RFC 8949): a relation between
 inputs and trees that refers to neither the parser nor the encoder, and is what both compute.
 */
module CborBytes {
  import opened Bytes
  import opened Cbor
  import opened CborProofs
  import opened CborTheorems

  /** The head of major type `major` with argument n, in shortest form. */
  ghost predicate IsHead(h: Bytes, major: nat, n: nat) {
    if n < 24 then |h| == 1 && h[0] == 32 * major + n
    else if n < 0x100 then |h| == 2 && h[0] == 32 * major + 24 && h[1] == n
    else if n < 0x1_0000 then |h| == 3 && h[0] == 32 * major + 25 && n == 0x100 * Int(h, 1) + Int(h, 2)
    else if n < 0x1_0000_0000 then
      && |h| == 5 && h[0] == 32 * major + 26
      && n == 0x100_0000 * Int(h, 1) + 0x1_0000 * Int(h, 2) + 0x100 * Int(h, 3) + Int(h, 4)
    else
      && n < 0x1_0000_0000_0000_0000 && |h| == 9 && h[0] == 32 * major + 27
      && n == 0x100_0000_0000_0000 * Int(h, 1) + 0x1_0000_0000_0000 * Int(h, 2)
            + 0x100_0000_0000 * Int(h, 3) + 0x1_0000_0000 * Int(h, 4)
            + 0x100_0000 * Int(h, 5) + 0x1_0000 * Int(h, 6) + 0x100 * Int(h, 7) + Int(h, 8)
  }

  function Int(b: Bytes, i: nat): int
    requires i < |b|
  {
    b[i]
  }

  /** A head with as many bytes behind it as it says. */
  ghost predicate IsString(data: Bytes, major: nat, s: Bytes) {
    |s| <= |data| && data[|data| - |s|..] == s && IsHead(data[..|data| - |s|], major, |s|)
  }

  function Flat(parts: seq<Bytes>): Bytes {
    if parts == [] then [] else parts[0] + Flat(parts[1..])
  }

  /** Keys and values in turn. */
  function InTurn(keys: seq<Bytes>, values: seq<Bytes>): Bytes
    requires |keys| == |values|
  {
    if keys == [] then [] else keys[0] + values[0] + InTurn(keys[1..], values[1..])
  }

  /** The parts of an array's encoding. */
  ghost predicate AreParts(data: Bytes, parts: seq<Bytes>, n: nat) {
    exists h :: IsHead(h, 4, n) && data == h + Flat(parts)
  }

  /** The keys and values of a map's encoding, the keys strictly ascending. */
  ghost predicate AreEntries(data: Bytes, keys: seq<Bytes>, values: seq<Bytes>, n: nat)
    requires |keys| == |values|
  {
    && (exists h :: IsHead(h, 5, n) && data == h + InTurn(keys, values))
    && Ascend(keys)
  }

  ghost predicate Ascend(keys: seq<Bytes>) {
    forall i | 0 <= i < |keys| - 1 :: Before(keys[i], keys[i + 1])
  }

  /** The bytes are the deterministic encoding of the tree. */
  ghost predicate IsCborOf(data: Bytes, v: Value)
    decreases v
  {
    match v
    case Null => data == [0xf6]
    case Bool(b) => data == if b then [0xf5] else [0xf4]
    case Uint(n) => IsHead(data, 0, n)
    case Blob(b) => IsString(data, 2, b)
    case Text(s) => IsString(data, 3, s)
    case Array(items) =>
      exists parts: seq<Bytes> ::
        && |parts| == |items| && AreParts(data, parts, |items|)
        && forall i | 0 <= i < |items| :: IsCborOf(parts[i], items[i])
    case Map(pairs) =>
      exists keys: seq<Bytes>, values: seq<Bytes> ::
        && |keys| == |values| == |pairs| && AreEntries(data, keys, values, |pairs|)
        && forall i | 0 <= i < |pairs| :: IsPairOf(keys[i], values[i], pairs[i])
  }

  ghost predicate IsPairOf(key: Bytes, value: Bytes, p: Pair)
    decreases p
  {
    IsCborOf(key, p.key) && IsCborOf(value, p.value)
  }

  // Heads

  lemma BigEndianSnoc(b: Bytes, x: byte)
    ensures BigEndian(b + [x]) == BigEndian(b) * 256 + x
  {
    assert (b + [x])[..|b|] == b;
  }

  lemma TwoDigits(b: Bytes)
    requires |b| == 2
    ensures BigEndian(b) == 0x100 * Int(b, 0) + Int(b, 1)
  {
    BigEndianSnoc([], b[0]);
    BigEndianSnoc([b[0]], b[1]);
    assert b == [b[0]] + [b[1]] && [] + [b[0]] == [b[0]];
  }

  lemma FourDigits(b: Bytes)
    requires |b| == 4
    ensures BigEndian(b) == 0x100_0000 * Int(b, 0) + 0x1_0000 * Int(b, 1) + 0x100 * Int(b, 2) + Int(b, 3)
  {
    TwoDigits(b[..2]);
    BigEndianSnoc(b[..2], b[2]);
    BigEndianSnoc(b[..3], b[3]);
    assert b[..3] == b[..2] + [b[2]] && b == b[..3] + [b[3]];
  }

  lemma EightDigits(b: Bytes)
    requires |b| == 8
    ensures BigEndian(b) ==
      0x100_0000_0000_0000 * Int(b, 0) + 0x1_0000_0000_0000 * Int(b, 1) + 0x100_0000_0000 * Int(b, 2) + 0x1_0000_0000 * Int(b, 3)
      + 0x100_0000 * Int(b, 4) + 0x1_0000 * Int(b, 5) + 0x100 * Int(b, 6) + Int(b, 7)
  {
    FourDigits(b[..4]);
    BigEndianSnoc(b[..4], b[4]);
    BigEndianSnoc(b[..5], b[5]);
    BigEndianSnoc(b[..6], b[6]);
    BigEndianSnoc(b[..7], b[7]);
    assert b[..5] == b[..4] + [b[4]] && b[..6] == b[..5] + [b[5]];
    assert b[..7] == b[..6] + [b[6]] && b == b[..7] + [b[7]];
  }

  lemma OneDigit(b: Bytes)
    requires |b| == 1
    ensures BigEndian(b) == b[0]
  {
    assert b[..0] == [] && BigEndian(b[..0]) == 0;
  }

  /** The argument bytes of a head are the big-endian digits of the argument. */
  lemma HeadDigits(h: Bytes, major: nat, n: nat)
    requires 24 <= n < TWO64
    ensures IsHead(h, major, n) <==>
            |h| == 1 + Width(InfoOf(n)) && h[0] == 32 * major + InfoOf(n) && BigEndian(h[1..]) == n
  {
    hide BigEndian;
    if |h| == 2 {
      OneDigit(h[1..]);
    } else if |h| == 3 {
      TwoDigits(h[1..]);
    } else if |h| == 5 {
      FourDigits(h[1..]);
    } else if |h| == 9 {
      EightDigits(h[1..]);
    }
  }

  lemma DigitsOf(b: Bytes, n: nat, k: nat)
    requires n < Pow256(k)
    ensures |b| == k && BigEndian(b) == n <==> b == ToBigEndian(n, k)
  {
    BigEndianOfTo(n, k);
    if |b| == k && BigEndian(b) == n {
      ToOfBigEndian(b);
    }
  }

  /** The heads the encoder writes and the parser reads are the written-out ones. */
  lemma HeadExactly(h: Bytes, major: nat, n: nat)
    requires major < 8
    ensures n < TWO64 ==> (IsHead(h, major, n) <==> h == Head(major, n))
    ensures IsHead(h, major, n) ==> n < TWO64
  {
    if n < 24 {
      assert |h| == 1 ==> h == [h[0]];
    } else if n < TWO64 {
      var k := Width(InfoOf(n));
      Pow256Values();
      HeadDigits(h, major, n);
      HeadForm(major, n);
      assert n < Pow256(k);
      hide IsHead, Head, BigEndian, ToBigEndian, Pow256, InfoOf, Width;
      if h != [] {
        DigitsOf(h[1..], n, k);
        assert h == [h[0]] + h[1..];
      }
      assert h == [major * 32 + InfoOf(n)] + ToBigEndian(n, k) ==> h[1..] == ToBigEndian(n, k);
    }
  }

  lemma StringExactly(data: Bytes, major: nat, s: Bytes)
    requires major < 8
    ensures IsString(data, major, s) <==> |s| < TWO64 && data == Head(major, |s|) + s
  {
    if |s| <= |data| {
      HeadExactly(data[..|data| - |s|], major, |s|);
      assert data == data[..|data| - |s|] + data[|data| - |s|..];
    }
    hide IsHead, Head;
    if |s| < TWO64 && data == Head(major, |s|) + s {
      assert data[|data| - |s|..] == s && data[..|data| - |s|] == Head(major, |s|);
    }
  }

  // Trees

  function Parts(items: seq<Value>): (r: seq<Bytes>)
    ensures |r| == |items| && forall i | 0 <= i < |r| :: r[i] == Emit(items[i])
  {
    seq(|items|, i requires 0 <= i < |items| => Emit(items[i]))
  }

  function Keys(pairs: seq<Pair>): (r: seq<Bytes>)
    ensures |r| == |pairs| && forall i | 0 <= i < |r| :: r[i] == Emit(pairs[i].key)
  {
    seq(|pairs|, i requires 0 <= i < |pairs| => Emit(pairs[i].key))
  }

  function Values(pairs: seq<Pair>): (r: seq<Bytes>)
    ensures |r| == |pairs| && forall i | 0 <= i < |r| :: r[i] == Emit(pairs[i].value)
  {
    seq(|pairs|, i requires 0 <= i < |pairs| => Emit(pairs[i].value))
  }

  lemma {:induction false} FlatParts(items: seq<Value>)
    ensures Flat(Parts(items)) == EmitItems(items)
  {
    hide Emit;
    if items != [] {
      assert Parts(items)[1..] == Parts(items[1..]);
      FlatParts(items[1..]);
    }
  }

  lemma {:induction false} InTurnPairs(pairs: seq<Pair>)
    ensures InTurn(Keys(pairs), Values(pairs)) == EmitPairs(pairs)
  {
    hide Emit;
    if pairs != [] {
      assert Keys(pairs)[1..] == Keys(pairs[1..]) && Values(pairs)[1..] == Values(pairs[1..]);
      InTurnPairs(pairs[1..]);
    }
  }

  lemma {:induction false} CanonicalItems(items: seq<Value>)
    ensures AreCanonical(items) <==> forall i | 0 <= i < |items| :: IsCanonical(items[i])
  {
    hide IsCanonical;
    if items != [] {
      CanonicalItems(items[1..]);
      assert forall i | 0 < i < |items| :: items[i] == items[1..][i - 1];
    }
  }

  /** The keys of a canonical pair list ascend, and each pair is canonical. */
  lemma {:induction false} CanonicalKeys(pairs: seq<Pair>, prev: Bytes)
    ensures AreCanonicalPairs(pairs, prev) <==>
      && (forall i | 0 <= i < |pairs| :: IsCanonicalPair(pairs[i]))
      && (forall i | 0 <= i < |pairs| - 1 :: Less(Emit(pairs[i].key), Emit(pairs[i + 1].key)))
      && (pairs != [] ==> Less(prev, Emit(pairs[0].key)))
  {
    hide Emit, IsCanonicalPair, Less;
    if pairs != [] {
      CanonicalKeys(pairs[1..], Emit(pairs[0].key));
      assert forall i | 0 < i < |pairs| :: pairs[i] == pairs[1..][i - 1];
      TailSteps(pairs);
    }
  }

  lemma AscendExactly(pairs: seq<Pair>)
    ensures Ascend(Keys(pairs)) <==>
      forall i | 0 <= i < |pairs| - 1 :: Less(Emit(pairs[i].key), Emit(pairs[i + 1].key))
  {
    hide Emit, Less, Before;
    forall i | 0 <= i < |pairs| - 1
      ensures Before(Keys(pairs)[i], Keys(pairs)[i + 1]) <==> Less(Emit(pairs[i].key), Emit(pairs[i + 1].key))
    {
      LessExactly(Emit(pairs[i].key), Emit(pairs[i + 1].key));
    }
    if Ascend(Keys(pairs)) {
      forall i | 0 <= i < |pairs| - 1
        ensures Less(Emit(pairs[i].key), Emit(pairs[i + 1].key))
      {
        assert Before(Keys(pairs)[i], Keys(pairs)[i + 1]);
      }
    }
  }

  lemma TailSteps(pairs: seq<Pair>)
    requires pairs != []
    ensures (forall i | 0 <= i < |pairs| - 1 :: Less(Emit(pairs[i].key), Emit(pairs[i + 1].key))) <==>
      (|pairs| > 1 ==> Less(Emit(pairs[0].key), Emit(pairs[1].key))) &&
      forall i | 0 <= i < |pairs[1..]| - 1 :: Less(Emit(pairs[1..][i].key), Emit(pairs[1..][i + 1].key))
  {
    hide Emit, Less;
    if forall i | 0 <= i < |pairs[1..]| - 1 :: Less(Emit(pairs[1..][i].key), Emit(pairs[1..][i + 1].key)) {
      forall i | 0 < i < |pairs| - 1
        ensures Less(Emit(pairs[i].key), Emit(pairs[i + 1].key))
      {
        assert Less(Emit(pairs[1..][i - 1].key), Emit(pairs[1..][i - 1 + 1].key));
      }
    }
  }

  /** The relation is what the encoder writes for canonical trees. */
  lemma {:induction false} CborIsEmit(data: Bytes, v: Value)
    ensures IsCborOf(data, v) <==> IsCanonical(v) && data == Emit(v)
    decreases v, 1
  {
    match v
    case Null =>
    case Bool(_) =>
    case Uint(n) => HeadExactly(data, 0, n);
    case Blob(b) => StringExactly(data, 2, b);
    case Text(s) => StringExactly(data, 3, s);
    case Array(items) => CborIsArray(data, items);
    case Map(pairs) => CborIsMap(data, pairs);
  }

  lemma {:induction false} CborIsArray(data: Bytes, items: seq<Value>)
    ensures IsCborOf(data, Array(items)) <==> IsCanonical(Array(items)) && data == Emit(Array(items))
    decreases items, 0
  {
    hide IsHead, Head, Flat, EmitItems, AreCanonical;
    CanonicalItems(items);
    FlatParts(items);
    if parts: seq<Bytes> :|
      && |parts| == |items| && AreParts(data, parts, |items|)
      && forall i | 0 <= i < |items| :: IsCborOf(parts[i], items[i])
    {
      var h :| IsHead(h, 4, |items|) && data == h + Flat(parts);
      HeadExactly(h, 4, |items|);
      forall i | 0 <= i < |items|
        ensures IsCanonical(items[i]) && parts[i] == Emit(items[i])
      {
        CborIsEmit(parts[i], items[i]);
      }
      assert parts == Parts(items);
    }
    if IsCanonical(Array(items)) && data == Emit(Array(items)) {
      HeadExactly(Head(4, |items|), 4, |items|);
      forall i | 0 <= i < |items|
        ensures IsCborOf(Parts(items)[i], items[i])
      {
        CborIsEmit(Parts(items)[i], items[i]);
      }
      assert AreParts(data, Parts(items), |items|);
    }
  }

  lemma {:induction false} CborIsPair(key: Bytes, value: Bytes, p: Pair)
    ensures IsPairOf(key, value, p) <==> IsCanonicalPair(p) && key == Emit(p.key) && value == Emit(p.value)
    decreases p, 2
  {
    CborIsEmit(key, p.key);
    CborIsEmit(value, p.value);
  }

  lemma {:induction false} CborIsMap(data: Bytes, pairs: seq<Pair>)
    ensures IsCborOf(data, Map(pairs)) <==> IsCanonical(Map(pairs)) && data == Emit(Map(pairs))
    decreases pairs, 0
  {
    hide IsHead, Head, InTurn, EmitPairs, AreCanonicalPairs, IsPairOf, IsCanonicalPair, Less, Ascend;
    CanonicalKeys(pairs, []);
    AscendExactly(pairs);
    InTurnPairs(pairs);
    KeysNotEmpty(pairs);
    if keys: seq<Bytes>, values: seq<Bytes> :|
      && |keys| == |values| == |pairs| && AreEntries(data, keys, values, |pairs|)
      && forall i | 0 <= i < |pairs| :: IsPairOf(keys[i], values[i], pairs[i])
    {
      var h :| IsHead(h, 5, |pairs|) && data == h + InTurn(keys, values);
      HeadExactly(h, 5, |pairs|);
      forall i | 0 <= i < |pairs|
        ensures IsCanonicalPair(pairs[i]) && keys[i] == Emit(pairs[i].key) && values[i] == Emit(pairs[i].value)
      {
        CborIsPair(keys[i], values[i], pairs[i]);
      }
      assert keys == Keys(pairs) && values == Values(pairs);
    }
    if IsCanonical(Map(pairs)) && data == Emit(Map(pairs)) {
      HeadExactly(Head(5, |pairs|), 5, |pairs|);
      forall i | 0 <= i < |pairs|
        ensures IsPairOf(Keys(pairs)[i], Values(pairs)[i], pairs[i])
      {
        CborIsPair(Keys(pairs)[i], Values(pairs)[i], pairs[i]);
      }
      assert AreEntries(data, Keys(pairs), Values(pairs), |pairs|);
    }
  }

  lemma KeysNotEmpty(pairs: seq<Pair>)
    ensures pairs != [] ==> Less([], Emit(pairs[0].key))
  {
    if pairs != [] {
      EmitNonEmpty(pairs[0].key);
    }
  }

  /** An input is accepted as a tree exactly when it is the deterministic encoding of that tree, byte by byte. */
  lemma DecodedExactly(data: Bytes, v: Value)
    ensures Decode(data) == Ok(v, []) <==> IsCborOf(data, v)
  {
    AcceptedExactly(data, v);
    CborIsEmit(data, v);
  }

  lemma AcceptedAs(data: Bytes)
    ensures forall v :: Decode(data) == Ok(v, []) <==> IsCborOf(data, v)
  {
    forall v
      ensures Decode(data) == Ok(v, []) <==> IsCborOf(data, v)
    {
      DecodedExactly(data, v);
    }
  }

  /** Trailing bytes are reported exactly when a proper prefix of the input is an encoding. */
  lemma TrailingExactly(data: Bytes)
    ensures Decode(data) == Err(TrailingBytes) <==> exists k, v :: 0 <= k < |data| && IsCborOf(data[..k], v)
  {
    hide IsCborOf;
    if Decode(data) == Err(TrailingBytes) {
      NeverTrailing(data);
      PrefixAccepted(data);
    }
    if k, v :| 0 <= k < |data| && IsCborOf(data[..k], v) {
      DecodedExactly(data[..k], v);
      LongerIsTrailing(data, k);
    }
  }

  lemma PrefixAccepted(data: Bytes)
    requires Parse(data).Ok? && Parse(data).rest != []
    ensures exists k, v :: 0 <= k < |data| && IsCborOf(data[..k], v)
  {
    hide IsCborOf, Parse;
    var r := Parse(data);
    var front := Raw(data, r.rest);
    ParseIgnoresTail(data, []);
    assert front + [] == front;
    DecodedExactly(front, r.value);
    assert IsCborOf(data[..|front|], r.value);
  }

  lemma LongerIsTrailing(data: Bytes, k: nat)
    requires k < |data| && Decode(data[..k]).Ok?
    ensures Decode(data) == Err(TrailingBytes)
  {
    hide Parse;
    ParseIgnoresTail(data[..k], data[k..]);
    assert data[..k] + data[k..] == data && Raw(data[..k], []) == data[..k];
  }

  // A step of the parser does not report what follows it.

  lemma {:induction false} NeverTrailing(s: Bytes)
    ensures Parse(s) != Err(TrailingBytes)
    decreases |s|, 0
  {
    if s != [] && s[0] / 32 in {4, 5} {
      var a := ReadArgument(s[0] % 32, s[1..]);
      if a.Ok? {
        if s[0] / 32 == 4 {
          NeverTrailingItems(a.rest, a.value);
        } else {
          NeverTrailingPairs(a.rest, a.value, [], {});
        }
      }
    }
  }

  lemma {:induction false} NeverTrailingItems(s: Bytes, n: nat)
    ensures ParseItems(s, n) != Err(TrailingBytes)
    decreases |s|, 1
  {
    hide Parse;
    if n > 0 {
      NeverTrailing(s);
      var r := Parse(s);
      if r.Ok? {
        NeverTrailingItems(r.rest, n - 1);
      }
    }
  }

  lemma {:induction false} NeverTrailingPairs(s: Bytes, n: nat, prev: Bytes, seen: set<Bytes>)
    ensures ParsePairs(s, n, prev, seen) != Err(TrailingBytes)
    decreases |s|, 1
  {
    hide Parse;
    if n > 0 {
      NeverTrailing(s);
      var k := Parse(s);
      if k.Ok? && (prev == [] || Less(prev, Raw(s, k.rest))) && Raw(s, k.rest) !in seen {
        NeverTrailing(k.rest);
        var v := Parse(k.rest);
        if v.Ok? {
          NeverTrailingPairs(v.rest, n - 1, Raw(s, k.rest), seen + {Raw(s, k.rest)});
        }
      }
    }
  }
}
