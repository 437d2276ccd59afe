/**
 Parsing and encoding are inverse to each other: what the parser accepts is exactly what the
 encoder writes, and every encodable tree has one encoding.
 */
module CborProofs {
  import opened Bytes
  import opened Cbor

  lemma Pow256Values()
    ensures Pow256(1) == 0x100 && Pow256(2) == 0x1_0000
    ensures Pow256(4) == 0x1_0000_0000 && Pow256(8) == TWO64
  {
    assert Pow256(4) == 256 * (256 * (256 * (256 * Pow256(0))));
    assert Pow256(8) == 256 * (256 * (256 * (256 * Pow256(4))));
  }

  /** The width of the argument of a head that needs one. */
  function Width(ai: nat): nat {
    if ai == 24 then 1 else if ai == 25 then 2 else if ai == 26 then 4 else 8
  }

  /** Reading k big-endian bytes back. */
  lemma ReadNOfEmit(n: nat, k: nat, rest: Bytes)
    requires n < Pow256(k)
    ensures ReadN(k, ToBigEndian(n, k) + rest) == Ok(n, rest)
  {
    BigEndianOfTo(n, k);
    var s := ToBigEndian(n, k) + rest;
    assert s[..k] == ToBigEndian(n, k) && s[k..] == rest;
  }

  /** The additional information of the head that carries n. */
  function InfoOf(n: nat): (info: nat)
    ensures info < 32
  {
    if n < 24 then n else if n <= 0xff then 24 else if n <= 0xffff then 25 else if n <= 0xffff_ffff then 26 else 27
  }

  lemma HeadForm(major: nat, n: nat)
    requires major < 8 && n >= 24
    ensures Head(major, n) == [major * 32 + InfoOf(n)] + ToBigEndian(n, Width(InfoOf(n)))
  {
    hide ToBigEndian;
  }

  lemma ReadArgumentOf(n: nat, rest: Bytes)
    requires 24 <= n < TWO64
    ensures ReadArgument(InfoOf(n), ToBigEndian(n, Width(InfoOf(n))) + rest) == Ok(n, rest)
  {
    Pow256Values();
    ReadNOfEmit(n, Width(InfoOf(n)), rest);
    hide ToBigEndian, ReadN, Pow256;
  }

  lemma HeadByte(major: nat, info: nat)
    requires info < 32
    ensures (major * 32 + info) / 32 == major && (major * 32 + info) % 32 == info
  {
  }

  lemma HeadAndTail(h: byte, b: Bytes, rest: Bytes)
    ensures ([h] + b + rest)[0] == h && ([h] + b + rest)[1..] == b + rest
  {
  }

  /** A head is read back as its major type and argument. */
  lemma HeadRoundTrip(major: nat, n: nat, rest: Bytes)
    requires major < 8 && n < TWO64
    ensures var s := Head(major, n) + rest;
      s != [] && s[0] / 32 == major && ReadArgument(s[0] % 32, s[1..]) == Ok(n, rest)
  {
    HeadByte(major, InfoOf(n));
    if n < 24 {
      HeadAndTail(major * 32 + n, [], rest);
      assert [major * 32 + n] + [] == [major * 32 + n] && [] + rest == rest;
    } else {
      HeadForm(major, n);
      ReadArgumentOf(n, rest);
      hide Head, ReadArgument, ToBigEndian, InfoOf, Width;
      HeadAndTail(major * 32 + InfoOf(n), ToBigEndian(n, Width(InfoOf(n))), rest);
    }
  }

  /** An argument of k bytes is the big-endian form of what it is read as. */
  lemma ReadAboveSound(k: nat, limit: nat, s: Bytes)
    requires ReadAbove(k, limit, s).Ok?
    ensures var r := ReadAbove(k, limit, s);
      limit < r.value < Pow256(k) && s == ToBigEndian(r.value, k) + r.rest
  {
    BigEndianBound(s[..k]);
    ToOfBigEndian(s[..k]);
    assert s == s[..k] + s[k..];
  }

  lemma WideArgument(ai: nat, s: Bytes)
    requires ai >= 24 && ReadArgument(ai, s).Ok?
    ensures var r := ReadArgument(ai, s);
      24 <= r.value < TWO64 && InfoOf(r.value) == ai && s == ToBigEndian(r.value, Width(ai)) + r.rest
  {
    Pow256Values();
    ReadAboveSound(Width(ai), if ai == 24 then 23 else if ai == 25 then 0xff else if ai == 26 then 0xffff else 0xffff_ffff, s);
    hide ReadAbove, ToBigEndian, Pow256;
  }

  /** An accepted head is in shortest form, so writing its argument gives it back. */
  lemma HeadSound(b: byte, s: Bytes)
    requires ReadArgument(b % 32, s).Ok?
    ensures var r := ReadArgument(b % 32, s);
      r.value < TWO64 && [b] + s == Head(b / 32, r.value) + r.rest
  {
    var ai := b % 32;
    var r := ReadArgument(ai, s);
    assert b == b / 32 * 32 + ai;
    if ai >= 24 {
      WideArgument(ai, s);
      HeadForm(b / 32, r.value);
      hide Head, ReadArgument, ToBigEndian;
      assert [b] + s == [b] + ToBigEndian(r.value, Width(ai)) + r.rest;
    }
  }

  lemma EmitNonEmpty(v: Value)
    ensures Emit(v) != []
  {
  }

  lemma SimpleSound(s: Bytes, v: Value, rest: Bytes)
    requires s != [] && s[0] / 32 == 7 && Parse(s) == Ok(v, rest)
    ensures s == Emit(v) + rest && IsCanonical(v)
  {
    hide ReadArgument, ParseItems, ParsePairs, ReadString;
    assert s[0] == 7 * 32 + s[0] % 32;
    assert s == [s[0]] + s[1..];
  }

  /** The head of an accepted item that has an argument, and what follows it. */
  lemma ParsedHead(s: Bytes, v: Value, rest: Bytes)
    requires Parse(s) == Ok(v, rest) && s[0] / 32 != 7
    ensures var a := ReadArgument(s[0] % 32, s[1..]);
      && a.Ok? && a.value < TWO64
      && s == Head(s[0] / 32, a.value) + a.rest
  {
    hide ReadArgument, ParseItems, ParsePairs, ReadString, Head;
    HeadSound(s[0], s[1..]);
    assert s == [s[0]] + s[1..];
  }

  /** What an item's kind says of its head byte and of how it was read. */
  lemma ParsedKind(s: Bytes, v: Value, rest: Bytes)
    requires Parse(s) == Ok(v, rest) && s[0] / 32 != 7
    ensures var major, a := s[0] / 32, ReadArgument(s[0] % 32, s[1..]);
      && a.Ok?
      && match v
         case Uint(n) => major == 0 && a == Ok(n, rest)
         case Blob(b) => major == 2 && ReadString(a.value, a.rest) == Ok(b, rest)
         case Text(t) => major == 3 && ReadString(a.value, a.rest) == Ok(t, rest)
         case Array(items) => major == 4 && ParseItems(a.rest, a.value) == Ok(items, rest)
         case Map(pairs) => major == 5 && ParsePairs(a.rest, a.value, [], {}) == Ok(pairs, rest)
         case _ => false
  {
    hide ReadArgument, ParseItems, ParsePairs, ReadString;
  }

  lemma ReadStringSound(n: nat, s: Bytes, b: Bytes, rest: Bytes)
    requires ReadString(n, s) == Ok(b, rest)
    ensures |b| == n && s == b + rest
  {
  }

  lemma Regroup(a: Bytes, b: Bytes, c: Bytes)
    ensures a + (b + c) == a + b + c
  {
  }

  lemma StringSound(s: Bytes, v: Value, rest: Bytes)
    requires Parse(s) == Ok(v, rest) && (v.Uint? || v.Blob? || v.Text?) && s[0] / 32 != 7
    ensures s == Emit(v) + rest && IsCanonical(v)
  {
    ParsedHead(s, v, rest);
    ParsedKind(s, v, rest);
    hide Head, ReadArgument, Parse, ReadString;
    var a := ReadArgument(s[0] % 32, s[1..]);
    if v.Blob? {
      ReadStringSound(a.value, a.rest, v.b, rest);
      Regroup(Head(2, a.value), v.b, rest);
    } else if v.Text? {
      ReadStringSound(a.value, a.rest, v.s, rest);
      Regroup(Head(3, a.value), v.s, rest);
    }
  }

  /** Canonicity: an accepted item is the encoding of the tree it decodes to, which is canonical. */
  lemma {:induction false} ParseSound(s: Bytes, v: Value, rest: Bytes)
    requires Parse(s) == Ok(v, rest)
    ensures s == Emit(v) + rest && IsCanonical(v)
    decreases |s|, 0
  {
    hide Head, ReadArgument, ParseItems, ParsePairs, EmitItems, EmitPairs, Parse;
    if s[0] / 32 == 7 {
      SimpleSound(s, v, rest);
    } else {
      ParsedHead(s, v, rest);
      ParsedKind(s, v, rest);
      var a := ReadArgument(s[0] % 32, s[1..]);
      if v.Array? {
        ParseItemsSound(a.rest, a.value, v.items, rest);
        assert s == Head(4, a.value) + (EmitItems(v.items) + rest) == Emit(v) + rest;
      } else if v.Map? {
        ParsePairsSound(a.rest, a.value, [], {}, v.pairs, rest);
        assert s == Head(5, a.value) + (EmitPairs(v.pairs) + rest) == Emit(v) + rest;
      } else {
        StringSound(s, v, rest);
      }
    }
  }

  lemma EmitItemsCons(item: Value, items: seq<Value>, rest: Bytes)
    ensures EmitItems([item] + items) + rest == Emit(item) + (EmitItems(items) + rest)
  {
    assert ([item] + items)[1..] == items;
  }

  lemma {:induction false} ParseItemsSound(s: Bytes, n: nat, items: seq<Value>, rest: Bytes)
    requires ParseItems(s, n) == Ok(items, rest)
    ensures s == EmitItems(items) + rest && AreCanonical(items)
    decreases |s|, 1
  {
    hide Emit, Parse, IsCanonical;
    if n > 0 {
      var r := Parse(s);
      ParseSound(s, r.value, r.rest);
      var tail := ParseItems(r.rest, n - 1);
      ParseItemsSound(r.rest, n - 1, tail.value, rest);
      assert items[0] == r.value && items[1..] == tail.value;
      EmitItemsCons(r.value, tail.value, rest);
    }
  }

  lemma EmitPairsCons(p: Pair, pairs: seq<Pair>, rest: Bytes)
    ensures EmitPairs([p] + pairs) + rest == Emit(p.key) + (Emit(p.value) + (EmitPairs(pairs) + rest))
  {
    assert ([p] + pairs)[1..] == pairs;
  }

  lemma {:induction false} ParsePairsSound(
      s: Bytes, n: nat, prev: Bytes, seen: set<Bytes>, pairs: seq<Pair>, rest: Bytes)
    requires ParsePairs(s, n, prev, seen) == Ok(pairs, rest)
    ensures s == EmitPairs(pairs) + rest && AreCanonicalPairs(pairs, prev)
    decreases |s|, 1
  {
    hide Emit, Parse, IsCanonical;
    if n > 0 {
      var k := Parse(s);
      ParseSound(s, k.value, k.rest);
      var raw := Raw(s, k.rest);
      assert raw == Emit(k.value);
      var v := Parse(k.rest);
      ParseSound(k.rest, v.value, v.rest);
      var tail := ParsePairs(v.rest, n - 1, raw, seen + {raw});
      ParsePairsSound(v.rest, n - 1, raw, seen + {raw}, tail.value, rest);
      assert pairs[0] == Pair(k.value, v.value) && pairs[1..] == tail.value;
      EmitPairsCons(Pair(k.value, v.value), tail.value, rest);
      EmitNonEmpty(k.value);
    }
  }

  /** Every raw key seen so far is at most the previous one. */
  ghost predicate SeenBelow(seen: set<Bytes>, prev: Bytes) {
    forall k | k in seen :: prev != [] && (k == prev || Less(k, prev))
  }

  /** A key above the previous one is new, and becomes the greatest seen. */
  lemma NewKey(seen: set<Bytes>, prev: Bytes, raw: Bytes)
    requires SeenBelow(seen, prev) && raw != []
    requires prev == [] || Less(prev, raw)
    ensures raw !in seen
    ensures SeenBelow(seen + {raw}, raw)
  {
    forall k | k in seen
      ensures Less(k, raw) && k != raw
    {
      if k != prev {
        LessTransitive(k, prev, raw);
      }
      LessAsymmetric(k, raw);
    }
  }

  lemma SimpleRoundTrip(v: Value, rest: Bytes)
    requires v.Bool? || v.Null?
    ensures Parse(Emit(v) + rest) == Ok(v, rest)
  {
    hide ReadArgument, ParseItems, ParsePairs, ReadString, Head, EmitItems, EmitPairs;
    var s := Emit(v) + rest;
    assert s[1..] == rest;
  }

  lemma ReadStringOf(b: Bytes, rest: Bytes)
    ensures ReadString(|b|, b + rest) == Ok(b, rest)
  {
    assert (b + rest)[..|b|] == b && (b + rest)[|b|..] == rest;
  }

  lemma StringRoundTrip(v: Value, rest: Bytes)
    requires IsCanonical(v) && (v.Uint? || v.Blob? || v.Text?)
    ensures Parse(Emit(v) + rest) == Ok(v, rest)
  {
    hide ReadArgument, ParseItems, ParsePairs, Head, EmitItems, EmitPairs, ReadString;
    match v
    case Uint(n) => HeadRoundTrip(0, n, rest);
    case Blob(b) =>
      Regroup(Head(2, |b|), b, rest);
      HeadRoundTrip(2, |b|, b + rest);
      ReadStringOf(b, rest);
    case Text(t) =>
      Regroup(Head(3, |t|), t, rest);
      HeadRoundTrip(3, |t|, t + rest);
      ReadStringOf(t, rest);
  }

  /** The encoding of a canonical tree decodes to that tree, whatever follows it. */
  lemma {:induction false} ParseEmit(v: Value, rest: Bytes)
    requires IsCanonical(v)
    ensures Parse(Emit(v) + rest) == Ok(v, rest)
    decreases v, 1
  {
    hide Head, ReadArgument, ReadString, ParseItems, ParsePairs, EmitItems, EmitPairs;
    match v
    case Array(items) =>
      assert Emit(v) + rest == Head(4, |items|) + (EmitItems(items) + rest);
      HeadRoundTrip(4, |items|, EmitItems(items) + rest);
      ParseEmitItems(items, rest);
    case Map(pairs) =>
      assert Emit(v) + rest == Head(5, |pairs|) + (EmitPairs(pairs) + rest);
      HeadRoundTrip(5, |pairs|, EmitPairs(pairs) + rest);
      ParseEmitPairs(pairs, rest, [], {});
    case Bool(_) => SimpleRoundTrip(v, rest);
    case Null => SimpleRoundTrip(v, rest);
    case _ => StringRoundTrip(v, rest);
  }

  lemma {:induction false} ParseEmitItems(items: seq<Value>, rest: Bytes)
    requires AreCanonical(items)
    ensures ParseItems(EmitItems(items) + rest, |items|) == Ok(items, rest)
    decreases items, 0
  {
    hide Emit, Parse, IsCanonical;
    if items == [] {
      assert EmitItems(items) + rest == rest;
    } else {
      var tail := EmitItems(items[1..]) + rest;
      assert [items[0]] + items[1..] == items;
      EmitItemsCons(items[0], items[1..], rest);
      ParseEmit(items[0], tail);
      ParseEmitItems(items[1..], rest);
    }
  }

  lemma {:induction false} ParseEmitPairs(pairs: seq<Pair>, rest: Bytes, prev: Bytes, seen: set<Bytes>)
    requires AreCanonicalPairs(pairs, prev) && SeenBelow(seen, prev)
    ensures ParsePairs(EmitPairs(pairs) + rest, |pairs|, prev, seen) == Ok(pairs, rest)
    decreases pairs, 0
  {
    hide Emit, Parse, IsCanonical;
    if pairs == [] {
      assert EmitPairs(pairs) + rest == rest;
    } else {
      var p := pairs[0];
      var raw := Emit(p.key);
      var tail := EmitPairs(pairs[1..]) + rest;
      assert [p] + pairs[1..] == pairs;
      EmitPairsCons(p, pairs[1..], rest);
      ParseEmitPair(p, tail);
      var s := EmitPairs(pairs) + rest;
      assert Raw(s, Emit(p.value) + tail) == raw;
      EmitNonEmpty(p.key);
      NewKey(seen, prev, raw);
      ParseEmitPairs(pairs[1..], rest, raw, seen + {raw});
    }
  }

  lemma {:induction false} ParseEmitPair(p: Pair, tail: Bytes)
    requires IsCanonicalPair(p)
    ensures Parse(Emit(p.key) + (Emit(p.value) + tail)) == Ok(p.key, Emit(p.value) + tail)
    ensures Parse(Emit(p.value) + tail) == Ok(p.value, tail)
    decreases p, 0
  {
    ParseEmit(p.key, Emit(p.value) + tail);
    ParseEmit(p.value, tail);
  }
}
