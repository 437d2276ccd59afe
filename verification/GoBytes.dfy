/**
 The encoding of a Go value written out in bytes, kind by kind: a relation that refers to neither the
 trees nor the encoder, and is what the encoder computes.
 */
module GoBytes {
  import opened Bytes
  import opened Cbor
  import opened CborBytes
  import opened CborTheorems
  import opened CborOrder
  import opened GoValues

  /** The bytes the encoder has to give for a value; none are for a negative number or an unknown type. */
  ghost predicate IsEncodingOf(out: Bytes, g: GoValue)
    decreases g
  {
    match g
    case GoNil => out == [0xf6]
    case GoBool(b) => out == if b then [0xf5] else [0xf4]
    case GoUint(n) => IsHead(out, 0, n)
    case GoInt(i) => i >= 0 && IsHead(out, 0, i)
    case GoNumber(i) => i.Some? && i.value >= 0 && IsHead(out, 0, i.value)
    case GoString(s) => IsString(out, 3, s)
    case GoBytes(b) => IsString(out, 2, b)
    case GoSlice(items) => IsListOf(out, items)
    case GoMap(entries) => IsMapOf(out, entries)
    case GoItem(raw) => out == raw
    case GoOther => false
  }

  /** The head of a list and its items' encodings. */
  ghost predicate IsListOf(out: Bytes, items: seq<GoValue>)
    decreases items
  {
    exists parts: seq<Bytes> ::
      && |parts| == |items| && AreParts(out, parts, |items|)
      && forall i | 0 <= i < |items| :: IsEncodingOf(parts[i], items[i])
  }

  /** The head of a map and its entries' encodings, the entries put in ascending order of their keys. */
  ghost predicate IsMapOf(out: Bytes, entries: seq<GoEntry>)
    decreases entries, 1
  {
    exists sorted: seq<GoEntry>, keys: seq<Bytes>, values: seq<Bytes> ::
      && |sorted| == |keys| == |values| == |entries|
      && (forall e :: e in sorted <==> e in entries)
      && ShortestFirst(sorted) && IsMapBy(out, entries, sorted, keys, values)
  }

  ghost predicate IsMapBy(out: Bytes, entries: seq<GoEntry>, sorted: seq<GoEntry>, keys: seq<Bytes>, values: seq<Bytes>)
    requires |sorted| == |keys| == |values|
    decreases entries, 0
  {
    && HasHead(out, |entries|, InTurn(keys, values))
    && forall i | 0 <= i < |sorted| :: sorted[i] in entries && IsEntryOf(keys[i], values[i], sorted[i])
  }

  ghost predicate HasHead(out: Bytes, n: nat, rest: Bytes) {
    exists h :: IsHead(h, 5, n) && out == h + rest
  }

  ghost predicate IsEntryOf(key: Bytes, value: Bytes, e: GoEntry)
    decreases e
  {
    IsString(key, 3, e.key) && IsEncodingOf(value, e.value)
  }

  /** Map keys in ascending order: by length, and bytewise within one length. */
  ghost predicate ShortestFirst(sorted: seq<GoEntry>) {
    forall i | 0 <= i < |sorted| - 1 :: KeyBefore(sorted[i].key, sorted[i + 1].key)
  }

  ghost predicate KeyBefore(a: Bytes, b: Bytes) {
    |a| < |b| || (|a| == |b| && Before(a, b))
  }

  /** A Go value is encoded as the tree it stands for. */
  lemma {:induction false} EncodingIsTree(out: Bytes, g: GoValue)
    requires IsGo(g)
    ensures IsEncodingOf(out, g) <==> Supported(g) && out == Encode(ToValue(g))
    decreases g, 1
  {
    hide IsHead, IsString, Head, EmitItems, EmitPairs, CanonItems, CanonPairs, ToValues, ToPairs, IsListOf, IsMapOf, Decode;
    match g
    case GoNil =>
    case GoBool(_) =>
    case GoUint(n) => HeadExactly(out, 0, n);
    case GoInt(i) =>
      if i >= 0 {
        HeadExactly(out, 0, i);
      }
    case GoNumber(i) =>
      if i.Some? && i.value >= 0 {
        HeadExactly(out, 0, i.value);
      }
    case GoString(s) => StringExactly(out, 3, s);
    case GoBytes(b) => StringExactly(out, 2, b);
    case GoSlice(items) => ListIsTree(out, items);
    case GoMap(entries) => MapIsTree(out, entries);
    case GoItem(raw) => RawIsEncoding(raw);
    case GoOther =>
  }

  /** A decoded item is encoded as its raw bytes. */
  lemma RawIsEncoding(raw: Bytes)
    requires Decode(raw).Ok?
    ensures Encode(ToValue(GoItem(raw))) == raw
  {
    Canonicity(raw);
  }

  lemma {:induction false} ListIsTree(out: Bytes, items: seq<GoValue>)
    requires |items| < TWO64 && forall i | 0 <= i < |items| :: IsGo(items[i])
    ensures IsListOf(out, items) <==>
      && (forall i | 0 <= i < |items| :: Supported(items[i]))
      && out == Head(4, |items|) + EmitItems(CanonItems(ToValues(items)))
    decreases items, 0
  {
    hide IsHead, Head, Flat, EmitItems, Canon, ToValue, Supported, IsGo;
    var trees := CanonItems(ToValues(items));
    FlatParts(trees);
    forall i | 0 <= i < |items|
      ensures trees[i] == Canon(ToValue(items[i]))
    {
      ToValuesAt(items, i);
      CanonItemsAt(ToValues(items), i);
    }
    HeadExactly(Head(4, |items|), 4, |items|);
    if parts: seq<Bytes> :|
      && |parts| == |items| && AreParts(out, parts, |items|)
      && forall i | 0 <= i < |items| :: IsEncodingOf(parts[i], items[i])
    {
      var h :| IsHead(h, 4, |items|) && out == h + Flat(parts);
      HeadExactly(h, 4, |items|);
      forall i | 0 <= i < |items|
        ensures Supported(items[i]) && parts[i] == Emit(trees[i])
      {
        EncodingIsTree(parts[i], items[i]);
      }
      assert parts == Parts(trees);
    }
    if (forall i | 0 <= i < |items| :: Supported(items[i])) && out == Head(4, |items|) + EmitItems(trees) {
      forall i | 0 <= i < |items|
        ensures IsEncodingOf(Parts(trees)[i], items[i])
      {
        EncodingIsTree(Parts(trees)[i], items[i]);
      }
      assert AreParts(out, Parts(trees), |items|);
    }
  }

  /** The sorted pair of an entry. */
  function SortedPair(e: GoEntry): Pair {
    CanonPair(ToPair(e))
  }

  function SortedPairs(sorted: seq<GoEntry>): (r: seq<Pair>)
    ensures |r| == |sorted| && forall i | 0 <= i < |r| :: r[i] == SortedPair(sorted[i])
  {
    seq(|sorted|, i requires 0 <= i < |sorted| => SortedPair(sorted[i]))
  }

  lemma SortedPairCanonical(e: GoEntry)
    requires IsGoEntry(e)
    ensures IsCanonicalPair(SortedPair(e)) && SortedPair(e).key == Text(e.key)
  {
    ToPairEncodable(e);
    CanonPairCanonical(ToPair(e));
  }

  /** Entries in ascending order of their keys are a canonical pair list. */
  lemma AscendingIsCanonical(sorted: seq<GoEntry>)
    requires forall i | 0 <= i < |sorted| :: IsGoEntry(sorted[i])
    ensures ShortestFirst(sorted) <==> AreCanonicalPairs(SortedPairs(sorted), [])
  {
    hide Emit, SortedPair, IsCanonicalPair, AreCanonicalPairs, IsGo, Less, KeyBefore;
    var pairs := SortedPairs(sorted);
    CanonicalKeys(pairs, []);
    KeysNotEmpty(pairs);
    forall i | 0 <= i < |sorted|
      ensures IsCanonicalPair(pairs[i]) && pairs[i].key == Text(sorted[i].key)
    {
      SortedPairCanonical(sorted[i]);
    }
    forall i | 0 <= i < |sorted| - 1
      ensures KeyBefore(sorted[i].key, sorted[i + 1].key) <==> Less(Emit(pairs[i].key), Emit(pairs[i + 1].key))
    {
      KeyOrder(sorted[i].key, sorted[i + 1].key);
    }
    if ShortestFirst(sorted) {
      assert forall i | 0 <= i < |sorted| - 1 :: KeyBefore(sorted[i].key, sorted[i + 1].key);
    }
  }

  lemma KeyOrder(a: Bytes, b: Bytes)
    requires |a| < TWO64 && |b| < TWO64
    ensures KeyBefore(a, b) <==> Less(Emit(Text(a)), Emit(Text(b)))
  {
    hide Emit, Less, Before;
    TextKeysLengthFirst(a, b);
    LessExactly(a, b);
  }

  ghost predicate HasEntry(x: Pair, entries: seq<GoEntry>) {
    exists e :: e in entries && SortedPair(e) == x
  }

  ghost function EntryBehind(x: Pair, entries: seq<GoEntry>): (e: GoEntry)
    requires HasEntry(x, entries)
    ensures e in entries && SortedPair(e) == x
  {
    var e :| e in entries && SortedPair(e) == x;
    e
  }

  /** The pairs of the sorted tree are those of the entries. */
  lemma PairsOfEntries(entries: seq<GoEntry>)
    requires AreGoEntries(entries)
    ensures AreCanonicalPairs(CanonPairs(ToPairs(entries)), [])
    ensures forall x :: x in CanonPairs(ToPairs(entries)) <==> HasEntry(x, entries)
  {
    hide CanonPair, CanonPairs, ToPair, ToPairs, AreCanonicalPairs, IsGoEntry, EncodablePair;
    var pairs := ToPairs(entries);
    ToPairsEncodable(entries);
    CanonPairsCanonical(pairs);
    CanonPairsMembers(pairs);
    forall i | 0 <= i < |entries|
      ensures pairs[i] == ToPair(entries[i])
    {
      ToPairsAt(entries, i);
    }
    forall x
      ensures SortsTo(x, pairs) <==> HasEntry(x, entries)
    {
      if i :| 0 <= i < |pairs| && CanonPair(pairs[i]) == x {
        assert entries[i] in entries && SortedPair(entries[i]) == x;
      }
      if e :| e in entries && SortedPair(e) == x {
        var i :| 0 <= i < |entries| && entries[i] == e;
        assert CanonPair(pairs[i]) == x;
      }
    }
  }

  /** Putting the entries in ascending order is sorting their pairs. */
  lemma OrderIsSort(sorted: seq<GoEntry>, entries: seq<GoEntry>)
    requires AreGoEntries(entries) && forall e :: e in sorted <==> e in entries
    ensures ShortestFirst(sorted) <==> SortedPairs(sorted) == CanonPairs(ToPairs(entries))
  {
    hide SortedPair, AreCanonicalPairs, CanonPairs, ToPairs, IsGoEntry;
    forall i | 0 <= i < |sorted|
      ensures IsGoEntry(sorted[i])
    {
      assert sorted[i] in entries;
    }
    AscendingIsCanonical(sorted);
    PairsOfEntries(entries);
    if ShortestFirst(sorted) {
      forall x
        ensures x in SortedPairs(sorted) <==> HasEntry(x, entries)
      {
        if e :| e in entries && SortedPair(e) == x {
          var i :| 0 <= i < |sorted| && sorted[i] == e;
          assert SortedPairs(sorted)[i] == x;
        }
      }
      SortedUnique(SortedPairs(sorted), CanonPairs(ToPairs(entries)), []);
    }
  }

  /** The entries can be put in that order. */
  lemma OrderExists(entries: seq<GoEntry>) returns (sorted: seq<GoEntry>)
    requires AreGoEntries(entries)
    ensures |sorted| == |entries| && (forall e :: e in sorted <==> e in entries)
    ensures SortedPairs(sorted) == CanonPairs(ToPairs(entries))
  {
    hide SortedPair, AreCanonicalPairs, CanonPairs, ToPairs, IsGoEntry;
    var pairs := CanonPairs(ToPairs(entries));
    PairsOfEntries(entries);
    assert forall i | 0 <= i < |pairs| :: pairs[i] in pairs;
    sorted := seq(|pairs|, i requires 0 <= i < |pairs| => EntryBehind(pairs[i], entries));
    assert SortedPairs(sorted) == pairs;
    forall e | e in entries
      ensures e in sorted
    {
      assert SortedPair(e) in pairs;
      var i :| 0 <= i < |pairs| && pairs[i] == SortedPair(e);
      SameKeySameEntry(entries, sorted[i], e);
    }
  }

  lemma SameKeySameEntry(entries: seq<GoEntry>, d: GoEntry, e: GoEntry)
    requires AreGoEntries(entries) && d in entries && e in entries && SortedPair(d) == SortedPair(e)
    ensures d == e
  {
    hide CanonPair;
    SortedPairCanonical(d);
    SortedPairCanonical(e);
  }

  lemma {:induction false} EntryIsTree(key: Bytes, value: Bytes, e: GoEntry)
    requires IsGoEntry(e)
    ensures IsEntryOf(key, value, e) <==>
      SupportedEntry(e) && key == Emit(SortedPair(e).key) && value == Emit(SortedPair(e).value)
    decreases e, 2
  {
    hide IsString, Head;
    StringExactly(key, 3, e.key);
    EncodingIsTree(value, e.value);
  }

  lemma {:induction false} EntriesAreTrees(out: Bytes, entries: seq<GoEntry>, sorted: seq<GoEntry>, keys: seq<Bytes>, values: seq<Bytes>)
    requires AreGoEntries(entries) && (forall e :: e in sorted <==> e in entries)
    requires |sorted| == |keys| == |values| == |entries|
    ensures IsMapBy(out, entries, sorted, keys, values) <==>
      && (forall i | 0 <= i < |sorted| :: SupportedEntry(sorted[i]))
      && keys == Keys(SortedPairs(sorted)) && values == Values(SortedPairs(sorted))
      && out == Head(5, |entries|) + EmitPairs(SortedPairs(sorted))
    decreases entries, 0
  {
    hide IsHead, Head, InTurn, EmitPairs, SortedPair, SupportedEntry, IsGoEntry, IsEntryOf, Emit;
    var pairs := SortedPairs(sorted);
    forall i | 0 <= i < |sorted|
      ensures sorted[i] in entries
      ensures IsEntryOf(keys[i], values[i], sorted[i]) <==>
        SupportedEntry(sorted[i]) && keys[i] == Emit(pairs[i].key) && values[i] == Emit(pairs[i].value)
    {
      assert sorted[i] in entries;
      EntryIsTree(keys[i], values[i], sorted[i]);
    }
    InTurnPairs(pairs);
    MapHead(out, |entries|, InTurn(keys, values));
    if IsMapBy(out, entries, sorted, keys, values) {
      assert keys == Keys(pairs) && values == Values(pairs);
    }
  }

  lemma MapHead(out: Bytes, n: nat, rest: Bytes)
    requires n < TWO64
    ensures HasHead(out, n, rest) <==> out == Head(5, n) + rest
  {
    hide IsHead, Head;
    HeadExactly(Head(5, n), 5, n);
    if h :| IsHead(h, 5, n) && out == h + rest {
      HeadExactly(h, 5, n);
    }
  }

  lemma {:induction false} MapIsTree(out: Bytes, entries: seq<GoEntry>)
    requires AreGoEntries(entries)
    ensures IsMapOf(out, entries) <==>
      && (forall i | 0 <= i < |entries| :: SupportedEntry(entries[i]))
      && out == Head(5, |entries|) + EmitPairs(CanonPairs(ToPairs(entries)))
    decreases entries, 1
  {
    hide IsHead, Head, InTurn, EmitPairs, CanonPairs, ToPairs, SortedPair, SortedPairs, SupportedEntry, IsGoEntry, IsEntryOf,
      ShortestFirst, Emit;
    if sorted: seq<GoEntry>, keys: seq<Bytes>, values: seq<Bytes> :|
      && |sorted| == |keys| == |values| == |entries|
      && (forall e :: e in sorted <==> e in entries)
      && ShortestFirst(sorted) && IsMapBy(out, entries, sorted, keys, values)
    {
      OrderIsSort(sorted, entries);
      EntriesAreTrees(out, entries, sorted, keys, values);
      AllEntries(sorted, entries);
    }
    if
      && (forall i | 0 <= i < |entries| :: SupportedEntry(entries[i]))
      && out == Head(5, |entries|) + EmitPairs(CanonPairs(ToPairs(entries)))
    {
      var sorted := OrderExists(entries);
      OrderIsSort(sorted, entries);
      AllEntries(entries, sorted);
      EntriesAreTrees(out, entries, sorted, Keys(SortedPairs(sorted)), Values(SortedPairs(sorted)));
    }
  }

  lemma AllEntries(sorted: seq<GoEntry>, entries: seq<GoEntry>)
    requires forall e :: e in sorted <==> e in entries
    requires forall i | 0 <= i < |sorted| :: SupportedEntry(sorted[i])
    ensures forall i | 0 <= i < |entries| :: SupportedEntry(entries[i])
  {
    hide SupportedEntry;
    assert forall i | 0 <= i < |entries| :: entries[i] in entries;
    assert forall e | e in sorted :: SupportedEntry(e);
  }

  /** The encoder's output is the encoding that is written out, and there is at most one. */
  lemma EncodingExactly(g: GoValue)
    requires IsGo(g)
    ensures forall b :: (if Supported(g) then b == Encode(ToValue(g)) else false) <==> IsEncodingOf(b, g)
  {
    forall b
      ensures (if Supported(g) then b == Encode(ToValue(g)) else false) <==> IsEncodingOf(b, g)
    {
      EncodingIsTree(b, g);
    }
  }
}
