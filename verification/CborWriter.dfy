/** The encoder as it runs: appending to one buffer, sorting each map's encoded keys. */
module CborWriter {
  import opened Bytes
  import opened Cbor
  import opened CborTheorems
  import opened GoValues
  import opened GoBytes
  import opened Wrappers

  /** A map entry together with its encoded key. */
  datatype Entry = Entry(entry: GoEntry, kcbor: Bytes)

  /** sort.Slice by encoded key. */
  function SortEntries(entries: seq<Entry>): (r: seq<Entry>)
    ensures |r| == |entries|
    ensures forall e :: e in r <==> e in entries
  {
    if entries == [] then []
    else
      assert entries == [entries[0]] + entries[1..];
      InsertEntry(entries[0], SortEntries(entries[1..]))
  }

  function InsertEntry(e: Entry, sorted: seq<Entry>): (r: seq<Entry>)
    ensures |r| == |sorted| + 1
    ensures forall x :: x in r <==> x == e || x in sorted
  {
    if sorted == [] || Less(e.kcbor, sorted[0].kcbor) then [e] + sorted
    else
      assert sorted == [sorted[0]] + sorted[1..];
      [sorted[0]] + InsertEntry(e, sorted[1..])
  }

  /** The entries carry, in order, what the sorted pairs encode. */
  ghost predicate Matches(entries: seq<Entry>, sorted: seq<Pair>) {
    && |entries| == |sorted|
    && forall i | 0 <= i < |entries| ::
         entries[i].kcbor == Emit(sorted[i].key) && CanonPair(ToPair(entries[i].entry)) == sorted[i]
  }

  lemma {:induction false} InsertMatches(e: Entry, p: Pair, entries: seq<Entry>, sorted: seq<Pair>)
    requires Matches(entries, sorted) && Matches([e], [p])
    ensures Matches(InsertEntry(e, entries), InsertPair(p, sorted))
  {
    hide Emit, CanonPair, ToPair;
    assert [e][0] == e && [p][0] == p;
    if entries != [] && !Less(e.kcbor, entries[0].kcbor) {
      InsertMatches(e, p, entries[1..], sorted[1..]);
    }
  }

  /** Each entry with its encoded key. */
  ghost predicate Keyed(keyed: seq<Entry>, entries: seq<GoEntry>) {
    && |keyed| == |entries|
    && forall i | 0 <= i < |entries| :: keyed[i] == Entry(entries[i], Emit(Text(entries[i].key)))
  }

  /** Sorting by encoded key puts the pairs in the canonical order. */
  lemma {:induction false} SortMatches(keyed: seq<Entry>, entries: seq<GoEntry>)
    requires Keyed(keyed, entries)
    ensures Matches(SortEntries(keyed), CanonPairs(ToPairs(entries)))
  {
    hide Emit, Canon, ToValue;
    if entries != [] {
      SortMatches(keyed[1..], entries[1..]);
      InsertMatches(keyed[0], CanonPair(ToPair(entries[0])),
                    SortEntries(keyed[1..]), CanonPairs(ToPairs(entries[1..])));
    }
  }

  lemma {:induction false} EmitItemsSnoc(items: seq<Value>, v: Value)
    ensures EmitItems(items + [v]) == EmitItems(items) + Emit(v)
  {
    hide Emit;
    if items == [] {
      assert items + [v] == [v];
    } else {
      EmitItemsSnoc(items[1..], v);
      assert (items + [v])[1..] == items[1..] + [v];
    }
  }

  lemma {:induction false} EmitPairsSnoc(pairs: seq<Pair>, p: Pair)
    ensures EmitPairs(pairs + [p]) == EmitPairs(pairs) + EmitPair(p)
  {
    hide EmitPair;
    if pairs == [] {
      assert pairs + [p] == [p];
    } else {
      EmitPairsSnoc(pairs[1..], p);
      assert (pairs + [p])[1..] == pairs[1..] + [p];
    }
  }

  lemma {:induction false} CanonItemsSnoc(items: seq<Value>, v: Value)
    ensures CanonItems(items + [v]) == CanonItems(items) + [Canon(v)]
  {
    hide Canon;
    if items == [] {
      assert items + [v] == [v];
    } else {
      CanonItemsSnoc(items[1..], v);
      assert (items + [v])[1..] == items[1..] + [v];
    }
  }

  /** The explicit bytes of a narrow head argument are its big-endian form. */
  lemma NarrowBytes(n: nat)
    ensures ToBigEndian(n, 1) == [n % 256]
    ensures ToBigEndian(n, 2) == [n / 0x100 % 256, n % 256]
  {
    assert ToBigEndian(n, 1) == ToBigEndian(n / 256, 0) + [n % 256];
    assert ToBigEndian(n / 0x100, 1) == ToBigEndian(n / 0x1_0000, 0) + [n / 0x100 % 256];
  }

  /** And so are those of the widest one. */
  lemma WideBytes(n: nat)
    ensures ToBigEndian(n, 8) ==
      [n / 0x100_0000_0000_0000 % 256, n / 0x1_0000_0000_0000 % 256,
       n / 0x100_0000_0000 % 256, n / 0x1_0000_0000 % 256] + ToBigEndian(n, 4)
  {
    hide Shift4, ToBigEndian;
    ToBigEndianSplit(n, 4);
    Shift4Value(n);
    HighParts(n);
    FourBytes(n / 0x1_0000_0000);
  }

  lemma Shift4Value(n: nat)
    ensures Shift4(n) == n / 0x1_0000_0000
  {
    assert n / 256 / 256 == n / 0x1_0000;
    assert n / 256 / 256 / 256 / 256 == n / 0x1_0000 / 0x1_0000;
  }

  lemma HighParts(n: nat)
    ensures n / 0x1_0000_0000 / 0x100 == n / 0x100_0000_0000
    ensures n / 0x1_0000_0000 / 0x1_0000 == n / 0x1_0000_0000_0000
    ensures n / 0x1_0000_0000 / 0x100_0000 == n / 0x100_0000_0000_0000
  {
  }

  function Shift4(n: nat): nat {
    n / 256 / 256 / 256 / 256
  }

  lemma FourBytes(m: nat)
    ensures ToBigEndian(m, 4) == [m / 0x100_0000 % 256, m / 0x1_0000 % 256, m / 0x100 % 256, m % 256]
  {
    assert ToBigEndian(m / 0x100_0000, 1) == ToBigEndian(m / 0x1_0000_0000, 0) + [m / 0x100_0000 % 256];
    assert ToBigEndian(m / 0x1_0000, 2) == ToBigEndian(m / 0x100_0000, 1) + [m / 0x1_0000 % 256];
    assert ToBigEndian(m / 0x100, 3) == ToBigEndian(m / 0x1_0000, 2) + [m / 0x100 % 256];
  }

  lemma LastByte(n: nat, k: nat)
    ensures ToBigEndian(n, k + 1) == ToBigEndian(n / 256, k) + [n % 256]
  {
  }

  /** Eight bytes are four high ones and four low ones. */
  lemma ToBigEndianSplit(n: nat, k: nat)
    ensures ToBigEndian(n, k + 4) == ToBigEndian(Shift4(n), k) + ToBigEndian(n, 4)
  {
    hide ToBigEndian;
    var a, b, c, d := n / 256, n / 256 / 256, n / 256 / 256 / 256, Shift4(n);
    LastByte(n, k + 3);
    LastByte(a, k + 2);
    LastByte(b, k + 1);
    LastByte(c, k);
    LastByte(n, 3);
    LastByte(a, 2);
    LastByte(b, 1);
    LastByte(c, 0);
    NoBytes(d);
  }

  lemma NoBytes(n: nat)
    ensures ToBigEndian(n, 0) == []
  {
  }

  lemma NoPairs(pairs: seq<Pair>)
    ensures EmitPairs(pairs[..0]) == []
  {
  }

  lemma PairsSnoc(pairs: seq<Pair>, i: nat)
    requires i < |pairs|
    ensures EmitPairs(pairs[..i + 1]) == EmitPairs(pairs[..i]) + EmitPair(pairs[i])
  {
    assert pairs[..i + 1] == pairs[..i] + [pairs[i]];
    EmitPairsSnoc(pairs[..i], pairs[i]);
  }

  lemma NotAllSupported(entries: seq<GoEntry>, e: GoEntry)
    requires e in entries && !SupportedEntry(e)
    ensures !forall i | 0 <= i < |entries| :: SupportedEntry(entries[i])
  {
    var i :| 0 <= i < |entries| && entries[i] == e;
  }

  lemma NoItems(items: seq<GoValue>)
    ensures EmitItems(CanonItems(ToValues(items[..0]))) == []
  {
  }

  /** One more item of a list is one more encoding. */
  lemma ItemsSnoc(items: seq<GoValue>, i: nat)
    requires i < |items|
    ensures EmitItems(CanonItems(ToValues(items[..i + 1]))) ==
            EmitItems(CanonItems(ToValues(items[..i]))) + Encode(ToValue(items[i]))
  {
    hide ToValue, Emit, Canon;
    assert items[..i + 1] == items[..i] + [items[i]];
    ToValuesSnoc(items[..i], items[i]);
    CanonItemsSnoc(ToValues(items[..i]), ToValue(items[i]));
    EmitItemsSnoc(CanonItems(ToValues(items[..i])), Canon(ToValue(items[i])));
  }

  class Writer {
    var out: Bytes

    constructor ()
      ensures out == []
    {
      out := [];
    }

    method AppendMajor(major: nat, n: nat)
      requires major < 8 && n < TWO64
      modifies this
      ensures out == old(out) + Head(major, n)
    {
      hide ToBigEndian;
      NarrowBytes(n);
      FourBytes(n);
      WideBytes(n);
      var head := major * 32;
      if n < 24 {
        out := out + [head + n];
      } else if n <= 0xff {
        out := out + [head + 24, n % 256];
      } else if n <= 0xffff {
        out := out + [head + 25, n / 0x100 % 256, n % 256];
      } else if n <= 0xffff_ffff {
        out := out + [head + 26, n / 0x100_0000 % 256, n / 0x1_0000 % 256, n / 0x100 % 256, n % 256];
      } else {
        out := out + [head + 27,
                      n / 0x100_0000_0000_0000 % 256, n / 0x1_0000_0000_0000 % 256,
                      n / 0x100_0000_0000 % 256, n / 0x1_0000_0000 % 256,
                      n / 0x100_0000 % 256, n / 0x1_0000 % 256, n / 0x100 % 256, n % 256];
      }
    }

    /**
     Appends the one encoding of a value the encoder supports. For any other it fails; what was
     written before stays.
     */
    method AppendCanonical(g: GoValue) returns (ok: bool)
      requires IsGo(g)
      modifies this
      ensures ok <==> Supported(g)
      ensures ok ==> out == old(out) + Encode(ToValue(g))
      ensures ok ==> IsEncodingOf(out[|old(out)|..], g)
      ensures old(out) <= out
      decreases g, 1
    {
      hide IsEncodingOf, Head, EmitItems, EmitPairs, CanonItems, CanonPairs, ToValues, ToPairs, SupportedEntry, Decode;
      EncodingIsTree(Encode(ToValue(g)), g);
      ghost var encoding := Encode(ToValue(g));
      assert (old(out) + encoding)[|old(out)|..] == encoding;
      ok := true;
      match g
      case GoNil => out := out + [0xf6];
      case GoBool(b) => out := out + (if b then [0xf5] else [0xf4]);
      case GoUint(n) => AppendMajor(0, n);
      case GoInt(i) =>
        if i < 0 {
          return false;
        }
        AppendMajor(0, i);
      case GoNumber(i) =>
        if i == None || i.value < 0 {
          return false;
        }
        AppendMajor(0, i.value);
      case GoString(s) =>
        AppendMajor(3, |s|);
        out := out + s;
      case GoBytes(b) =>
        AppendMajor(2, |b|);
        out := out + b;
      case GoMap(entries) =>
        ok := AppendCanonicalMap(entries);
      case GoSlice(items) =>
        ok := AppendSlice(items);
      case GoItem(raw) =>
        RawIsEncoding(raw);
        out := out + raw;
      case GoOther => ok := false;
    }

    method AppendSlice(items: seq<GoValue>) returns (ok: bool)
      requires |items| < TWO64 && forall i | 0 <= i < |items| :: IsGo(items[i])
      modifies this
      ensures ok <==> forall i | 0 <= i < |items| :: Supported(items[i])
      ensures ok ==> out == old(out) + (Head(4, |items|) + EmitItems(CanonItems(ToValues(items))))
      ensures old(out) <= out
      decreases items, 0
    {
      hide EmitItems, CanonItems, ToValues, Encode, Head, IsGo, Supported, ToValue;
      AppendMajor(4, |items|);
      NoItems(items);
      for i := 0 to |items|
        invariant forall j | 0 <= j < i :: Supported(items[j])
        invariant out == old(out) + (Head(4, |items|) + EmitItems(CanonItems(ToValues(items[..i]))))
      {
        ok := AppendCanonical(items[i]);
        if !ok {
          return;
        }
        ItemsSnoc(items, i);
      }
      assert items[..|items|] == items;
      ok := true;
    }

    method AppendCanonicalMap(entries: seq<GoEntry>) returns (ok: bool)
      requires AreGoEntries(entries)
      modifies this
      ensures ok <==> forall i | 0 <= i < |entries| :: SupportedEntry(entries[i])
      ensures ok ==> out == old(out) + (Head(5, |entries|) + EmitPairs(CanonPairs(ToPairs(entries))))
      ensures old(out) <= out
      decreases entries, 2
    {
      hide CanonPairs, CanonPair, Head, IsGoEntry, SupportedEntry, SortEntries, Emit, EmitPair, EmitPairs, ToPair, ToPairs, Keyed;
      var keyed := EncodeKeys(entries);
      var sorted := SortEntries(keyed);
      SortMatches(keyed, entries);
      ghost var pairs := CanonPairs(ToPairs(entries));
      NoPairs(pairs);
      AppendMajor(5, |sorted|);
      for i := 0 to |sorted|
        invariant forall j | 0 <= j < i :: SupportedEntry(sorted[j].entry)
        invariant out == old(out) + (Head(5, |sorted|) + EmitPairs(pairs[..i]))
      {
        KeyedMember(keyed, entries, sorted[i]);
        ok := AppendEntry(sorted[i].entry, sorted[i].kcbor);
        if !ok {
          NotAllSupported(entries, sorted[i].entry);
          return;
        }
        PairsSnoc(pairs, i);
      }
      assert pairs[..|pairs|] == pairs;
      AllSupported(keyed, entries, sorted);
      ok := true;
    }

    method AppendEntry(e: GoEntry, kcbor: Bytes) returns (ok: bool)
      requires IsGoEntry(e) && kcbor == Emit(Text(e.key))
      modifies this
      ensures ok <==> SupportedEntry(e)
      ensures ok ==> out == old(out) + EmitPair(CanonPair(ToPair(e)))
      ensures old(out) <= out
      decreases e, 2
    {
      hide Emit, Canon, ToValue, IsEncodingOf, IsGo, Supported;
      out := out + kcbor;
      ok := AppendCanonical(e.value);
    }
  }

  lemma KeyedMember(keyed: seq<Entry>, entries: seq<GoEntry>, x: Entry)
    requires Keyed(keyed, entries) && x in keyed
    ensures x.entry in entries && x.kcbor == Emit(Text(x.entry.key))
  {
    var j :| 0 <= j < |keyed| && keyed[j] == x;
  }

  lemma AllSupported(keyed: seq<Entry>, entries: seq<GoEntry>, sorted: seq<Entry>)
    requires Keyed(keyed, entries) && forall e :: e in sorted <==> e in keyed
    requires forall j | 0 <= j < |sorted| :: SupportedEntry(sorted[j].entry)
    ensures forall i | 0 <= i < |entries| :: SupportedEntry(entries[i])
  {
    hide SupportedEntry;
    forall i | 0 <= i < |entries|
      ensures SupportedEntry(entries[i])
    {
      assert keyed[i] in keyed;
      var j :| 0 <= j < |sorted| && sorted[j] == keyed[i];
    }
  }

  lemma {:induction false} ToValuesSnoc(items: seq<GoValue>, g: GoValue)
    ensures ToValues(items + [g]) == ToValues(items) + [ToValue(g)]
  {
    hide ToValue;
    if items == [] {
      assert items + [g] == [g];
    } else {
      ToValuesSnoc(items[1..], g);
      assert (items + [g])[1..] == items[1..] + [g];
    }
  }

  /** A text key on its own. */
  method EncodeKey(s: Bytes) returns (kcbor: Bytes)
    requires |s| < TWO64
    ensures kcbor == Emit(Text(s))
  {
    var w := new Writer();
    w.AppendMajor(3, |s|);
    w.out := w.out + s;
    kcbor := w.out;
  }

  method EncodeKeys(entries: seq<GoEntry>) returns (keyed: seq<Entry>)
    requires AreGoEntries(entries)
    ensures Keyed(keyed, entries) && |keyed| == |entries|
  {
    hide Emit, IsGo;
    keyed := [];
    for i := 0 to |entries|
      invariant |keyed| == i
      invariant forall j | 0 <= j < i :: keyed[j] == Entry(entries[j], Emit(Text(entries[j].key)))
    {
      var kcbor := EncodeKey(entries[i].key);
      keyed := keyed + [Entry(entries[i], kcbor)];
    }
  }

  /** The whole encoder: the one encoding of a supported value, and no bytes for any other. */
  method EncodeCanonical(g: GoValue) returns (out: Option<Bytes>)
    requires IsGo(g)
    ensures out == if Supported(g) then Some(Encode(ToValue(g))) else None
    ensures forall b :: out == Some(b) <==> IsEncodingOf(b, g)
  {
    var w := new Writer();
    var ok := w.AppendCanonical(g);
    assert [] + Encode(ToValue(g)) == Encode(ToValue(g));
    EncodingExactly(g);
    return if ok then Some(w.out) else None;
  }

  /** What was encoded is accepted by the decoder as the value it was made from, maps sorted. */
  lemma EncodedIsAccepted(g: GoValue)
    requires IsGo(g)
    ensures Decode(Encode(ToValue(g))) == Ok(Canon(ToValue(g)), [])
  {
    ToValueEncodable(g);
    RoundTrip(ToValue(g));
  }
}
