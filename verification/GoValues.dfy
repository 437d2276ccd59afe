/** The Go values the encoder is called on, and the trees they stand for. */
module GoValues {
  import opened Bytes
  import opened Cbor
  import opened CborTheorems
  import opened CborOrder
  import opened Wrappers

  /**
   What the encoder is called on. Numbers of the unsigned and of the signed Go types are told apart
   by sign only; a JSON number is what its Int64 makes of it. A map of strings is copied to a map
   first, and a list of strings is walked like any list. An item is a decoded one with its raw bytes.
   */
  datatype GoValue =
    | GoNil
    | GoBool(b: bool)
    | GoUint(n: nat)
    | GoInt(i: int)
    | GoNumber(int64: Option<int>)
    | GoString(s: Bytes)
    | GoBytes(bytes: Bytes)
    | GoMap(entries: seq<GoEntry>)
    | GoSlice(items: seq<GoValue>)
    | GoItem(raw: Bytes)
    | GoOther

  datatype GoEntry = GoEntry(key: Bytes, value: GoValue)

  /** What Go's types say of a value: numbers fit 64 bits, map keys are distinct, raw bytes came out of the decoder. */
  ghost predicate IsGo(g: GoValue) {
    match g
    case GoUint(n) => n < TWO64
    case GoInt(i) => i < TWO64
    case GoNumber(i) => i.Some? ==> i.value < TWO64
    case GoString(s) => |s| < TWO64
    case GoBytes(b) => |b| < TWO64
    case GoMap(entries) => AreGoEntries(entries)
    case GoSlice(items) => |items| < TWO64 && forall i | 0 <= i < |items| :: IsGo(items[i])
    case GoItem(raw) => Decode(raw).Ok?
    case _ => true
  }

  ghost predicate AreGoEntries(entries: seq<GoEntry>) {
    && |entries| < TWO64
    && (forall i | 0 <= i < |entries| :: IsGoEntry(entries[i]))
    && (forall i, j | 0 <= i < j < |entries| :: entries[i].key != entries[j].key)
  }

  ghost predicate IsGoEntry(e: GoEntry) {
    |e.key| < TWO64 && IsGo(e.value)
  }

  /** The encoder takes the value: no negative number and no type it does not know, at any depth. */
  predicate Supported(g: GoValue) {
    match g
    case GoInt(i) => i >= 0
    case GoNumber(i) => i.Some? && i.value >= 0
    case GoMap(entries) => forall i | 0 <= i < |entries| :: SupportedEntry(entries[i])
    case GoSlice(items) => forall i | 0 <= i < |items| :: Supported(items[i])
    case GoOther => false
    case _ => true
  }

  predicate SupportedEntry(e: GoEntry) {
    Supported(e.value)
  }

  /** The tree a supported value stands for; null stands in for what is not supported. */
  function ToValue(g: GoValue): Value {
    match g
    case GoNil => Null
    case GoBool(b) => Bool(b)
    case GoUint(n) => Uint(n)
    case GoInt(i) => if i >= 0 then Uint(i) else Null
    case GoNumber(i) => if i.Some? && i.value >= 0 then Uint(i.value) else Null
    case GoString(s) => Text(s)
    case GoBytes(b) => Blob(b)
    case GoMap(entries) => Map(ToPairs(entries))
    case GoSlice(items) => Array(ToValues(items))
    case GoItem(raw) => if Decode(raw).Ok? then Decode(raw).value else Null
    case GoOther => Null
  }

  function ToValues(items: seq<GoValue>): (r: seq<Value>)
    ensures |r| == |items|
  {
    if items == [] then [] else [ToValue(items[0])] + ToValues(items[1..])
  }

  function ToPairs(entries: seq<GoEntry>): (r: seq<Pair>)
    ensures |r| == |entries|
  {
    if entries == [] then [] else [ToPair(entries[0])] + ToPairs(entries[1..])
  }

  function ToPair(e: GoEntry): Pair {
    Pair(Text(e.key), ToValue(e.value))
  }

  lemma {:induction false} ToValuesAt(items: seq<GoValue>, i: nat)
    requires i < |items|
    ensures ToValues(items)[i] == ToValue(items[i])
  {
    hide ToValue;
    if i > 0 {
      ToValuesAt(items[1..], i - 1);
    }
  }

  lemma {:induction false} ToPairsAt(entries: seq<GoEntry>, i: nat)
    requires i < |entries|
    ensures ToPairs(entries)[i] == ToPair(entries[i])
  {
    hide ToPair;
    if i > 0 {
      ToPairsAt(entries[1..], i - 1);
    }
  }

  /** Every Go value stands for an encodable tree. */
  lemma {:induction false} ToValueEncodable(g: GoValue)
    requires IsGo(g)
    ensures IsEncodable(ToValue(g))
    decreases g
  {
    match g
    case GoMap(entries) => ToPairsEncodable(entries);
    case GoSlice(items) =>
      forall i | 0 <= i < |items|
        ensures IsEncodable(ToValues(items)[i])
      {
        ToValueEncodable(items[i]);
        ToValuesAt(items, i);
      }
    case GoItem(raw) =>
      AcceptedExactly(raw, Decode(raw).value);
      CanonicalEncodable(Decode(raw).value);
    case _ =>
  }

  lemma {:induction false} ToPairEncodable(e: GoEntry)
    requires IsGoEntry(e)
    ensures EncodablePair(ToPair(e))
    decreases e
  {
    ToValueEncodable(e.value);
  }

  lemma {:induction false} ToPairsEncodable(entries: seq<GoEntry>)
    requires AreGoEntries(entries)
    ensures IsEncodable(Map(ToPairs(entries))) && EncodablePairs(ToPairs(entries))
    decreases entries
  {
    hide ToPair, IsGoEntry, EncodablePair;
    var pairs := ToPairs(entries);
    forall i | 0 <= i < |pairs|
      ensures EncodablePair(pairs[i])
    {
      ToPairEncodable(entries[i]);
      ToPairsAt(entries, i);
    }
    forall i, j | 0 <= i < j < |pairs|
      ensures pairs[i].key != pairs[j].key
    {
      PairKeys(entries, i);
      PairKeys(entries, j);
    }
    EncodableMap(pairs);
  }

  lemma PairKeys(entries: seq<GoEntry>, i: nat)
    requires i < |entries|
    ensures ToPairs(entries)[i].key == Text(entries[i].key)
  {
    ToPairsAt(entries, i);
  }

  lemma EncodableMap(pairs: seq<Pair>)
    requires EncodablePairs(pairs) && |pairs| < TWO64
    ensures IsEncodable(Map(pairs))
  {
  }
}
