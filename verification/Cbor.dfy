/**
 The deterministic CBOR subset of the audit envelopes: what the parser accepts and what the
 encoder writes, as functions on byte strings. CborProofs relates the two and CborCodec refines
 the imperative parser and encoder to them.
 */
module Cbor {
  import opened Bytes

  const TWO64: nat := 0x1_0000_0000_0000_0000

  /** A decoded item. A Go string is a byte string, so texts are bytes. */
  datatype Value =
    | Uint(n: nat)
    | Blob(b: Bytes)
    | Text(s: Bytes)
    | Bool(v: bool)
    | Null
    | Array(items: seq<Value>)
    | Map(pairs: seq<Pair>)

  datatype Pair = Pair(key: Value, value: Value)

  datatype Error =
    | UnexpectedEnd
    | NonShortest
    | Indefinite
    | LengthExceeds
    | KeyOrder
    | DuplicateKey
    | UnsupportedSimple
    | UnsupportedMajor
    | TrailingBytes

  /** What a parsing step makes of its input: a value and the bytes it leaves. */
  datatype Parsed<+T> = Ok(value: T, rest: Bytes) | Err(error: Error) {
    predicate IsFailure() { Err? }

    function PropagateFailure<U>(): Parsed<U>
      requires Err?
    {
      Err(error)
    }

    function Extract(): (T, Bytes)
      requires Ok?
    {
      (value, rest)
    }
  }

  /** A big-endian number of k bytes. */
  function ReadN(k: nat, s: Bytes): (r: Parsed<nat>)
    ensures r.Ok? ==> |r.rest| <= |s|
  {
    if |s| < k then Err(UnexpectedEnd) else Ok(BigEndian(s[..k]), s[k..])
  }

  /** The argument that follows a head byte, refused unless it is in shortest form. */
  function ReadArgument(ai: nat, s: Bytes): (r: Parsed<nat>)
    ensures r.Ok? ==> |r.rest| <= |s|
  {
    if ai < 24 then Ok(ai, s)
    else if ai == 24 then ReadAbove(1, 23, s)
    else if ai == 25 then ReadAbove(2, 0xff, s)
    else if ai == 26 then ReadAbove(4, 0xffff, s)
    else if ai == 27 then ReadAbove(8, 0xffff_ffff, s)
    else Err(Indefinite)
  }

  function ReadAbove(k: nat, limit: nat, s: Bytes): (r: Parsed<nat>)
    ensures r.Ok? ==> |r.rest| <= |s|
  {
    var (n, rest) :- ReadN(k, s);
    if n <= limit then Err(NonShortest) else Ok(n, rest)
  }

  function ReadString(n: nat, s: Bytes): (r: Parsed<Bytes>)
    ensures r.Ok? ==> |r.rest| <= |s|
  {
    if n > |s| then Err(LengthExceeds) else Ok(s[..n], s[n..])
  }

  /** One item from the front of s. */
  function Parse(s: Bytes): (r: Parsed<Value>)
    ensures r.Ok? ==> |r.rest| < |s|
    decreases |s|, 0
  {
    if s == [] then Err(UnexpectedEnd)
    else
      var major, ai := s[0] / 32, s[0] % 32;
      if major == 7 then ParseSimple(ai, s[1..])
      else if major !in {0, 2, 3, 4, 5} then Err(UnsupportedMajor)
      else
        var (n, rest) :- ReadArgument(ai, s[1..]);
        match major
        case 0 => Ok(Uint(n), rest)
        case 2 =>
          var (b, rest') :- ReadString(n, rest);
          Ok(Blob(b), rest')
        case 3 =>
          var (t, rest') :- ReadString(n, rest);
          Ok(Text(t), rest')
        case 4 =>
          var (items, rest') :- ParseItems(rest, n);
          Ok(Array(items), rest')
        case _ =>
          var (pairs, rest') :- ParsePairs(rest, n, [], {});
          Ok(Map(pairs), rest')
  }

  function ParseSimple(ai: nat, rest: Bytes): (r: Parsed<Value>)
    ensures r.Ok? ==> r.rest == rest
  {
    if ai == 20 then Ok(Bool(false), rest)
    else if ai == 21 then Ok(Bool(true), rest)
    else if ai == 22 then Ok(Null, rest)
    else Err(UnsupportedSimple)
  }

  function ParseItems(s: Bytes, n: nat): (r: Parsed<seq<Value>>)
    ensures r.Ok? ==> |r.rest| <= |s| && |r.value| == n
    decreases |s|, 1
  {
    if n == 0 then Ok([], s)
    else
      var (item, rest) :- Parse(s);
      var (items, rest') :- ParseItems(rest, n - 1);
      Ok([item] + items, rest')
  }

  /** The bytes of s that were consumed when `rest` is left. */
  function Raw(s: Bytes, rest: Bytes): Bytes
    requires |rest| <= |s|
  {
    s[..|s| - |rest|]
  }

  /**
   n key/value pairs. `prev` is the raw key before (empty when there is none, as a raw key never
   is) and `seen` the raw keys so far.
   */
  function ParsePairs(s: Bytes, n: nat, prev: Bytes, seen: set<Bytes>): (r: Parsed<seq<Pair>>)
    ensures r.Ok? ==> |r.rest| <= |s| && |r.value| == n
    decreases |s|, 1
  {
    if n == 0 then Ok([], s)
    else
      var (key, rest) :- Parse(s);
      var raw := Raw(s, rest);
      if prev != [] && !Less(prev, raw) then Err(KeyOrder)
      else if raw in seen then Err(DuplicateKey)
      else
        var (value, rest') :- Parse(rest);
        var (pairs, rest'') :- ParsePairs(rest', n - 1, raw, seen + {raw});
        Ok([Pair(key, value)] + pairs, rest'')
  }

  /** A whole input: one item and nothing after it. */
  function Decode(data: Bytes): (r: Parsed<Value>)
    ensures r.Ok? ==> r.rest == []
  {
    var (v, rest) :- Parse(data);
    if rest != [] then Err(TrailingBytes) else Ok(v, rest)
  }

  /** The head byte and argument of an item, in shortest form. */
  function Head(major: nat, n: nat): Bytes
    requires major < 8
  {
    if n < 24 then [major * 32 + n]
    else if n <= 0xff then [major * 32 + 24] + ToBigEndian(n, 1)
    else if n <= 0xffff then [major * 32 + 25] + ToBigEndian(n, 2)
    else if n <= 0xffff_ffff then [major * 32 + 26] + ToBigEndian(n, 4)
    else [major * 32 + 27] + ToBigEndian(n, 8)
  }

  /** The encoding of a tree, each map in the order its pairs stand. */
  function Emit(v: Value): Bytes {
    match v
    case Uint(n) => Head(0, n)
    case Blob(b) => Head(2, |b|) + b
    case Text(s) => Head(3, |s|) + s
    case Bool(b) => if b then [0xf5] else [0xf4]
    case Null => [0xf6]
    case Array(items) => Head(4, |items|) + EmitItems(items)
    case Map(pairs) => Head(5, |pairs|) + EmitPairs(pairs)
  }

  function EmitItems(items: seq<Value>): Bytes {
    if items == [] then [] else Emit(items[0]) + EmitItems(items[1..])
  }

  function EmitPairs(pairs: seq<Pair>): Bytes {
    if pairs == [] then []
    else EmitPair(pairs[0]) + EmitPairs(pairs[1..])
  }

  function EmitPair(p: Pair): Bytes {
    Emit(p.key) + Emit(p.value)
  }

  /** Sizes fit 64 bits and every map's encoded keys strictly ascend (section 4.2.1 of RFC 8949). */
  predicate IsCanonical(v: Value) {
    match v
    case Uint(n) => n < TWO64
    case Blob(b) => |b| < TWO64
    case Text(s) => |s| < TWO64
    case Bool(_) => true
    case Null => true
    case Array(items) => |items| < TWO64 && AreCanonical(items)
    case Map(pairs) => |pairs| < TWO64 && AreCanonicalPairs(pairs, [])
  }

  predicate AreCanonical(items: seq<Value>) {
    items == [] || (IsCanonical(items[0]) && AreCanonical(items[1..]))
  }

  predicate AreCanonicalPairs(pairs: seq<Pair>, prev: Bytes) {
    pairs == [] ||
    (IsCanonicalPair(pairs[0]) && Less(prev, Emit(pairs[0].key)) &&
     AreCanonicalPairs(pairs[1..], Emit(pairs[0].key)))
  }

  predicate IsCanonicalPair(p: Pair) {
    IsCanonical(p.key) && IsCanonical(p.value)
  }

  /**
   What the encoder can encode: the pairs of a map are in Go's iteration order, under distinct keys.
   A map the encoder is given has text keys, a decoded item it copies may have any canonical ones.
   */
  predicate IsEncodable(v: Value) {
    match v
    case Uint(n) => n < TWO64
    case Blob(b) => |b| < TWO64
    case Text(s) => |s| < TWO64
    case Bool(_) => true
    case Null => true
    case Array(items) => |items| < TWO64 && forall i | 0 <= i < |items| :: IsEncodable(items[i])
    case Map(pairs) =>
      && |pairs| < TWO64
      && (forall i | 0 <= i < |pairs| :: IsCanonical(pairs[i].key) && IsEncodable(pairs[i].value))
      && (forall i, j | 0 <= i < j < |pairs| :: pairs[i].key != pairs[j].key)
  }

  /** The same tree with the pairs of every map in the order of their encoded keys. */
  function Canon(v: Value): Value {
    match v
    case Array(items) => Array(CanonItems(items))
    case Map(pairs) => Map(CanonPairs(pairs))
    case _ => v
  }

  function CanonItems(items: seq<Value>): (r: seq<Value>)
    ensures |r| == |items|
  {
    if items == [] then [] else [Canon(items[0])] + CanonItems(items[1..])
  }

  function CanonPairs(pairs: seq<Pair>): (r: seq<Pair>)
    ensures |r| == |pairs|
  {
    if pairs == [] then []
    else InsertPair(CanonPair(pairs[0]), CanonPairs(pairs[1..]))
  }

  function CanonPair(p: Pair): Pair {
    Pair(p.key, Canon(p.value))
  }

  function InsertPair(p: Pair, sorted: seq<Pair>): (r: seq<Pair>)
    ensures |r| == |sorted| + 1
  {
    if sorted == [] || Less(Emit(p.key), Emit(sorted[0].key)) then [p] + sorted
    else [sorted[0]] + InsertPair(p, sorted[1..])
  }
}
