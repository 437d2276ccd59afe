/** Audit envelopes over the deterministic CBOR subset: text maps, operation bodies and the nine fields. */
module Envelope {
  import opened Bytes
  import opened Cbor
  import opened CborProofs
  import opened CborTheorems
  import opened CborOrder
  import opened Sets
  import opened Wrappers

  type TextMap = map<Bytes, Value>

  /** The pairs of a map by their keys, refused when some key is not a text; a later pair wins. */
  function ByKey(pairs: seq<Pair>): Option<TextMap> {
    if pairs == [] then Some(map[])
    else
      var last := pairs[|pairs| - 1];
      var front :- ByKey(pairs[..|pairs| - 1]);
      if last.key.Text? then Some(front[last.key.s := last.value]) else None
  }

  function AsTextMap(v: Value): Option<TextMap> {
    if v.Map? then ByKey(v.pairs) else None
  }

  predicate Entry(m: TextMap, p: Pair) {
    p.key.Text? && p.key.s in m && m[p.key.s] == p.value
  }

  /** `pairs` lists the map: each entry once, in any order. */
  ghost predicate Lists(pairs: seq<Pair>, m: TextMap) {
    DistinctKeys(pairs) && forall p :: p in pairs <==> Entry(m, p)
  }

  lemma DistinctFront(pairs: seq<Pair>)
    requires pairs != [] && DistinctKeys(pairs)
    ensures DistinctKeys(pairs[..|pairs| - 1])
    ensures forall p | p in pairs[..|pairs| - 1] :: p.key != pairs[|pairs| - 1].key
    ensures forall p :: p in pairs <==> p in pairs[..|pairs| - 1] || p == pairs[|pairs| - 1]
  {
    assert pairs == pairs[..|pairs| - 1] + [pairs[|pairs| - 1]];
  }

  /** With distinct keys nothing is lost: the pairs list the map they make. */
  lemma {:induction false} ByKeyLists(pairs: seq<Pair>)
    requires DistinctKeys(pairs)
    ensures ByKey(pairs).Some? <==> forall p | p in pairs :: p.key.Text?
    ensures ByKey(pairs).Some? ==> Lists(pairs, ByKey(pairs).value) && |ByKey(pairs).value| == |pairs|
  {
    if pairs != [] {
      var front, last := pairs[..|pairs| - 1], pairs[|pairs| - 1];
      DistinctFront(pairs);
      ByKeyLists(front);
      hide DistinctKeys;
      if ByKey(pairs).Some? {
        var m := ByKey(front).value;
        KeyIsEntry(m, last.key);
        ListsSnoc(front, m, last);
      }
    }
  }

  lemma KeyIsEntry(m: TextMap, key: Value)
    requires key.Text?
    ensures key.s in m ==> Entry(m, Pair(key, m[key.s]))
  {
  }

  lemma ListsSnoc(front: seq<Pair>, m: TextMap, last: Pair)
    requires last.key.Text? && last.key.s !in m
    requires forall p :: p in front <==> Entry(m, p)
    ensures forall p :: p in front + [last] <==> Entry(m[last.key.s := last.value], p)
  {
  }

  /** Sorting pairs of canonical trees under distinct keys gives a canonical list of the same pairs. */
  lemma {:induction false} SortCanonical(q: seq<Pair>)
    requires DistinctKeys(q) && forall p | p in q :: IsCanonicalPair(p)
    ensures AreCanonicalPairs(CanonPairs(q), [])
    ensures forall p :: p in CanonPairs(q) <==> p in q
  {
    hide CanonPair, IsCanonicalPair, Emit, AreCanonicalPairs;
    if q == [] {
      EmptyCanonical();
    } else {
      assert q == [q[0]] + q[1..];
      forall p | p in q[1..]
        ensures p in q && p.key != q[0].key
      {
        var j :| 0 <= j < |q[1..]| && q[1..][j] == p;
        assert q[j + 1] == p;
      }
      SortCanonical(q[1..]);
      CanonPairOfCanonical(q[0]);
      EmitNonEmpty(q[0].key);
      InsertKeepsOrder(q[0], CanonPairs(q[1..]), []);
      InsertMembers(q[0], CanonPairs(q[1..]));
    }
  }

  lemma EmptyCanonical()
    ensures AreCanonicalPairs([], [])
  {
  }

  /** Encoding a map of an accepted item again gives the item's bytes, whatever order its entries are visited in. */
  lemma MapReencodes(pairs: seq<Pair>, q: seq<Pair>)
    requires IsCanonical(Map(pairs)) && DistinctKeys(q)
    requires forall p :: p in q <==> p in pairs
    ensures Encode(Map(q)) == Emit(Map(pairs)) && |q| == |pairs|
  {
    hide Emit, IsCanonicalPair, AreCanonicalPairs, CanonPairs, DistinctKeys;
    CanonicalMembers(pairs, []);
    SortCanonical(q);
    SortedUnique(CanonPairs(q), pairs, []);
  }

  /** What textMap returns for an accepted map holds every pair, and encodes back to the map's bytes. */
  lemma TextMapFaithful(v: Value, q: seq<Pair>)
    requires IsCanonical(v) && AsTextMap(v).Some? && Lists(q, AsTextMap(v).value)
    ensures |AsTextMap(v).value| == |v.pairs| == |q|
    ensures Lists(v.pairs, AsTextMap(v).value)
    ensures Encode(Map(q)) == Emit(v)
  {
    CanonicalDistinct(v.pairs, []);
    ByKeyLists(v.pairs);
    hide Emit, ByKey, Entry, IsCanonical;
    MapReencodes(v.pairs, q);
  }

  // Operation bodies

  datatype FieldType = TextField | UintField

  datatype FieldSpec = FieldSpec(name: Bytes, kind: FieldType)

  predicate HasType(v: Value, kind: FieldType) {
    match kind
    case TextField => v.Text?
    case UintField => v.Uint?
  }

  ghost predicate DistinctNames(fields: seq<FieldSpec>) {
    forall i, j | 0 <= i < j < |fields| :: fields[i].name != fields[j].name
  }

  /** The listed fields taken out of a text map, refused when one is missing or of the wrong type. */
  function PickFields(m: TextMap, fields: seq<FieldSpec>): Option<TextMap> {
    if fields == [] then Some(map[])
    else
      var f := fields[|fields| - 1];
      var front :- PickFields(m, fields[..|fields| - 1]);
      if f.name in m && HasType(m[f.name], f.kind) then Some(front[f.name := m[f.name]]) else None
  }

  datatype Rendered = UnknownBody(raw: Bytes) | KnownBody(out: TextMap) | BadBody

  /** The operation body under the field list of its kind, or as raw bytes when the kind is not known. */
  function Render(spec: Option<seq<FieldSpec>>, body: Value): Rendered {
    match spec
    case None => UnknownBody(Emit(body))
    case Some(fields) =>
      match AsTextMap(body)
      case None => BadBody
      case Some(m) =>
        if |m| != |fields| then BadBody
        else
          match PickFields(m, fields)
          case None => BadBody
          case Some(out) => KnownBody(out)
  }

  /** The map has a value of the right type under every name. */
  ghost predicate HasFields(m: TextMap, fields: seq<FieldSpec>) {
    forall f | f in fields :: f.name in m && HasType(m[f.name], f.kind)
  }

  function Names(fields: seq<FieldSpec>): (r: set<Bytes>) {
    set f | f in fields :: f.name
  }

  lemma {:induction false} NamesSize(fields: seq<FieldSpec>)
    requires DistinctNames(fields)
    ensures |Names(fields)| == |fields|
  {
    if fields != [] {
      var front, last := fields[..|fields| - 1], fields[|fields| - 1];
      NamesSize(front);
      assert fields == front + [last];
      assert Names(fields) == Names(front) + {last.name};
      assert last.name !in Names(front);
    }
  }

  lemma NamesSnoc(front: seq<FieldSpec>, last: FieldSpec)
    ensures Names(front + [last]) == Names(front) + {last.name}
  {
  }

  lemma HasFieldsSnoc(m: TextMap, front: seq<FieldSpec>, last: FieldSpec)
    ensures HasFields(m, front + [last]) <==>
            HasFields(m, front) && last.name in m && HasType(m[last.name], last.kind)
  {
    hide HasType;
    var fields := front + [last];
    assert fields[|front|] == last && last in fields;
    assert forall f | f in front :: f in fields;
  }

  lemma {:induction false} PickedFields(m: TextMap, fields: seq<FieldSpec>)
    ensures PickFields(m, fields).Some? <==> HasFields(m, fields)
    ensures PickFields(m, fields).Some? ==>
      PickFields(m, fields).value.Keys == Names(fields) &&
      forall k | k in PickFields(m, fields).value :: k in m && PickFields(m, fields).value[k] == m[k]
  {
    if fields != [] {
      var front, last := fields[..|fields| - 1], fields[|fields| - 1];
      assert fields == front + [last];
      hide HasFields, HasType, Names;
      PickedFields(m, front);
      NamesSnoc(front, last);
      HasFieldsSnoc(m, front, last);
    }
  }

  /**
   A body of a known kind is accepted exactly when it is a text map with the kind's fields and no
   others, each of its type; what is rendered is then the whole map.
   */
  lemma RenderExactly(fields: seq<FieldSpec>, body: Value)
    requires DistinctNames(fields)
    ensures Render(Some(fields), body).KnownBody? <==>
            AsTextMap(body).Some? && |AsTextMap(body).value| == |fields| && HasFields(AsTextMap(body).value, fields)
    ensures Render(Some(fields), body).KnownBody? ==> AsTextMap(body) == Some(Render(Some(fields), body).out)
  {
    if AsTextMap(body).Some? && |AsTextMap(body).value| == |fields| {
      var m := AsTextMap(body).value;
      PickedFields(m, fields);
      if HasFields(m, fields) {
        NamesSize(fields);
        assert Names(fields) <= m.Keys && |m.Keys| == |m|;
        SubsetSize(Names(fields), m.Keys);
        assert PickFields(m, fields).value == m;
      }
    }
  }

  /** So a rendered body encodes back to the very bytes of the accepted one. */
  lemma RenderedBodyReencodes(fields: seq<FieldSpec>, body: Value, q: seq<Pair>)
    requires DistinctNames(fields) && IsCanonical(body)
    requires Render(Some(fields), body).KnownBody? && Lists(q, Render(Some(fields), body).out)
    ensures Encode(Map(q)) == Emit(body)
  {
    RenderExactly(fields, body);
    TextMapFaithful(body, q);
  }

  // The envelope

  const ENVELOPE_VERSION := 1

  function Ascii(s: string): (b: Bytes)
    ensures |b| == |s|
    ensures forall i | 0 <= i < |s| :: b[i] == s[i] as int % 256
  {
    seq(|s|, i requires 0 <= i < |s| => s[i] as int % 256)
  }

  const VERSION := Ascii("version")
  const TS_UNIX := Ascii("ts_unix")
  const ACTOR_OMNI := Ascii("actor_omni")
  const OPERATOR_OMNI := Ascii("operator_omni")
  const OP_KIND := Ascii("op_kind")
  const OP_BODY := Ascii("op_body")
  const RESULT := Ascii("result")
  const INTENT_TEXT := Ascii("intent_text")
  const INTENT_COMMITMENT := Ascii("intent_commitment")

  /** The decoded fields. Addresses and commitments are kept as bytes where the source prints them in hexadecimal. */
  datatype Envelope = Envelope(
    tsUnix: nat, actorOmni: Bytes, operatorOmni: Bytes, opKind: nat, result: nat,
    intentText: Option<Bytes>, intentCommitment: Option<Bytes>, opBody: Value, body: Rendered)

  function RequireUint(v: Value, limit: nat): Option<nat> {
    if v.Uint? && v.n <= limit then Some(v.n) else None
  }

  function RequireBytes(v: Value, size: nat): Option<Bytes> {
    if v.Blob? && |v.b| == size then Some(v.b) else None
  }

  /** An optional field; null stands for its absence. */
  function OptionalBytes(v: Value, size: nat): Option<Option<Bytes>> {
    if v.Null? then Some(None)
    else
      var b :- RequireBytes(v, size);
      Some(Some(b))
  }

  function OptionalText(v: Value): Option<Option<Bytes>> {
    if v.Null? then Some(None) else if v.Text? then Some(Some(v.s)) else None
  }

  function Lookup(top: TextMap, key: Bytes): Option<Value> {
    if key in top then Some(top[key]) else None
  }

  /** The field lists of the known operation kinds. */
  type Specs = map<nat, seq<FieldSpec>>

  function SpecOf(specs: Specs, opKind: nat): Option<seq<FieldSpec>> {
    if opKind in specs then Some(specs[opKind]) else None
  }

  /** The nine fields of a text map, each of its type; keys that are not among them are not looked at. */
  function FieldsOf(specs: Specs, top: TextMap): Option<Envelope> {
    var version :- Lookup(top, VERSION);
    var tsUnix :- Lookup(top, TS_UNIX);
    var actor :- Lookup(top, ACTOR_OMNI);
    var operator :- Lookup(top, OPERATOR_OMNI);
    var opKind :- Lookup(top, OP_KIND);
    var opBody :- Lookup(top, OP_BODY);
    var result :- Lookup(top, RESULT);
    var intentText :- Lookup(top, INTENT_TEXT);
    var intentCommitment :- Lookup(top, INTENT_COMMITMENT);
    if version != Uint(ENVELOPE_VERSION) then None
    else
      var opKind :- RequireUint(opKind, 255);
      var result :- RequireUint(result, 255);
      var tsUnix :- RequireUint(tsUnix, TWO64 - 1);
      var actor :- RequireBytes(actor, 32);
      var operator :- RequireBytes(operator, 32);
      var intentCommitment :- OptionalBytes(intentCommitment, 32);
      var intentText :- OptionalText(intentText);
      var body := Render(SpecOf(specs, opKind), opBody);
      if body.BadBody? then None
      else Some(Envelope(tsUnix, actor, operator, opKind, result, intentText, intentCommitment, opBody, body))
  }

  /** DecodeEnvelope without the hash comparison. */
  function DecodeEnvelope(specs: Specs, data: Bytes): Option<Envelope> {
    match Decode(data)
    case Err(_) => None
    case Ok(v, _) =>
      var top :- AsTextMap(v);
      FieldsOf(specs, top)
  }

  function OrNull(b: Option<Bytes>, text: bool): Value {
    match b
    case None => Null
    case Some(b) => if text then Text(b) else Blob(b)
  }

  /** The nine fields written back as a map. */
  function FieldsBack(e: Envelope): seq<Pair> {
    [Pair(Text(VERSION), Uint(ENVELOPE_VERSION)),
     Pair(Text(TS_UNIX), Uint(e.tsUnix)),
     Pair(Text(ACTOR_OMNI), Blob(e.actorOmni)),
     Pair(Text(OPERATOR_OMNI), Blob(e.operatorOmni)),
     Pair(Text(OP_KIND), Uint(e.opKind)),
     Pair(Text(OP_BODY), e.opBody),
     Pair(Text(RESULT), Uint(e.result)),
     Pair(Text(INTENT_TEXT), OrNull(e.intentText, true)),
     Pair(Text(INTENT_COMMITMENT), OrNull(e.intentCommitment, false))]
  }

  lemma NamesDiffer()
    ensures VERSION != TS_UNIX && VERSION != OP_KIND && VERSION != OP_BODY
    ensures TS_UNIX != OP_KIND && TS_UNIX != OP_BODY && OP_KIND != OP_BODY
  {
    assert VERSION[0] == 'v' as int && TS_UNIX[0] == 't' as int && OP_KIND[0] == 'o' as int && OP_BODY[0] == 'o' as int;
    assert OP_KIND[3] == 'k' as int && OP_BODY[3] == 'b' as int;
  }

  lemma FieldsBackDistinct(e: Envelope)
    ensures DistinctKeys(FieldsBack(e)) && |FieldsBack(e)| == 9
  {
    NamesDiffer();
    hide Ascii;
  }

  /** Every field written back is an entry of the map it was read from. */
  lemma FieldsBackAreEntries(specs: Specs, top: TextMap)
    requires FieldsOf(specs, top).Some?
    ensures forall p | p in FieldsBack(FieldsOf(specs, top).value) :: Entry(top, p)
  {
    hide Render, Ascii, SpecOf;
    var e := FieldsOf(specs, top).value;
    assert OrNull(e.intentText, true) == top[INTENT_TEXT];
    assert OrNull(e.intentCommitment, false) == top[INTENT_COMMITMENT];
  }

  /** Pairs with distinct keys that are all in an equally long list of such pairs are that list's pairs. */
  lemma SameMembers(q: seq<Pair>, pairs: seq<Pair>)
    requires DistinctKeys(q) && DistinctKeys(pairs) && |q| == |pairs|
    requires forall p | p in q :: p in pairs
    ensures forall p :: p in q <==> p in pairs
  {
    forall i | 0 <= i < |q|
      ensures HasKey(q[i].key, pairs)
    {
      assert q[i] in q;
      var j :| 0 <= j < |pairs| && pairs[j] == q[i];
    }
    KeysCovered(q, pairs);
    forall p | p in pairs
      ensures p in q
    {
      var j :| 0 <= j < |pairs| && pairs[j] == p;
      assert HasKey(pairs[j].key, q);
      var i :| 0 <= i < |q| && q[i].key == pairs[j].key;
      assert q[i] in pairs;
      var k :| 0 <= k < |pairs| && pairs[k] == q[i];
      assert k == j;
    }
  }

  /** Some pairs of an accepted map encode to its bytes exactly when there are as many of them. */
  lemma PartReencodes(pairs: seq<Pair>, q: seq<Pair>)
    requires IsCanonical(Map(pairs)) && DistinctKeys(q) && |q| < TWO64
    requires forall p | p in q :: p in pairs
    ensures Encode(Map(q)) == Emit(Map(pairs)) <==> |q| == |pairs|
  {
    CanonicalDistinct(pairs, []);
    if |q| == |pairs| {
      SameMembers(q, pairs);
      MapReencodes(pairs, q);
    }
    if Encode(Map(q)) == Emit(Map(pairs)) {
      CanonicalMembers(pairs, []);
      SortCanonical(q);
      EmitInjective(Map(CanonPairs(q)), Map(pairs));
    }
  }

  lemma AcceptedEnvelope(specs: Specs, data: Bytes)
    requires DecodeEnvelope(specs, data).Some?
    ensures Decode(data).Ok? && Decode(data).value.Map?
    ensures
      var v, e := Decode(data).value, DecodeEnvelope(specs, data).value;
      && IsCanonical(v) && data == Emit(v)
      && (forall p | p in FieldsBack(e) :: p in v.pairs)
      && AsTextMap(v).Some? && e.body == Render(SpecOf(specs, e.opKind), e.opBody) && !e.body.BadBody?
  {
    hide FieldsBack, Render, SpecOf, Lookup, RequireUint, RequireBytes, OptionalBytes, OptionalText;
    var v := Decode(data).value;
    AcceptedExactly(data, v);
    var top := AsTextMap(v).value;
    CanonicalDistinct(v.pairs, []);
    ByKeyLists(v.pairs);
    FieldsBackAreEntries(specs, top);
  }

  /**
   The nine decoded fields, written back as a map in any order, encode to the envelope's own bytes
   exactly when the envelope has no other field; others are accepted and forgotten.
   */
  lemma EnvelopeReencodes(specs: Specs, data: Bytes, q: seq<Pair>)
    requires DecodeEnvelope(specs, data).Some?
    requires DistinctKeys(q) && |q| == 9 && forall p :: p in q <==> p in FieldsBack(DecodeEnvelope(specs, data).value)
    ensures Decode(data).Ok? && Decode(data).value.Map?
    ensures Encode(Map(q)) == data <==> |Decode(data).value.pairs| == 9
  {
    hide FieldsBack, DecodeEnvelope, DistinctKeys, IsCanonical, Encode, Emit;
    AcceptedEnvelope(specs, data);
    PartReencodes(Decode(data).value.pairs, q);
  }

  /** Two accepted envelopes with the same nine fields and no others are the same bytes. */
  lemma FieldsDetermineEnvelope(specs: Specs, a: Bytes, b: Bytes)
    requires DecodeEnvelope(specs, a).Some? && DecodeEnvelope(specs, a) == DecodeEnvelope(specs, b)
    ensures Decode(a).Ok? && Decode(a).value.Map? && Decode(b).Ok? && Decode(b).value.Map?
    ensures |Decode(a).value.pairs| == 9 && |Decode(b).value.pairs| == 9 ==> a == b
  {
    hide DecodeEnvelope, DistinctKeys, Encode, FieldsBack;
    var q := FieldsBack(DecodeEnvelope(specs, a).value);
    FieldsBackDistinct(DecodeEnvelope(specs, a).value);
    EnvelopeReencodes(specs, a, q);
    EnvelopeReencodes(specs, b, q);
  }

  /** The nine field names. */
  const NAMES := {VERSION, TS_UNIX, ACTOR_OMNI, OPERATOR_OMNI, OP_KIND, OP_BODY, RESULT, INTENT_TEXT, INTENT_COMMITMENT}

  /** Maps with the same values under the nine names decode alike. */
  lemma FieldsOfAgree(specs: Specs, m: TextMap, n: TextMap)
    requires forall k | k in NAMES :: Lookup(m, k) == Lookup(n, k)
    ensures FieldsOf(specs, m) == FieldsOf(specs, n)
  {
    hide Ascii, Lookup, Render, SpecOf, RequireUint, RequireBytes, OptionalBytes, OptionalText;
    assert VERSION in NAMES && TS_UNIX in NAMES && ACTOR_OMNI in NAMES && OPERATOR_OMNI in NAMES;
    assert OP_KIND in NAMES && OP_BODY in NAMES && RESULT in NAMES && INTENT_TEXT in NAMES && INTENT_COMMITMENT in NAMES;
  }

  /** One more pair under a new text key adds that one entry to the text map. */
  lemma OneMoreEntry(specs: Specs, pairs: seq<Pair>, more: seq<Pair>, k: Bytes, v: Value)
    requires DistinctKeys(pairs) && DistinctKeys(more) && ByKey(pairs).Some? && k !in ByKey(pairs).value
    requires forall p :: p in more <==> p == Pair(Text(k), v) || p in pairs
    ensures ByKey(more).Some?
    ensures k !in NAMES ==> FieldsOf(specs, ByKey(more).value) == FieldsOf(specs, ByKey(pairs).value)
  {
    ByKeyLists(pairs);
    ByKeyLists(more);
    hide ByKey, DistinctKeys, FieldsOf;
    var m, n := ByKey(pairs).value, ByKey(more).value;
    forall key | key != k
      ensures Lookup(n, key) == Lookup(m, key)
    {
      SameLookup(m, n, k, v, key);
    }
    hide Lookup, Entry;
    OtherNames(specs, m, n, k);
  }

  lemma SameLookup(m: TextMap, n: TextMap, k: Bytes, v: Value, key: Bytes)
    requires forall p :: Entry(n, p) <==> p == Pair(Text(k), v) || Entry(m, p)
    requires key != k
    ensures Lookup(n, key) == Lookup(m, key)
  {
    KeyIsEntry(m, Text(key));
    KeyIsEntry(n, Text(key));
  }

  lemma OtherNames(specs: Specs, m: TextMap, n: TextMap, k: Bytes)
    requires forall key | key != k :: Lookup(n, key) == Lookup(m, key)
    ensures k !in NAMES ==> FieldsOf(specs, n) == FieldsOf(specs, m)
  {
    hide Lookup, FieldsOf;
    if k !in NAMES {
      FieldsOfAgree(specs, n, m);
    }
  }

  /** A canonical map with one more text key stays canonical. */
  lemma OneMorePair(pairs: seq<Pair>, k: Bytes, v: Value)
    requires IsCanonical(Map(pairs)) && IsCanonical(v) && |k| < TWO64 && |pairs| + 1 < TWO64
    requires forall p | p in pairs :: p.key != Text(k)
    ensures var more := InsertPair(Pair(Text(k), v), pairs);
      && IsCanonical(Map(more)) && DistinctKeys(more) && |more| == |pairs| + 1
      && forall p :: p in more <==> p == Pair(Text(k), v) || p in pairs
  {
    var p := Pair(Text(k), v);
    assert IsCanonicalPair(p);
    EmitNonEmpty(Text(k));
    hide Emit, IsCanonicalPair, InsertPair;
    InsertKeepsOrder(p, pairs, []);
    InsertMembers(p, pairs);
    CanonicalDistinct(InsertPair(p, pairs), []);
  }

  /**
   A field besides the nine is accepted and forgotten: put under any other new text key into any
   accepted envelope, any canonical value gives different bytes that decode to the same envelope.
   */
  lemma ExtraFieldIsForgotten(specs: Specs, data: Bytes, k: Bytes, v: Value)
    requires DecodeEnvelope(specs, data).Some?
    requires Decode(data).Ok? && Decode(data).value.Map?
    requires k !in NAMES && |k| < TWO64 && IsCanonical(v)
    requires var pairs := Decode(data).value.pairs;
      |pairs| + 1 < TWO64 && forall p | p in pairs :: p.key != Text(k)
    ensures var more := Emit(Map(InsertPair(Pair(Text(k), v), Decode(data).value.pairs)));
      more != data && DecodeEnvelope(specs, more) == DecodeEnvelope(specs, data)
  {
    hide Emit, IsCanonical, InsertPair, ByKey, Decode, DecodeEnvelope;
    AcceptedMap(specs, data);
    ExtraPairIsForgotten(specs, Decode(data).value.pairs, k, v);
  }

  lemma AcceptedMap(specs: Specs, data: Bytes)
    requires DecodeEnvelope(specs, data).Some?
    ensures Decode(data).Ok? && Decode(data).value.Map?
    ensures IsCanonical(Decode(data).value) && data == Emit(Decode(data).value)
    ensures ByKey(Decode(data).value.pairs).Some?
  {
    hide Emit, IsCanonical, ByKey, FieldsOf, Decode;
    AcceptedExactly(data, Decode(data).value);
  }

  lemma ExtraPairIsForgotten(specs: Specs, pairs: seq<Pair>, k: Bytes, v: Value)
    requires IsCanonical(Map(pairs)) && ByKey(pairs).Some?
    requires k !in NAMES && |k| < TWO64 && IsCanonical(v)
    requires |pairs| + 1 < TWO64 && forall p | p in pairs :: p.key != Text(k)
    ensures var more := InsertPair(Pair(Text(k), v), pairs);
      && Emit(Map(more)) != Emit(Map(pairs))
      && DecodeEnvelope(specs, Emit(Map(more))) == DecodeEnvelope(specs, Emit(Map(pairs)))
  {
    var more := InsertPair(Pair(Text(k), v), pairs);
    OneMorePair(pairs, k, v);
    hide Emit, IsCanonical, InsertPair, FieldsOf, ByKey, DecodeEnvelope, DistinctKeys;
    EmitDiffers(pairs, more);
    CanonicalDistinctMap(pairs);
    NoSuchKey(pairs, k);
    OneMoreEntry(specs, pairs, more, k, v);
    DecodeByKeys(specs, pairs);
    DecodeByKeys(specs, more);
  }

  lemma EmitDiffers(pairs: seq<Pair>, more: seq<Pair>)
    requires IsCanonical(Map(pairs)) && IsCanonical(Map(more)) && |more| == |pairs| + 1
    ensures Emit(Map(more)) != Emit(Map(pairs))
  {
    hide Emit, IsCanonical;
    if Emit(Map(more)) == Emit(Map(pairs)) {
      EmitInjective(Map(more), Map(pairs));
    }
  }

  /** An envelope decodes by the text map of its pairs. */
  lemma DecodeByKeys(specs: Specs, pairs: seq<Pair>)
    requires IsCanonical(Map(pairs))
    ensures DecodeEnvelope(specs, Emit(Map(pairs))) ==
            match ByKey(pairs) { case None => None case Some(top) => FieldsOf(specs, top) }
    ensures DecodeEnvelope(specs, Emit(Map(pairs))).Some? ==> ByKey(pairs).Some?
  {
    hide Emit, IsCanonical, FieldsOf, ByKey, Decode;
    AcceptedExactly(Emit(Map(pairs)), Map(pairs));
  }

  lemma CanonicalDistinctMap(pairs: seq<Pair>)
    requires IsCanonical(Map(pairs))
    ensures DistinctKeys(pairs)
  {
    CanonicalDistinct(pairs, []);
  }

  lemma NoSuchKey(pairs: seq<Pair>, k: Bytes)
    requires DistinctKeys(pairs) && ByKey(pairs).Some? && forall p | p in pairs :: p.key != Text(k)
    ensures k !in ByKey(pairs).value
  {
    ByKeyLists(pairs);
    hide ByKey, DistinctKeys;
    KeyIsEntry(ByKey(pairs).value, Text(k));
  }

  // What is accepted, in terms of the pairs

  /** The value under a text key. */
  function Field(name: string, v: Value): Pair {
    Pair(Text(Ascii(name)), v)
  }

  /** The value is one of the field's type under the field's name. */
  ghost predicate HasField(pairs: seq<Pair>, f: FieldSpec) {
    exists p | p in pairs :: p.key == Text(f.name) && match f.kind case TextField => p.value.Text? case UintField => p.value.Uint?
  }

  /**
   What a body is rendered as: its own bytes for a kind that is not known; otherwise it is a map
   with text keys that has as many pairs as the kind has fields and a pair of the right type for each,
   and all of its pairs are rendered.
   */
  ghost predicate IsBodyOf(specs: Specs, opKind: nat, v: Value, body: Rendered) {
    if opKind !in specs then body == UnknownBody(Emit(v))
    else
      && v.Map? && body.KnownBody?
      && (forall p | p in v.pairs :: p.key.Text?)
      && |v.pairs| == |specs[opKind]|
      && (forall f | f in specs[opKind] :: HasField(v.pairs, f))
      && (forall p :: p in v.pairs <==> p.key.Text? && p.key.s in body.out && p.value == body.out[p.key.s])
  }

  lemma HasFieldByKey(pairs: seq<Pair>, m: TextMap, f: FieldSpec)
    requires forall p :: p in pairs <==> Entry(m, p)
    ensures HasField(pairs, f) <==> f.name in m && HasType(m[f.name], f.kind)
  {
    KeyIsEntry(m, Text(f.name));
    if HasField(pairs, f) {
      var p :| p in pairs && p.key == Text(f.name) && match f.kind case TextField => p.value.Text? case UintField => p.value.Uint?;
      assert Entry(m, p);
    }
  }

  /** Two maps with the same entries are one. */
  lemma SameEntries(m: TextMap, n: TextMap)
    requires forall p :: Entry(m, p) <==> Entry(n, p)
    ensures m == n
  {
    forall k | k in m
      ensures k in n && n[k] == m[k]
    {
      assert Entry(m, Pair(Text(k), m[k]));
    }
    forall k | k in n
      ensures k in m
    {
      assert Entry(n, Pair(Text(k), n[k]));
    }
  }

  /** Rendering a canonical body gives what it is to be rendered as, and refuses every other body. */
  lemma RenderedAsSpecified(specs: Specs, opKind: nat, v: Value, body: Rendered)
    requires IsCanonical(v) && (opKind in specs ==> DistinctNames(specs[opKind])) && body != BadBody
    ensures Render(SpecOf(specs, opKind), v) == body <==> IsBodyOf(specs, opKind, v, body)
  {
    if opKind in specs && v.Map? {
      RenderExactly(specs[opKind], v);
      CanonicalDistinct(v.pairs, []);
      ByKeyLists(v.pairs);
      KnownBodyAsSpecified(specs, opKind, v, body);
    }
  }

  lemma KnownBodyAsSpecified(specs: Specs, opKind: nat, v: Value, body: Rendered)
    requires v.Map? && opKind in specs && body != BadBody
    requires DistinctKeys(v.pairs)
    requires ByKey(v.pairs).Some? <==> forall p | p in v.pairs :: p.key.Text?
    requires ByKey(v.pairs).Some? ==> Lists(v.pairs, ByKey(v.pairs).value) && |ByKey(v.pairs).value| == |v.pairs|
    requires var m := ByKey(v.pairs);
      Render(SpecOf(specs, opKind), v) ==
      if m.Some? && |m.value| == |specs[opKind]| && HasFields(m.value, specs[opKind]) then KnownBody(m.value) else BadBody
    ensures Render(SpecOf(specs, opKind), v) == body <==> IsBodyOf(specs, opKind, v, body)
  {
    hide Render, SpecOf, ByKey, HasType, DistinctKeys, HasField, Emit;
    if ByKey(v.pairs).Some? {
      var m := ByKey(v.pairs).value;
      forall f | f in specs[opKind]
        ensures HasField(v.pairs, f) <==> f.name in m && HasType(m[f.name], f.kind)
      {
        HasFieldByKey(v.pairs, m, f);
      }
      if IsBodyOf(specs, opKind, v, body) {
        assert forall p :: Entry(m, p) <==> Entry(body.out, p);
        SameEntries(m, body.out);
      }
    }
  }

  /** The fields of a text map are decoded exactly when each name has a value of its type and size. */
  lemma FieldsOfExactly(specs: Specs, top: TextMap, e: Envelope)
    ensures FieldsOf(specs, top) == Some(e) <==>
      && Lookup(top, VERSION) == Some(Uint(1))
      && Lookup(top, TS_UNIX) == Some(Uint(e.tsUnix)) && e.tsUnix < TWO64
      && Lookup(top, ACTOR_OMNI) == Some(Blob(e.actorOmni)) && |e.actorOmni| == 32
      && Lookup(top, OPERATOR_OMNI) == Some(Blob(e.operatorOmni)) && |e.operatorOmni| == 32
      && Lookup(top, OP_KIND) == Some(Uint(e.opKind)) && e.opKind < 256
      && Lookup(top, OP_BODY) == Some(e.opBody)
      && Lookup(top, RESULT) == Some(Uint(e.result)) && e.result < 256
      && Lookup(top, INTENT_TEXT) == Some(match e.intentText case None => Null case Some(t) => Text(t))
      && Lookup(top, INTENT_COMMITMENT) == Some(match e.intentCommitment case None => Null case Some(b) => Blob(b))
      && (e.intentCommitment.Some? ==> |e.intentCommitment.value| == 32)
      && Render(SpecOf(specs, e.opKind), e.opBody) == e.body && e.body != BadBody
  {
    hide Render, SpecOf, Ascii, Lookup;
  }

  /** A map with text keys holds the nine fields of an envelope, each of its type and size. */
  ghost predicate HoldsEnvelope(specs: Specs, pairs: seq<Pair>, e: Envelope) {
    && (forall p | p in pairs :: p.key.Text?)
    && Field("version", Uint(1)) in pairs
    && Field("ts_unix", Uint(e.tsUnix)) in pairs && e.tsUnix < 0x1_0000_0000_0000_0000
    && Field("actor_omni", Blob(e.actorOmni)) in pairs && |e.actorOmni| == 32
    && Field("operator_omni", Blob(e.operatorOmni)) in pairs && |e.operatorOmni| == 32
    && Field("op_kind", Uint(e.opKind)) in pairs && e.opKind < 256
    && Field("op_body", e.opBody) in pairs && IsBodyOf(specs, e.opKind, e.opBody, e.body)
    && Field("result", Uint(e.result)) in pairs && e.result < 256
    && Field("intent_text", if e.intentText.Some? then Text(e.intentText.value) else Null) in pairs
    && Field("intent_commitment", if e.intentCommitment.Some? then Blob(e.intentCommitment.value) else Null) in pairs
    && (e.intentCommitment.Some? ==> |e.intentCommitment.value| == 32)
  }

  ghost predicate SpecsDistinct(specs: Specs) {
    forall k | k in specs :: DistinctNames(specs[k])
  }

  lemma LookupIsPair(pairs: seq<Pair>, m: TextMap, key: Bytes, v: Value)
    requires forall p :: p in pairs <==> Entry(m, p)
    ensures Lookup(m, key) == Some(v) <==> Pair(Text(key), v) in pairs
  {
    assert Pair(Text(key), v) in pairs <==> Entry(m, Pair(Text(key), v));
  }

  lemma FieldsOfPairs(specs: Specs, pairs: seq<Pair>, m: TextMap, e: Envelope)
    requires SpecsDistinct(specs) && IsCanonical(Map(pairs)) && Lists(pairs, m)
    ensures FieldsOf(specs, m) == Some(e) <==> HoldsEnvelope(specs, pairs, e)
  {
    CanonicalMembers(pairs, []);
    FieldsOfExactly(specs, m, e);
    LookupIsPair(pairs, m, VERSION, Uint(1));
    LookupIsPair(pairs, m, TS_UNIX, Uint(e.tsUnix));
    LookupIsPair(pairs, m, ACTOR_OMNI, Blob(e.actorOmni));
    LookupIsPair(pairs, m, OPERATOR_OMNI, Blob(e.operatorOmni));
    LookupIsPair(pairs, m, OP_KIND, Uint(e.opKind));
    LookupIsPair(pairs, m, OP_BODY, e.opBody);
    LookupIsPair(pairs, m, RESULT, Uint(e.result));
    LookupIsPair(pairs, m, INTENT_TEXT, if e.intentText.Some? then Text(e.intentText.value) else Null);
    LookupIsPair(pairs, m, INTENT_COMMITMENT, if e.intentCommitment.Some? then Blob(e.intentCommitment.value) else Null);
    if Pair(Text(OP_BODY), e.opBody) in pairs {
      assert IsCanonicalPair(Pair(Text(OP_BODY), e.opBody));
      if e.body != BadBody {
        RenderedAsSpecified(specs, e.opKind, e.opBody, e.body);
      }
    }
    assert forall p | p in pairs :: Entry(m, p);
    hide FieldsOf, Lookup, Render, SpecOf, IsCanonical, Emit, Ascii;
  }

  /**
   What an envelope is: an input is decoded to these fields exactly when it is the encoding of a
   canonical map with text keys that holds them, each of its type and size, and a body its kind accepts.
   */
  lemma EnvelopeAcceptedExactly(specs: Specs, data: Bytes, e: Envelope)
    requires SpecsDistinct(specs)
    ensures DecodeEnvelope(specs, data) == Some(e) <==>
      exists pairs :: IsCanonical(Map(pairs)) && data == Emit(Map(pairs)) && HoldsEnvelope(specs, pairs, e)
  {
    hide Emit, IsCanonical, HoldsEnvelope, FieldsOf, ByKey, Lists;
    if DecodeEnvelope(specs, data) == Some(e) {
      AcceptedMap(specs, data);
      EnvelopeOfPairs(specs, Decode(data).value.pairs, e);
    }
    if pairs :| IsCanonical(Map(pairs)) && data == Emit(Map(pairs)) && HoldsEnvelope(specs, pairs, e) {
      EnvelopeOfPairs(specs, pairs, e);
    }
  }

  lemma EnvelopeOfPairs(specs: Specs, pairs: seq<Pair>, e: Envelope)
    requires SpecsDistinct(specs) && IsCanonical(Map(pairs))
    ensures DecodeEnvelope(specs, Emit(Map(pairs))) == Some(e) <==> HoldsEnvelope(specs, pairs, e)
  {
    DecodeByKeys(specs, pairs);
    CanonicalDistinctMap(pairs);
    ByKeyLists(pairs);
    hide Emit, IsCanonical, FieldsOf, ByKey, DecodeEnvelope, IsBodyOf;
    if ByKey(pairs).Some? {
      FieldsOfPairs(specs, pairs, ByKey(pairs).value, e);
    }
  }

  /** Nine fields of the right types and sizes, encoded as a map, are accepted as these fields. */
  lemma GenuineEnvelopeIsAccepted(specs: Specs, e: Envelope, q: seq<Pair>)
    requires SpecsDistinct(specs) && HoldsEnvelope(specs, q, e)
    requires DistinctKeys(q) && |q| < TWO64 && forall p | p in q :: IsCanonicalPair(p)
    ensures DecodeEnvelope(specs, Encode(Map(q))) == Some(e)
  {
    SortCanonical(q);
    var pairs := CanonPairs(q);
    assert IsCanonical(Map(pairs)) && Encode(Map(q)) == Emit(Map(pairs));
    assert HoldsEnvelope(specs, pairs, e);
    EnvelopeOfPairs(specs, pairs, e);
  }

  // As the decoder runs

  /** textMap: the pairs in order, until a key is not a text. */
  method CollectTextMap(v: Value) returns (m: Option<TextMap>)
    ensures m == AsTextMap(v)
  {
    if !v.Map? {
      return None;
    }
    var out: TextMap := map[];
    for i := 0 to |v.pairs|
      invariant ByKey(v.pairs[..i]) == Some(out)
    {
      assert v.pairs[..i + 1][..i] == v.pairs[..i];
      if !v.pairs[i].key.Text? {
        NoTextKey(v.pairs, i);
        return None;
      }
      out := out[v.pairs[i].key.s := v.pairs[i].value];
    }
    assert v.pairs[..|v.pairs|] == v.pairs;
    return Some(out);
  }

  lemma {:induction false} NoTextKey(pairs: seq<Pair>, i: nat)
    requires i < |pairs| && !pairs[i].key.Text?
    ensures ByKey(pairs) == None
  {
    if i < |pairs| - 1 {
      NoTextKey(pairs[..|pairs| - 1], i);
    }
  }

  lemma {:induction false} BadField(m: TextMap, fields: seq<FieldSpec>, i: nat)
    requires i < |fields| && !(fields[i].name in m && HasType(m[fields[i].name], fields[i].kind))
    ensures PickFields(m, fields) == None
  {
    if i < |fields| - 1 {
      BadField(m, fields[..|fields| - 1], i);
    }
  }

  /** RenderOpBody: the fields of the kind, one after the other. */
  method RenderOpBody(specs: Specs, opKind: nat, opBody: Value) returns (r: Rendered)
    ensures r == Render(SpecOf(specs, opKind), opBody)
    ensures IsCanonical(opBody) && (opKind in specs ==> DistinctNames(specs[opKind])) ==>
      forall body | body != BadBody :: r == body <==> IsBodyOf(specs, opKind, opBody, body)
  {
    hide IsBodyOf, IsCanonical, DistinctNames;
    RenderedForAll(specs, opKind, opBody);
    if opKind !in specs {
      return UnknownBody(Emit(opBody));
    }
    var fields := specs[opKind];
    var m := CollectTextMap(opBody);
    if m == None || |m.value| != |fields| {
      return BadBody;
    }
    var out := CollectFields(m.value, fields);
    return if out == None then BadBody else KnownBody(out.value);
  }

  lemma RenderedForAll(specs: Specs, opKind: nat, opBody: Value)
    ensures IsCanonical(opBody) && (opKind in specs ==> DistinctNames(specs[opKind])) ==>
      forall body | body != BadBody :: Render(SpecOf(specs, opKind), opBody) == body <==> IsBodyOf(specs, opKind, opBody, body)
  {
    hide IsBodyOf, IsCanonical, Render, SpecOf;
    if IsCanonical(opBody) && (opKind in specs ==> DistinctNames(specs[opKind])) {
      forall body | body != BadBody
        ensures Render(SpecOf(specs, opKind), opBody) == body <==> IsBodyOf(specs, opKind, opBody, body)
      {
        RenderedAsSpecified(specs, opKind, opBody, body);
      }
    }
  }

  /** The loop over the fields of a kind. */
  method CollectFields(m: TextMap, fields: seq<FieldSpec>) returns (out: Option<TextMap>)
    ensures out == PickFields(m, fields)
  {
    var picked: TextMap := map[];
    for i := 0 to |fields|
      invariant PickFields(m, fields[..i]) == Some(picked)
    {
      assert fields[..i + 1][..i] == fields[..i];
      var f := fields[i];
      if f.name !in m || !HasType(m[f.name], f.kind) {
        BadField(m, fields, i);
        return None;
      }
      picked := picked[f.name := m[f.name]];
    }
    assert fields[..|fields|] == fields;
    return Some(picked);
  }
}
