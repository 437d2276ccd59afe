/** The audit envelope cache: bodies keyed by content hash, filled by racing callers. */
module EnvelopeCache {
  import opened Bytes
  import opened Text
  import opened Wrappers

  /**
   Keccak-256 in lower-case hexadecimal with 0x, whether bytes are a well-formed envelope, and the
   lower case of letters. The first two are any functions.
   */
  datatype Decoder = Decoder(hash: Bytes -> string, wellFormed: Bytes -> bool, lower: CaseMap) {
    /** The cache key of a hash as the caller wrote it. */
    function Key(hash: string): string {
      NormalizeHexHash(lower, hash)
    }

    /** DecodeEnvelope succeeds against an expected hash; an empty one is not compared. */
    predicate Decodes(body: Bytes, expected: string) {
      wellFormed(body) && (Key(expected) == "" || hash(body) == Key(expected))
    }

    /** The body decodes under a key. */
    predicate Matches(body: Bytes, key: string) {
      wellFormed(body) && (key == "" || hash(body) == key)
    }
  }

  /** normalizeHexHash. */
  function NormalizeHexHash(lower: CaseMap, hash: string): string {
    var h := TrimSpace(ToLowerBy(lower, hash));
    if h == "" then "" else "0x" + TrimHex(h)
  }

  lemma LoweredBlanks(lower: CaseMap, c: char)
    ensures IsBlank(lower(c)) <==> IsBlank(c)
  {
  }

  /** A hash has an empty key exactly when it is all blanks. */
  lemma EmptyKey(lower: CaseMap, hash: string)
    ensures NormalizeHexHash(lower, hash) == "" <==> forall i | 0 <= i < |hash| :: IsBlank(hash[i])
  {
    hide IsBlank, TrimSpace;
    var low := ToLowerBy(lower, hash);
    forall i | 0 <= i < |hash|
      ensures IsBlank(low[i]) <==> IsBlank(hash[i])
    {
      LoweredBlanks(lower, hash[i]);
    }
    TrimmedToNothing(low);
  }

  /** The key of a hash between blanks: "0x" and its letters in lower case, without a prefix of their own. */
  lemma KeySpelled(lower: CaseMap, a: string, mid: string, b: string)
    requires AreBlanks(a) && AreBlanks(b) && mid != "" && !IsBlank(mid[0]) && !IsBlank(mid[|mid| - 1])
    ensures NormalizeHexHash(lower, a + mid + b) == "0x" + TrimHex(ToLowerBy(lower, mid))
  {
    hide IsBlank, TrimSpace, TrimHex;
    var low := ToLowerBy(lower, mid);
    LowerKeepsBlanks(lower, a);
    LowerKeepsBlanks(lower, b);
    LoweredBlanks(lower, mid[0]);
    LoweredBlanks(lower, mid[|mid| - 1]);
    TrimSpaceSpelled(ToLowerBy(lower, a), low, ToLowerBy(lower, b));
    assert ToLowerBy(lower, a + mid + b) == ToLowerBy(lower, a) + low + ToLowerBy(lower, b);
  }

  lemma LowerKeepsBlanks(lower: CaseMap, s: string)
    requires AreBlanks(s)
    ensures AreBlanks(ToLowerBy(lower, s))
  {
    hide IsBlank;
    forall i | 0 <= i < |s|
      ensures IsBlank(lower(s[i]))
    {
      LoweredBlanks(lower, s[i]);
    }
  }

  lemma PrefixLowered(lower: CaseMap)
    ensures IsLowered(lower, "0x")
  {
    assert lower('0') == Lower('0') && lower('x') == Lower('x');
  }

  lemma PrefixKeepsForm(lower: CaseMap, h: string)
    requires IsLowered(lower, h) && h != "" && !IsBlank(h[|h| - 1])
    ensures var key := "0x" + TrimHex(h);
      IsLowered(lower, key) && !IsBlank(key[|key| - 1])
  {
    var tail := TrimHex(h);
    PrefixLowered(lower);
    assert IsLowered(lower, tail);
    LoweredConcat(lower, "0x", tail);
    assert !IsBlank('x') && "0x"[1] == 'x';
    hide IsBlank, IsLowered;
    assert tail != "" ==> tail[|tail| - 1] == h[|h| - 1];
  }

  /** A lower-case, trimmed string behind the prefix is its own key. */
  lemma PrefixedIsKey(lower: CaseMap, key: string)
    requires IsLowered(lower, key) && "0x" <= key && !IsBlank(key[|key| - 1])
    ensures NormalizeHexHash(lower, key) == key
  {
    LowerOfLowered(lower, key);
    assert key[0] == '0' && !IsBlank('0');
    hide IsBlank, ToLowerBy, TrimSpace;
    TrimNothing(key);
    assert key == "0x" + key[2..];
  }

  lemma TrimmedForm(lower: CaseMap, low: string)
    requires IsLowered(lower, low)
    ensures IsLowered(lower, TrimSpace(low))
    ensures TrimSpace(low) != "" ==> !IsBlank(TrimSpace(low)[|TrimSpace(low)| - 1])
  {
    hide IsBlank, IsLowered;
    TrimLeftLowered(lower, low);
    TrimRightLowered(lower, TrimLeft(low));
  }

  /** A key is its own key, so comparing a body against a key compares it against the hash asked for. */
  lemma KeyOfKey(lower: CaseMap, hash: string)
    ensures NormalizeHexHash(lower, NormalizeHexHash(lower, hash)) == NormalizeHexHash(lower, hash)
  {
    hide IsBlank, TrimSpace, ToLowerBy, IsLowered, TrimHex;
    var low := ToLowerBy(lower, hash);
    LowerTwice(lower, hash);
    TrimmedForm(lower, low);
    if TrimSpace(low) == "" {
      EmptyKey(lower, "");
    } else {
      PrefixKeepsForm(lower, TrimSpace(low));
      PrefixedIsKey(lower, "0x" + TrimHex(TrimSpace(low)));
    }
  }

  /** So a body decodes against a hash exactly when it matches the hash's key. */
  lemma DecodesByKey(d: Decoder, body: Bytes, hash: string)
    ensures d.Decodes(body, d.Key(hash)) <==> d.Matches(body, d.Key(hash))
    ensures d.Decodes(body, hash) <==> d.Matches(body, d.Key(hash))
  {
    KeyOfKey(d.lower, hash);
  }

  datatype Result = Failure | Success(body: Bytes)

  /** Where a call of FetchAndDecode stands, under its key. */
  datatype Call =
    | Looking(key: string)
    | Fetching(key: string)
    | Fetched(key: string, body: Bytes)
    | Done(key: string, result: Result)

  datatype State = State(bodies: map<string, Bytes>, calls: map<nat, Call>)

  function Answer(d: Decoder, key: string, body: Bytes): Call {
    Done(key, if d.Decodes(body, key) then Success(body) else Failure)
  }

  /** The read-locked lookup. */
  function Look(d: Decoder, bodies: map<string, Bytes>, key: string): Call {
    if key in bodies then Answer(d, key, bodies[key]) else Fetching(key)
  }

  /** The answer of the audit worker, checked before it is used. */
  function Receive(d: Decoder, key: string, response: Option<Bytes>): Call {
    match response
    case None => Done(key, Failure)
    case Some(body) => if d.Decodes(body, key) then Fetched(key, body) else Done(key, Failure)
  }

  /** The write-locked store: another caller may have stored the key meanwhile. */
  function Store(d: Decoder, bodies: map<string, Bytes>, key: string, body: Bytes): (map<string, Bytes>, Call) {
    if key in bodies then (bodies, Answer(d, key, bodies[key]))
    else (bodies[key := body], Done(key, Success(body)))
  }

  datatype Step =
    | CallStep(id: nat, hash: string)
    | LookStep(id: nat)
    | ReceiveStep(id: nat, response: Option<Bytes>)
    | StoreStep(id: nat)

  predicate NextStep(d: Decoder, s: State, t: State, step: Step) {
    match step
    case CallStep(id, hash) =>
      id !in s.calls && t == s.(calls := s.calls[id := Looking(d.Key(hash))])
    case LookStep(id) =>
      id in s.calls && s.calls[id].Looking? &&
      t == s.(calls := s.calls[id := Look(d, s.bodies, s.calls[id].key)])
    case ReceiveStep(id, response) =>
      id in s.calls && s.calls[id].Fetching? &&
      t == s.(calls := s.calls[id := Receive(d, s.calls[id].key, response)])
    case StoreStep(id) =>
      id in s.calls && s.calls[id].Fetched? &&
      var stored := Store(d, s.bodies, s.calls[id].key, s.calls[id].body);
      t == State(stored.0, s.calls[id := stored.1])
  }

  ghost predicate Next(d: Decoder, s: State, t: State) {
    exists step :: NextStep(d, s, t, step)
  }

  ghost predicate Behaviour(d: Decoder, trace: seq<State>) {
    && trace != []
    && trace[0] == State(map[], map[])
    && forall i | 0 <= i < |trace| - 1 :: Next(d, trace[i], trace[i + 1])
  }

  /** What a call holds or returned is in agreement with the stored bodies. */
  ghost predicate CallRight(d: Decoder, bodies: map<string, Bytes>, call: Call) {
    && d.Key(call.key) == call.key
    && match call
       case Fetched(key, body) => d.Decodes(body, key)
       case Done(key, Success(body)) => key in bodies && bodies[key] == body
       case _ => true
  }

  /** Stored bodies decode under their keys, which are keys of some hash, and every call is in agreement with them. */
  ghost predicate Inv(d: Decoder, s: State) {
    && (forall key | key in s.bodies :: d.Key(key) == key && d.Decodes(s.bodies[key], key))
    && (forall id | id in s.calls :: CallRight(d, s.bodies, s.calls[id]))
  }

  /** Stored entries and finished calls never change. */
  ghost predicate Grows(s: State, t: State) {
    && (forall key | key in s.bodies :: key in t.bodies && t.bodies[key] == s.bodies[key])
    && (forall id | id in s.calls && s.calls[id].Done? :: id in t.calls && t.calls[id] == s.calls[id])
  }

  lemma StepKeeps(d: Decoder, s: State, t: State, step: Step)
    requires Inv(d, s) && NextStep(d, s, t, step)
    ensures Inv(d, t) && Grows(s, t)
  {
    hide NormalizeHexHash;
    if step.CallStep? {
      KeyOfKey(d.lower, step.hash);
    }
  }

  lemma {:induction false} InvHolds(d: Decoder, trace: seq<State>, k: nat)
    requires Behaviour(d, trace) && k < |trace|
    ensures Inv(d, trace[k])
  {
    if k > 0 {
      InvHolds(d, trace, k - 1);
      assert Next(d, trace[k - 1], trace[k - 1 + 1]);
      var step :| NextStep(d, trace[k - 1], trace[k], step);
      StepKeeps(d, trace[k - 1], trace[k], step);
    }
  }

  lemma GrowsByStep(d: Decoder, trace: seq<State>, k: nat)
    requires Behaviour(d, trace) && 0 < k < |trace|
    ensures Grows(trace[k - 1], trace[k])
  {
    InvHolds(d, trace, k - 1);
    assert Next(d, trace[k - 1], trace[k - 1 + 1]);
    var step :| NextStep(d, trace[k - 1], trace[k], step);
    StepKeeps(d, trace[k - 1], trace[k], step);
  }

  /** An entry never changes once written. */
  lemma {:induction false} EntriesStay(d: Decoder, trace: seq<State>, j: nat, k: nat)
    requires Behaviour(d, trace) && j <= k < |trace|
    ensures Grows(trace[j], trace[k])
    decreases k
  {
    if j == k {
      GrowsNowhere(trace[j]);
    } else {
      hide Behaviour, Grows;
      EntriesStay(d, trace, j, k - 1);
      GrowsByStep(d, trace, k);
      GrowsFurther(trace[j], trace[k - 1], trace[k]);
    }
  }

  lemma GrowsNowhere(s: State)
    ensures Grows(s, s)
  {
  }

  lemma GrowsFurther(s: State, t: State, u: State)
    requires Grows(s, t) && Grows(t, u)
    ensures Grows(s, u)
  {
  }

  ghost predicate Returned(s: State, id: nat, key: string, body: Bytes) {
    id in s.calls && s.calls[id] == Done(key, Success(body))
  }

  /**
   In every interleaving: a cached body decodes and, under a key that is not empty, hashes to it;
   and all calls that succeed for one key, at whatever times, return the same bytes.
   */
  lemma CacheIsCoherent(d: Decoder, trace: seq<State>, j: nat, k: nat)
    requires Behaviour(d, trace) && j <= k < |trace|
    ensures forall key | key in trace[k].bodies ::
      d.wellFormed(trace[k].bodies[key]) && (key != "" ==> d.hash(trace[k].bodies[key]) == key)
    ensures forall id1, id2, key, b1, b2 |
      Returned(trace[j], id1, key, b1) && Returned(trace[k], id2, key, b2) :: b1 == b2
    ensures forall id, key, b | Returned(trace[k], id, key, b) ::
      d.wellFormed(b) && (key != "" ==> d.hash(b) == key)
  {
    InvHolds(d, trace, j);
    InvHolds(d, trace, k);
    EntriesStay(d, trace, j, k);
  }

  /** A blank hash lets any well-formed body be cached and returned, whatever it hashes to. */
  lemma BlankHashIsUnchecked(d: Decoder, hash: string, body: Bytes) returns (trace: seq<State>)
    requires d.wellFormed(body) && forall i | 0 <= i < |hash| :: IsBlank(hash[i])
    ensures Behaviour(d, trace)
    ensures trace[|trace| - 1] == State(map["" := body], map[0 := Done("", Success(body))])
  {
    EmptyKey(d.lower, hash);
    EmptyKey(d.lower, "");
    hide NormalizeHexHash;
    var s0 := State(map[], map[]);
    var s1 := s0.(calls := map[0 := Looking("")]);
    var s2 := s0.(calls := map[0 := Fetching("")]);
    var s3 := s0.(calls := map[0 := Fetched("", body)]);
    var s4 := State(map["" := body], map[0 := Done("", Success(body))]);
    assert NextStep(d, s0, s1, CallStep(0, hash));
    assert s1.calls[0 := Fetching("")] == s2.calls;
    assert NextStep(d, s1, s2, LookStep(0));
    assert s2.calls[0 := Fetched("", body)] == s3.calls;
    assert NextStep(d, s2, s3, ReceiveStep(0, Some(body)));
    assert s3.calls[0 := Done("", Success(body))] == s4.calls;
    assert NextStep(d, s3, s4, StoreStep(0));
    trace := [s0, s1, s2, s3, s4];
  }

  /** Some run returns the body to a call for the hash. */
  ghost predicate CanReturn(d: Decoder, hash: string, body: Bytes) {
    exists trace: seq<State>, k: nat, id: nat ::
      Behaviour(d, trace) && k < |trace| && Returned(trace[k], id, d.Key(hash), body)
  }

  /** A well-formed body that does not hash to the requested hash is returned in some run exactly when the hash is all blanks. */
  lemma UncheckedExactly(d: Decoder, hash: string, body: Bytes)
    requires d.wellFormed(body) && d.hash(body) != d.Key(hash)
    ensures CanReturn(d, hash, body) <==> forall i | 0 <= i < |hash| :: IsBlank(hash[i])
  {
    EmptyKey(d.lower, hash);
    hide NormalizeHexHash, IsBlank;
    if CanReturn(d, hash, body) {
      var trace: seq<State>, k: nat, id: nat :|
        Behaviour(d, trace) && k < |trace| && Returned(trace[k], id, d.Key(hash), body);
      CacheIsCoherent(d, trace, k, k);
    }
    if forall i | 0 <= i < |hash| :: IsBlank(hash[i]) {
      var trace := BlankHashIsUnchecked(d, hash, body);
      assert Returned(trace[|trace| - 1], 0, d.Key(hash), body);
    }
  }

  /** Stored bodies decode under their keys. */
  ghost predicate Coherent(d: Decoder, bodies: map<string, Bytes>) {
    forall key | key in bodies :: d.Decodes(bodies[key], key)
  }

  class Cache {
    var bodies: map<string, Bytes>

    constructor ()
      ensures bodies == map[]
    {
      bodies := map[];
    }

    /** A call on its own: it returns what is stored under its key, and stores a fetched body only once checked. */
    method FetchAndDecode(d: Decoder, worker: string -> Option<Bytes>, hash: string) returns (r: Result)
      requires Coherent(d, bodies)
      modifies this
      ensures Coherent(d, bodies)
      ensures forall key | key in old(bodies) :: key in bodies && bodies[key] == old(bodies)[key]
      ensures forall key | key in bodies && key !in old(bodies) :: key == d.Key(hash)
      ensures var key := d.Key(hash);
        && (r.Success? <==> key in old(bodies) || (worker(key).Some? && d.Matches(worker(key).value, key)))
        && (r.Success? <==> key in bodies)
        && (r.Success? ==> r.body == bodies[key])
    {
      hide NormalizeHexHash;
      var key := d.Key(hash);
      if key in bodies {
        var body := bodies[key];
        return if d.Decodes(body, key) then Success(body) else Failure;
      }
      var response := worker(key);
      if response.Some? {
        DecodesByKey(d, response.value, hash);
      }
      if response.None? || !d.Decodes(response.value, key) {
        return Failure;
      }
      bodies := bodies[key := response.value];
      return Success(response.value);
    }
  }

  /**
   The method on a cache that may be nil: without one the worker is asked under the hash as given
   and nothing is kept, but the answer is checked against the same key.
   */
  method FetchAndDecode(c: Cache?, d: Decoder, worker: string -> Option<Bytes>, hash: string) returns (r: Result)
    requires c != null ==> Coherent(d, c.bodies)
    modifies if c == null then {} else {c}
    ensures c != null ==> Coherent(d, c.bodies)
    ensures r.Success? ==> d.Matches(r.body, d.Key(hash))
    ensures c == null ==>
      r == (match worker(hash)
            case Some(body) => if d.Matches(body, d.Key(hash)) then Success(body) else Failure
            case None => Failure)
    ensures c != null ==> (r.Success? <==> d.Key(hash) in c.bodies)
    ensures c != null && r.Success? ==> r.body == c.bodies[d.Key(hash)]
  {
    hide NormalizeHexHash;
    if c == null {
      var response := worker(hash);
      if response.None? {
        return Failure;
      }
      DecodesByKey(d, response.value, hash);
      return if d.Decodes(response.value, hash) then Success(response.value) else Failure;
    }
    r := c.FetchAndDecode(d, worker, hash);
    if r.Success? {
      DecodesByKey(d, r.body, hash);
    }
  }
}
