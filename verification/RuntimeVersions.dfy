/** Which runtime version decodes a block: registrations in any order, and the lookup over the ordered table. */
module RuntimeVersions {

  datatype Version = Version(name: string, block: nat, rawData: string)

  /** runtime_versions by its unique column, spec_version. */
  type Table = map<nat, Version>

  datatype Call = Call(name: string, spec: nat, block: nat)

  /**
   CreateRuntimeVersion on the table: a new spec is inserted, a known spec is lowered if the name
   matches too, and a known spec under another name is ignored.
   */
  function Register(rows: Table, c: Call): Table {
    if c.spec !in rows then rows[c.spec := Version(c.name, c.block, "")]
    else if c.name == rows[c.spec].name && c.block < rows[c.spec].block then
      rows[c.spec := rows[c.spec].(block := c.block)]
    else rows
  }

  function RegisterAll(calls: seq<Call>): Table {
    if calls == [] then map[] else Register(RegisterAll(calls[..|calls| - 1]), calls[|calls| - 1])
  }

  predicate Concerns(c: Call, name: string, spec: nat) {
    c.spec == spec && c.name == name
  }

  ghost predicate Registered(calls: seq<Call>, spec: nat) {
    exists i | 0 <= i < |calls| :: calls[i].spec == spec
  }

  /** `name` is the name the spec was first registered under. */
  ghost predicate FirstName(calls: seq<Call>, spec: nat, name: string) {
    exists i | 0 <= i < |calls| ::
      Concerns(calls[i], name, spec) && forall j | 0 <= j < i :: calls[j].spec != spec
  }

  /** `block` is the lowest block registered for the spec under the name. */
  ghost predicate Lowest(calls: seq<Call>, spec: nat, name: string, block: nat) {
    && (exists i | 0 <= i < |calls| :: Concerns(calls[i], name, spec) && calls[i].block == block)
    && (forall i | 0 <= i < |calls| && Concerns(calls[i], name, spec) :: block <= calls[i].block)
  }

  /**
   After any calls in any order, the table has the registered specs, each with the lowest block
   registered under the name that came first.
   */
  lemma {:induction false} TableAfterCalls(calls: seq<Call>)
    ensures forall spec :: RowRight(calls, RegisterAll(calls), spec)
  {
    if calls == [] {
      assert forall spec :: RowRight(calls, RegisterAll(calls), spec);
    } else {
      hide Registered, FirstName, Lowest, RowRight;
      var last := |calls| - 1;
      TableAfterCalls(calls[..last]);
      assert calls == calls[..last] + [calls[last]];
      forall spec
        ensures RowRight(calls, RegisterAll(calls), spec)
      {
        RowAfterCall(calls[..last], RegisterAll(calls[..last]), calls[last], spec);
      }
    }
  }

  /** What the table says of one spec after the calls. */
  ghost predicate RowRight(calls: seq<Call>, rows: Table, spec: nat) {
    && (spec in rows <==> Registered(calls, spec))
    && (spec in rows ==>
          FirstName(calls, spec, rows[spec].name) && Lowest(calls, spec, rows[spec].name, rows[spec].block))
  }

  lemma RowAfterCall(front: seq<Call>, rows: Table, c: Call, spec: nat)
    requires RowRight(front, rows, spec)
    ensures RowRight(front + [c], Register(rows, c), spec)
  {
    hide Registered, FirstName, Lowest;
    RegisteredSnoc(front, c, spec);
    if spec in rows {
      KnownSpec(front, c, spec, rows[spec]);
    } else if c.spec == spec {
      NewSpec(front, c);
    }
  }

  lemma RegisteredSnoc(front: seq<Call>, c: Call, spec: nat)
    ensures Registered(front + [c], spec) <==> Registered(front, spec) || spec == c.spec
  {
    var calls := front + [c];
    assert calls[|front|] == c;
    if i :| 0 <= i < |front| && front[i].spec == spec {
      assert calls[i].spec == spec;
    }
  }

  lemma NewSpec(front: seq<Call>, c: Call)
    requires !Registered(front, c.spec)
    ensures FirstName(front + [c], c.spec, c.name) && Lowest(front + [c], c.spec, c.name, c.block)
  {
    var calls := front + [c];
    assert Concerns(calls[|front|], c.name, c.spec);
    assert forall j | 0 <= j < |front| :: calls[j] == front[j];
  }

  lemma KnownSpec(front: seq<Call>, c: Call, spec: nat, v: Version)
    requires FirstName(front, spec, v.name) && Lowest(front, spec, v.name, v.block)
    ensures FirstName(front + [c], spec, v.name)
    ensures Lowest(front + [c], spec, v.name, if Concerns(c, v.name, spec) && c.block < v.block then c.block else v.block)
  {
    var calls := front + [c];
    assert forall j | 0 <= j < |front| :: calls[j] == front[j];
    assert calls[|front|] == c;
    var i :| 0 <= i < |front| && Concerns(front[i], v.name, spec) && forall j | 0 <= j < i :: front[j].spec != spec;
    assert Concerns(calls[i], v.name, spec);
    var k :| 0 <= k < |front| && Concerns(front[k], v.name, spec) && front[k].block == v.block;
    assert Concerns(calls[k], v.name, spec);
  }

  datatype RuntimeType = RuntimeType(block: nat, spec: nat)

  ghost predicate HasSpec(list: seq<RuntimeType>, spec: nat) {
    exists i | 0 <= i < |list| :: list[i].spec == spec
  }

  /** What a reload reads: the rows as pairs, in ascending spec order. */
  ghost predicate IsReload(list: seq<RuntimeType>, rows: Table) {
    && (forall i, j | 0 <= i < j < |list| :: list[i].spec < list[j].spec)
    && (forall i | 0 <= i < |list| :: list[i].spec in rows && list[i].block == rows[list[i].spec].block)
    && (forall spec | spec in rows :: HasSpec(list, spec))
  }

  lemma HasSpecSnoc(list: seq<RuntimeType>, x: RuntimeType)
    ensures HasSpec(list + [x], x.spec)
    ensures forall spec | HasSpec(list, spec) :: HasSpec(list + [x], spec)
  {
    var more := list + [x];
    assert more[|list|].spec == x.spec;
    forall spec | HasSpec(list, spec)
      ensures HasSpec(more, spec)
    {
      var i :| 0 <= i < |list| && list[i].spec == spec;
      assert more[i].spec == spec;
    }
  }

  /** The lookup: the last entry before the first one above the block; -1 when there is none. */
  function Lookup(list: seq<RuntimeType>, blockNum: nat): int {
    if list == [] || list[0].block > blockNum then -1
    else
      var later := Lookup(list[1..], blockNum);
      if later == -1 then list[0].spec else later
  }

  /** The loop stops at the first entry above the block, whatever comes behind it. */
  lemma {:induction false} LookupStops(list: seq<RuntimeType>, n: nat, k: nat)
    requires k <= |list| && (forall i | 0 <= i < k :: list[i].block <= n)
    requires k == |list| || list[k].block > n
    ensures Lookup(list, n) == if k == 0 then -1 else list[k - 1].spec
  {
    if k > 0 {
      LookupStops(list[1..], n, k - 1);
    }
  }

  /** Blocks ascend as specs do. */
  ghost predicate BlocksAscend(list: seq<RuntimeType>) {
    forall i, j | 0 <= i < j < |list| :: list[i].block < list[j].block && list[i].spec < list[j].spec
  }

  /** Over ascending blocks the lookup gives the greatest spec whose block is at or below the given one. */
  lemma {:induction false} LookupGreatest(list: seq<RuntimeType>, n: nat)
    requires BlocksAscend(list)
    ensures Lookup(list, n) == -1 <==> forall i | 0 <= i < |list| :: list[i].block > n
    ensures Lookup(list, n) != -1 ==>
      (exists i | 0 <= i < |list| :: list[i].block <= n && Lookup(list, n) == list[i].spec)
    ensures forall i | 0 <= i < |list| && list[i].block <= n :: list[i].spec <= Lookup(list, n)
  {
    if list != [] && list[0].block <= n {
      LookupGreatest(list[1..], n);
      assert forall i | 0 < i < |list| :: list[i] == list[1..][i - 1];
    }
  }

  /** Spec versions never decrease with height. */
  ghost predicate Monotone(truth: nat -> nat) {
    forall a, b | a <= b :: truth(a) <= truth(b)
  }

  /** Every registration reports the true spec of its block. */
  ghost predicate Truthful(calls: seq<Call>, truth: nat -> nat) {
    forall i | 0 <= i < |calls| :: truth(calls[i].block) == calls[i].spec
  }

  lemma ReloadAscends(calls: seq<Call>, truth: nat -> nat, list: seq<RuntimeType>)
    requires Monotone(truth) && Truthful(calls, truth) && IsReload(list, RegisterAll(calls))
    ensures BlocksAscend(list)
    ensures forall i | 0 <= i < |list| :: truth(list[i].block) == list[i].spec
  {
    TableAfterCalls(calls);
    forall i | 0 <= i < |list|
      ensures truth(list[i].block) == list[i].spec
    {
      assert RowRight(calls, RegisterAll(calls), list[i].spec);
    }
  }

  /** The spec is registered, and the block is at or above the lowest one registered under its first name. */
  ghost predicate Covered(calls: seq<Call>, spec: nat, n: nat) {
    exists name: string, block: nat :: FirstName(calls, spec, name) && Lowest(calls, spec, name, block) && block <= n
  }

  lemma CoveredAtRow(calls: seq<Call>, spec: nat, n: nat)
    ensures Covered(calls, spec, n) <==> spec in RegisterAll(calls) && RegisterAll(calls)[spec].block <= n
  {
    hide Lowest, RegisterAll, FirstName, Registered;
    TableAfterCalls(calls);
    assert RowRight(calls, RegisterAll(calls), spec);
    if Covered(calls, spec, n) {
      var name: string, block: nat :|
        FirstName(calls, spec, name) && Lowest(calls, spec, name, block) && block <= n;
      FirstIsRegistered(calls, spec, name);
      var v := RegisterAll(calls)[spec];
      LowestUnique(calls, spec, name, v.name, block, v.block);
    }
  }

  lemma FirstIsRegistered(calls: seq<Call>, spec: nat, name: string)
    requires FirstName(calls, spec, name)
    ensures Registered(calls, spec)
  {
    var i :| 0 <= i < |calls| && Concerns(calls[i], name, spec);
  }

  /** Spec versions of the block rows in table 0, by block number. */
  type BlockRows = map<nat, nat>

  /** The row read when the lookup finds nothing: its spec version, 0 when there is no such row. */
  function RowVersion(blocks: BlockRows, n: nat): nat {
    if n in blocks then blocks[n] else 0
  }

  /** What a caller is given: the lookup, or the block's own row. */
  function Answer(list: seq<RuntimeType>, blocks: BlockRows, n: nat): int {
    if Lookup(list, n) == -1 then RowVersion(blocks, n) else Lookup(list, n)
  }

  /** No spec is registered at or below the block. */
  ghost predicate NothingBelow(calls: seq<Call>, n: nat) {
    forall spec :: !Covered(calls, spec, n)
  }

  lemma FoundNothing(calls: seq<Call>, list: seq<RuntimeType>, n: nat)
    requires IsReload(list, RegisterAll(calls))
    requires Lookup(list, n) == -1 <==> forall i | 0 <= i < |list| :: list[i].block > n
    ensures Lookup(list, n) == -1 <==> NothingBelow(calls, n)
  {
    hide Covered, RegisterAll, Lookup;
    forall spec
      ensures Covered(calls, spec, n) <==> exists i: nat :: i < |list| && list[i].spec == spec && list[i].block <= n
    {
      CoveredAtRow(calls, spec, n);
      if Covered(calls, spec, n) {
        assert HasSpec(list, spec);
        var i: nat :| i < |list| && list[i].spec == spec;
      }
    }
    if NothingBelow(calls, n) {
      forall i | 0 <= i < |list|
        ensures list[i].block > n
      {
        assert !Covered(calls, list[i].spec, n);
      }
    }
  }

  /**
   After any calls in any order and a fresh reload, the lookup finds the true spec of a block
   exactly when that spec is registered and the block is at or above the lowest one registered for
   it under its first name.
   */
  lemma FoundExactly(calls: seq<Call>, truth: nat -> nat, list: seq<RuntimeType>, n: nat)
    requires Monotone(truth) && Truthful(calls, truth) && IsReload(list, RegisterAll(calls))
    ensures Lookup(list, n) == truth(n) <==> Covered(calls, truth(n), n)
    ensures Lookup(list, n) == -1 <==> NothingBelow(calls, n)
  {
    hide Covered, RegisterAll, Truthful, Lookup, NothingBelow;
    ReloadAscends(calls, truth, list);
    CoveredAtRow(calls, truth(n), n);
    LookupGreatest(list, n);
    FoundNothing(calls, list, n);
    if Covered(calls, truth(n), n) {
      assert HasSpec(list, truth(n));
      var i: nat :| i < |list| && list[i].spec == truth(n);
      assert list[i].block <= n;
      var k: nat :| k < |list| && list[k].block <= n && Lookup(list, n) == list[k].spec;
      assert truth(list[k].block) <= truth(n);
    }
  }

  /**
   The version a caller is given is the true one exactly when the true spec is registered at or
   below the block under its first name, or no spec is and the block's own row has the true one.
   */
  lemma AnswerExact(calls: seq<Call>, truth: nat -> nat, list: seq<RuntimeType>, blocks: BlockRows, n: nat)
    requires Monotone(truth) && Truthful(calls, truth) && IsReload(list, RegisterAll(calls))
    ensures Answer(list, blocks, n) == truth(n) <==>
            Covered(calls, truth(n), n) || (NothingBelow(calls, n) && (if n in blocks then blocks[n] else 0) == truth(n))
  {
    hide Covered, RegisterAll, Truthful, Lookup, NothingBelow;
    FoundExactly(calls, truth, list, n);
    assert Covered(calls, truth(n), n) ==> Lookup(list, n) == truth(n) != -1;
  }

  lemma LowestUnique(calls: seq<Call>, spec: nat, n1: string, n2: string, b1: nat, b2: nat)
    requires FirstName(calls, spec, n1) && FirstName(calls, spec, n2)
    requires Lowest(calls, spec, n1, b1) && Lowest(calls, spec, n2, b2)
    ensures n1 == n2 && b1 == b2
  {
    var i :| 0 <= i < |calls| && Concerns(calls[i], n1, spec) && forall j | 0 <= j < i :: calls[j].spec != spec;
    var k :| 0 <= k < |calls| && Concerns(calls[k], n2, spec) && forall j | 0 <= j < k :: calls[j].spec != spec;
    assert i == k;
  }

  /** When a spec goes by one name, every block at or above any registered block of its own spec gets the true version. */
  lemma AnswerRight(calls: seq<Call>, truth: nat -> nat, list: seq<RuntimeType>, blocks: BlockRows, n: nat, k: nat)
    requires Monotone(truth) && Truthful(calls, truth) && IsReload(list, RegisterAll(calls))
    requires forall i, j | 0 <= i < |calls| && 0 <= j < |calls| && calls[i].spec == calls[j].spec ::
      calls[i].name == calls[j].name
    requires k < |calls| && calls[k].spec == truth(n) && calls[k].block <= n
    ensures Answer(list, blocks, n) == Lookup(list, n) == truth(n)
  {
    TableAfterCalls(calls);
    var s := truth(n);
    assert Registered(calls, s) && RowRight(calls, RegisterAll(calls), s);
    var v := RegisterAll(calls)[s];
    assert Concerns(calls[k], v.name, s);
    CoveredAtRow(calls, s, n);
    FoundExactly(calls, truth, list, n);
  }

  /** Spec 1 is reported at block 10 under one name and at block 5 under another. */
  const TWO_NAMES := [Call("a", 0, 0), Call("a", 1, 10), Call("b", 1, 5)]

  lemma TwoNamesTable()
    ensures RegisterAll(TWO_NAMES) == map[0 := Version("a", 0, ""), 1 := Version("a", 10, "")]
  {
    assert TWO_NAMES[..2] == [Call("a", 0, 0), Call("a", 1, 10)];
    assert TWO_NAMES[..2][..1] == [Call("a", 0, 0)] && TWO_NAMES[..2][..1][..0] == [];
    assert RegisterAll(TWO_NAMES[..2][..1]) == map[0 := Version("a", 0, "")];
    assert RegisterAll(TWO_NAMES[..2]) == map[0 := Version("a", 0, ""), 1 := Version("a", 10, "")];
  }

  /** The true spec version changes at block 5. */
  function NewAtFive(n: nat): nat {
    if n < 5 then 0 else 1
  }

  lemma TwoNamesTruthful()
    ensures Truthful(TWO_NAMES, NewAtFive) && Monotone(NewAtFive)
  {
  }

  /**
   A lower block under a second name is not taken over: although the true spec 1 is registered at
   block 5, block 7 is given spec 0, whatever its own row says.
   */
  lemma SecondNameIsIgnored(list: seq<RuntimeType>, blocks: BlockRows)
    requires IsReload(list, RegisterAll(TWO_NAMES))
    ensures Truthful(TWO_NAMES, NewAtFive) && Monotone(NewAtFive)
    ensures Answer(list, blocks, 7) == 0 != NewAtFive(7)
  {
    TwoNamesTruthful();
    TwoNamesTable();
    hide RegisterAll, Truthful, Monotone, Lookup;
    assert HasSpec(list, 0);
    LookupGreatest(list, 7);
  }

  /** The least specs are listed in order, the others are still in `rest`. */
  ghost predicate PartlyRead(list: seq<RuntimeType>, rest: set<nat>, rows: Table) {
    && rest <= rows.Keys
    && (forall i, j | 0 <= i < j < |list| :: list[i].spec < list[j].spec)
    && (forall i, x | 0 <= i < |list| && x in rest :: list[i].spec < x)
    && (forall i | 0 <= i < |list| :: list[i].spec in rows && list[i].block == rows[list[i].spec].block)
    && (forall spec | spec in rows && spec !in rest :: HasSpec(list, spec))
  }

  lemma ReadLeast(list: seq<RuntimeType>, rest: set<nat>, rows: Table, s: nat)
    requires PartlyRead(list, rest, rows)
    requires IsLeast(s, rest)
    ensures PartlyRead(list + [RuntimeType(rows[s].block, s)], rest - {s}, rows)
  {
    hide HasSpec;
    HasSpecSnoc(list, RuntimeType(rows[s].block, s));
  }

  predicate IsLeast(m: nat, s: set<nat>) {
    m in s && forall x | x in s :: m <= x
  }

  lemma {:induction false} LeastExists(s: set<nat>)
    requires s != {}
    ensures exists m :: IsLeast(m, s)
  {
    var a :| a in s;
    var rest := s - {a};
    if rest == {} {
      assert s == {a};
      assert IsLeast(a, s);
    } else {
      LeastExists(rest);
      var r :| IsLeast(r, rest);
      assert s == rest + {a};
      assert IsLeast(if r < a then r else a, s);
    }
  }

  /** The table and the cached list over it. */
  class RuntimeStore {
    var rows: Table
    var cached: seq<RuntimeType>
    /** Table 0 of the blocks. */
    var blocks: BlockRows

    /** Whether the metadata of the spec is still to be fetched. */
    method CreateRuntimeVersion(name: string, specVersion: nat, blockNum: nat) returns (missing: bool)
      modifies this`rows
      ensures rows == Register(old(rows), Call(name, specVersion, blockNum))
      ensures missing <==>
        specVersion !in old(rows) || (old(rows)[specVersion].name == name && old(rows)[specVersion].rawData == "")
      ensures rows.Keys == old(rows).Keys + {specVersion}
      ensures forall spec | spec in old(rows) ::
        rows[spec].name == old(rows)[spec].name && rows[spec].rawData == old(rows)[spec].rawData
    {
      if specVersion in rows && rows[specVersion].name == name {
        var runtime := rows[specVersion];
        if blockNum < runtime.block {
          rows := rows[specVersion := runtime.(block := blockNum)];
        }
        return runtime.rawData == "";
      }
      missing := specVersion !in rows;
      if missing {
        rows := rows[specVersion := Version(name, blockNum, "")];
      }
    }

    /** Reads the table in spec order into the cache. */
    method Reload()
      modifies this`cached
      ensures IsReload(cached, rows)
    {
      hide HasSpec;
      var list: seq<RuntimeType> := [];
      var rest := rows.Keys;
      while rest != {}
        invariant PartlyRead(list, rest, rows)
      {
        LeastExists(rest);
        var s :| s in rest && IsLeast(s, rest);
        ReadLeast(list, rest, rows, s);
        list := list + [RuntimeType(rows[s].block, s)];
        rest := rest - {s};
      }
      cached := list;
    }

    /** The lookup: an empty or an expired cache is reloaded first, and without an entry the block's row is asked. */
    method GetBlockRuntimeVersion(blockNum: nat, expired: bool) returns (spec: int)
      modifies this`cached
      ensures if old(cached) == [] || expired then IsReload(cached, rows) else cached == old(cached)
      ensures spec == Answer(cached, blocks, blockNum)
    {
      if |cached| == 0 || expired {
        Reload();
      }
      spec := Search(blockNum);
      if spec == -1 {
        spec := if blockNum in blocks then blocks[blockNum] else 0;
      }
    }

    /** The loop over the cached list. */
    method Search(blockNum: nat) returns (spec: int)
      ensures spec == Lookup(cached, blockNum)
    {
      spec := -1;
      var i := 0;
      while i < |cached|
        invariant i <= |cached|
        invariant Lookup(cached, blockNum) ==
          if Lookup(cached[i..], blockNum) == -1 then spec else Lookup(cached[i..], blockNum)
      {
        if cached[i].block <= blockNum {
          spec := cached[i].spec;
        } else {
          break;
        }
        i := i + 1;
      }
    }
  }
}
