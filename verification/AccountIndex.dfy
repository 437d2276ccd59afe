/** The index from an account to the extrinsic tables that hold its rows: how it is kept, and what it saves. */
module AccountIndex {
  import opened Ids
  import opened Tables

  type Mapping = map<string, seq<nat>>

  predicate Indexes(mapping: Mapping, account: string, table: nat) {
    account in mapping && table in mapping[account]
  }

  /** Table s holds a row of the account. */
  predicate Holds(db: Database, s: nat, account: string) {
    s in db && Mentions(db[s], account)
  }

  predicate Mentions(rows: seq<Row>, account: string) {
    exists i | 0 <= i < |rows| :: rows[i].account == account
  }

  lemma NoMention()
    ensures forall a :: !Mentions([], a)
  {
  }

  lemma MentionsSnoc(rows: seq<Row>, n: nat)
    requires n < |rows|
    ensures forall a :: Mentions(rows[..n + 1], a) <==> Mentions(rows[..n], a) || a == rows[n].account
  {
    forall a | Mentions(rows[..n], a) || a == rows[n].account
      ensures Mentions(rows[..n + 1], a)
    {
      assert rows[..n + 1][n] == rows[n];
      if a != rows[n].account {
        var i :| 0 <= i < n && rows[..n][i].account == a;
        assert rows[..n + 1][i].account == a;
      }
    }
    forall a | Mentions(rows[..n + 1], a) && a != rows[n].account
      ensures Mentions(rows[..n], a)
    {
      var i :| 0 <= i < n + 1 && rows[..n + 1][i].account == a;
      assert rows[..n][i].account == a;
    }
  }

  /** Every table that holds a row of an account is in the account's list. */
  ghost predicate IndexComplete(db: Database, mapping: Mapping) {
    forall s, account | account != "" && Holds(db, s, account) :: Indexes(mapping, account, s)
  }

  /** UpdateAccountExtrinsicMapping on the mapping table. */
  function AddIndex(mapping: Mapping, account: string, table: nat): Mapping {
    if account == "" then mapping
    else if account !in mapping then mapping[account := [table]]
    else if table in mapping[account] then mapping
    else mapping[account := mapping[account] + [table]]
  }

  lemma AddIndexAdds(mapping: Mapping, account: string, table: nat)
    ensures forall a, t: nat :: Indexes(AddIndex(mapping, account, table), a, t) <==>
      Indexes(mapping, a, t) || (account != "" && a == account && t == table)
  {
  }

  predicate HasId(table: seq<Row>, id: nat) {
    exists i | 0 <= i < |table| :: table[i].id == id
  }

  /** Insert by id; a row whose id is already stored is ignored. */
  function InsertRow(table: seq<Row>, r: Row): seq<Row> {
    if table == [] then [r]
    else
      var last := table[|table| - 1];
      if last.id < r.id then table + [r]
      else if last.id == r.id then table
      else InsertRow(table[..|table| - 1], r) + [last]
  }

  lemma {:induction false} InsertRowMembers(table: seq<Row>, r: Row)
    ensures forall x | x in InsertRow(table, r) :: x in table || x == r
    ensures forall x | x in table :: x in InsertRow(table, r)
  {
    if table != [] {
      var front, last := table[..|table| - 1], table[|table| - 1];
      assert table == front + [last];
      if r.id < last.id {
        InsertRowMembers(front, r);
      }
    }
  }

  lemma {:induction false} InsertRowFinds(table: seq<Row>, r: Row)
    ensures r in InsertRow(table, r) || HasId(table, r.id)
  {
    if table != [] && r.id < table[|table| - 1].id {
      var front := table[..|table| - 1];
      InsertRowFinds(front, r);
      if HasId(front, r.id) {
        var i :| 0 <= i < |front| && front[i].id == r.id;
        assert table[i].id == r.id;
      }
    }
  }

  lemma {:induction false} InsertRowAscends(table: seq<Row>, r: Row)
    requires Ascending(table)
    ensures Ascending(InsertRow(table, r))
  {
    if table != [] && r.id < table[|table| - 1].id {
      var front, last := table[..|table| - 1], table[|table| - 1];
      InsertRowAscends(front, r);
      InsertRowMembers(front, r);
      forall i | 0 <= i < |InsertRow(front, r)|
        ensures InsertRow(front, r)[i].id < last.id
      {
        assert InsertRow(front, r)[i] in InsertRow(front, r);
      }
    }
  }

  lemma InsertRowKeepsOrder(table: seq<Row>, r: Row)
    requires Ascending(table)
    ensures Ascending(InsertRow(table, r))
    ensures forall x | x in InsertRow(table, r) :: x in table || x == r
    ensures forall x | x in table :: x in InsertRow(table, r)
    ensures r in InsertRow(table, r) || HasId(table, r.id)
  {
    hide InsertRow, Ascending, HasId;
    InsertRowMembers(table, r);
    InsertRowFinds(table, r);
    InsertRowAscends(table, r);
  }

  /** The extrinsic tables and the index beside them. */
  datatype State = State(tables: Database, mapping: Mapping) {
    /** Rows sit in ascending order in the table of their packed id. */
    ghost predicate Sorted() {
      forall s | s in tables :: Ascending(tables[s]) && forall x | x in tables[s] :: x.id / SPAN == s
    }

    ghost predicate Indexed() {
      IndexComplete(tables, mapping)
    }
  }

  /** A row goes to the table of its block, and the hook after it indexes its account there. */
  function StoreOne(st: State, r: Row): State
    requires TableIndex(r.blockNum) in st.tables
  {
    var s := TableIndex(r.blockNum);
    State(st.tables[s := InsertRow(st.tables[s], r)], AddIndex(st.mapping, r.account, s))
  }

  /** The rows of one block, one after the other. */
  function StoreAll(st: State, rows: seq<Row>): (out: State)
    requires forall r | r in rows :: TableIndex(r.blockNum) in st.tables
    ensures out.tables.Keys == st.tables.Keys
  {
    if rows == [] then st
    else StoreOne(StoreAll(st, rows[..|rows| - 1]), rows[|rows| - 1])
  }

  lemma MemberHasId(table: seq<Row>, x: Row)
    requires x in table
    ensures HasId(table, x.id)
  {
    var i :| 0 <= i < |table| && table[i] == x;
  }

  /** An id stored in a table stays stored when the table only gains rows. */
  lemma HasIdGrows(old_: seq<Row>, new_: seq<Row>, id: nat)
    requires HasId(old_, id) && forall x | x in old_ :: x in new_
    ensures HasId(new_, id)
  {
    var i :| 0 <= i < |old_| && old_[i].id == id;
    MemberHasId(new_, old_[i]);
  }

  /** Every row stored before is stored still. */
  ghost predicate Grows(before: Database, after: Database) {
    forall s | s in before :: s in after && forall x | x in before[s] :: x in after[s]
  }

  lemma StoreOneRows(st: State, r: Row)
    requires TableIndex(r.blockNum) in st.tables && r.id / SPAN == TableIndex(r.blockNum)
    requires st.Sorted()
    ensures StoreOne(st, r).Sorted() && Grows(st.tables, StoreOne(st, r).tables)
    ensures HasId(StoreOne(st, r).tables[TableIndex(r.blockNum)], r.id)
  {
    hide InsertRow, AddIndex, HasId;
    var s := TableIndex(r.blockNum);
    InsertRowKeepsOrder(st.tables[s], r);
    if r in InsertRow(st.tables[s], r) {
      MemberHasId(InsertRow(st.tables[s], r), r);
    } else {
      HasIdGrows(st.tables[s], InsertRow(st.tables[s], r), r.id);
    }
  }

  /** Storing a row keeps the index complete. */
  lemma StoreOneIndexed(st: State, r: Row)
    requires TableIndex(r.blockNum) in st.tables
    requires st.Sorted() && st.Indexed()
    ensures StoreOne(st, r).Indexed()
  {
    hide InsertRow, AddIndex, Indexes, Ascending;
    var s := TableIndex(r.blockNum);
    var out := StoreOne(st, r);
    InsertRowKeepsOrder(st.tables[s], r);
    AddIndexAdds(st.mapping, r.account, s);
    forall t, account | account != "" && Holds(out.tables, t, account)
      ensures Indexes(out.mapping, account, t)
    {
      var i :| 0 <= i < |out.tables[t]| && out.tables[t][i].account == account;
      var x := out.tables[t][i];
      assert x in out.tables[t];
      if x in st.tables[t] {
        var j :| 0 <= j < |st.tables[t]| && st.tables[t][j] == x;
        assert Holds(st.tables, t, account);
      }
    }
  }

  /** Storing a whole block keeps the index complete and loses nothing; every row is then stored under its id. */
  lemma {:induction false} StoreAllKeeps(st: State, rows: seq<Row>)
    requires forall r | r in rows :: TableIndex(r.blockNum) in st.tables && r.id / SPAN == TableIndex(r.blockNum)
    requires st.Sorted()
    ensures StoreAll(st, rows).Sorted() && Grows(st.tables, StoreAll(st, rows).tables)
    ensures st.Indexed() ==> StoreAll(st, rows).Indexed()
    ensures forall r | r in rows :: HasId(StoreAll(st, rows).tables[TableIndex(r.blockNum)], r.id)
  {
    hide StoreOne, HasId, Ascending, IndexComplete;
    if rows != [] {
      var front, last := rows[..|rows| - 1], rows[|rows| - 1];
      StoreAllKeeps(st, front);
      var mid := StoreAll(st, front);
      StoreOneRows(mid, last);
      if st.Indexed() {
        StoreOneIndexed(mid, last);
      }
      forall r | r in rows
        ensures HasId(StoreAll(st, rows).tables[TableIndex(r.blockNum)], r.id)
      {
        if r != last {
          assert r in front;
          var s := TableIndex(r.blockNum);
          HasIdGrows(mid.tables[s], StoreOne(mid, last).tables[s], r.id);
        }
      }
    }
  }

  function InsertInt(x: nat, xs: seq<nat>): (r: seq<nat>)
    ensures forall y :: y in r <==> y == x || y in xs
  {
    if xs == [] || x <= xs[0] then [x] + xs
    else
      assert xs == [xs[0]] + xs[1..];
      [xs[0]] + InsertInt(x, xs[1..])
  }

  /** sort.Ints. */
  function SortInts(xs: seq<nat>): (r: seq<nat>)
    ensures forall y :: y in r <==> y in xs
  {
    if xs == [] then []
    else
      assert xs == [xs[0]] + xs[1..];
      InsertInt(xs[0], SortInts(xs[1..]))
  }

  /** The tables collected for an account by the migration. */
  predicate Collected(collected: map<string, set<nat>>, account: string, table: nat) {
    account in collected && table in collected[account]
  }

  /** Tables 0 up to gap exist and table `gap` does not. */
  ghost predicate IsGap(db: Database, gap: nat) {
    gap !in db && forall s | 0 <= s < gap :: s in db
  }

  function Collect(collected: map<string, set<nat>>, a: string, idx: nat): map<string, set<nat>> {
    collected[a := (if a in collected then collected[a] else {}) + {idx}]
  }

  lemma CollectAdds(collected: map<string, set<nat>>, account: string, idx: nat)
    ensures forall a, t: nat :: Collected(Collect(collected, account, idx), a, t) <==>
      Collected(collected, a, t) || (a == account && t == idx)
  {
  }

  /** Adds table idx to the collected tables of the accounts of its rows. */
  method CollectTable(collected: map<string, set<nat>>, idx: nat, db: Database) returns (out: map<string, set<nat>>)
    requires idx in db
    ensures forall a, t: nat :: Collected(out, a, t) <==>
      Collected(collected, a, t) || (a != "" && t == idx && Holds(db, idx, a))
  {
    hide Collect, Collected, Mentions;
    var rows := db[idx];
    out := collected;
    assert rows[..0] == [];
    NoMention();
    for i := 0 to |rows|
      invariant forall a, t: nat :: Collected(out, a, t) <==>
        Collected(collected, a, t) || (a != "" && t == idx && Mentions(rows[..i], a))
    {
      MentionsSnoc(rows, i);
      var a := rows[i].account;
      if a != "" {
        CollectAdds(out, a, idx);
        out := Collect(out, a, idx);
      }
    }
    assert rows[..|rows|] == rows;
  }

  /** The collected tables that the list lacks, put behind it. */
  method AppendMissing(list: seq<nat>, extra: set<nat>) returns (out: seq<nat>, changed: bool)
    ensures forall t :: t in out <==> t in list || t in extra
    ensures !changed ==> out == list
  {
    out, changed := list, false;
    var rest := extra;
    while rest != {}
      invariant rest <= extra
      invariant forall t :: t in out <==> t in list || t in extra - rest
      invariant !changed ==> out == list
    {
      var k :| k in rest;
      if k !in list {
        out := out + [k];
        changed := true;
      }
      rest := rest - {k};
    }
  }

  class ExtrinsicStore {
    var tables: Database
    var mapping: Mapping

    function Get(): State
      reads this
    {
      State(tables, mapping)
    }

    method UpdateAccountExtrinsicMapping(accountId: string, blockNum: nat)
      modifies this`mapping
      ensures mapping == AddIndex(old(mapping), accountId, TableIndex(blockNum))
    {
      if accountId == "" {
        return;
      }
      var idx := TableIndex(blockNum);
      if accountId !in mapping {
        mapping := mapping[accountId := [idx]];
        return;
      }
      var list := mapping[accountId];
      for i := 0 to |list|
        invariant forall k | 0 <= k < i :: list[k] != idx
        invariant mapping == old(mapping)
      {
        if list[i] == idx {
          return;
        }
      }
      mapping := mapping[accountId := list + [idx]];
    }

    /** Stores the extrinsics of one block, whose ids are packed from the block and their position. */
    method CreateExtrinsic(extrinsics: seq<Row>, blockNum: nat)
      requires TableIndex(blockNum) in tables
      requires |extrinsics| <= COEFFICIENT && blockNum * COEFFICIENT + |extrinsics| <= UINT
      requires forall i | 0 <= i < |extrinsics| ::
        extrinsics[i].blockNum == blockNum && extrinsics[i].id == GenerateId(blockNum, i)
      modifies this
      ensures Get() == StoreAll(old(Get()), extrinsics)
      ensures old(Get()).Sorted() ==> Get().Sorted()
      ensures old(Get()).Sorted() && old(Get()).Indexed() ==> Get().Indexed()
    {
      ghost var before := Get();
      for i := 0 to |extrinsics|
        invariant Get() == StoreAll(before, extrinsics[..i])
      {
        assert extrinsics[..i + 1][..i] == extrinsics[..i];
        var r := extrinsics[i];
        var s := TableIndex(r.blockNum);
        tables := tables[s := InsertRow(tables[s], r)];
        UpdateAccountExtrinsicMapping(r.account, r.blockNum);
      }
      assert extrinsics[..|extrinsics|] == extrinsics;
      if before.Sorted() {
        forall r | r in extrinsics
          ensures r.id / SPAN == TableIndex(r.blockNum)
        {
          var i :| 0 <= i < |extrinsics| && extrinsics[i] == r;
          SmallIndexStays(blockNum, i);
          TableOfIdIsQuotient(r.id);
        }
        StoreAllKeeps(before, extrinsics);
      }
    }

    /**
     Walks the extrinsic tables from 0 until one is missing and adds what it finds to the index.
     Afterwards an account is indexed in a table exactly when it was before or has a row in a
     table below the first missing one.
     */
    method MigrateAccountExtrinsicMapping()
      modifies this`mapping
      ensures forall gap: nat, a, t: nat | IsGap(tables, gap) :: Indexes(mapping, a, t) <==>
        old(Indexes(mapping, a, t)) || (a != "" && t < gap && Holds(tables, t, a))
    {
      var collected: map<string, set<nat>> := map[];
      var idx := 0;
      ghost var seen: set<nat> := {};
      while idx in tables
        invariant mapping == old(mapping)
        invariant forall s | s in seen :: s < idx
        invariant forall s | 0 <= s < idx :: s in tables
        invariant forall a, t: nat :: Collected(collected, a, t) <==> a != "" && t < idx && Holds(tables, t, a)
        decreases tables.Keys - seen
      {
        collected := CollectTable(collected, idx, tables);
        seen := seen + {idx};
        idx := idx + 1;
      }
      Upsert(collected);
      forall gap: nat, a, t: nat | IsGap(tables, gap)
        ensures Indexes(mapping, a, t) <==>
          old(Indexes(mapping, a, t)) || (a != "" && t < gap && Holds(tables, t, a))
      {
        assert gap == idx;
        assert Indexes(mapping, a, t) <==> old(Indexes(mapping, a, t)) || Collected(collected, a, t);
      }
    }

    /** Merges the collected tables into the mapping, account by account. */
    method Upsert(collected: map<string, set<nat>>)
      modifies this`mapping
      ensures forall a, t: nat :: Indexes(mapping, a, t) <==> old(Indexes(mapping, a, t)) || Collected(collected, a, t)
    {
      var accounts := collected.Keys;
      while accounts != {}
        invariant accounts <= collected.Keys
        invariant forall a, t: nat :: Indexes(mapping, a, t) <==>
          old(Indexes(mapping, a, t)) || (a !in accounts && Collected(collected, a, t))
      {
        var acc :| acc in accounts;
        if acc !in mapping {
          var idxs, _ := AppendMissing([], collected[acc]);
          mapping := mapping[acc := SortInts(idxs)];
        } else {
          var merged, changed := AppendMissing(mapping[acc], collected[acc]);
          if changed {
            mapping := mapping[acc := SortInts(merged)];
          }
        }
        accounts := accounts - {acc};
      }
    }
  }

  /**
   The migration completes the index exactly when every account row in a table behind the first
   missing one was indexed already.
   */
  lemma MigrationCompletes(db: Database, before: Mapping, after: Mapping, gap: nat)
    requires IsGap(db, gap)
    requires forall a, t: nat :: Indexes(after, a, t) <==> Indexes(before, a, t) || (a != "" && t < gap && Holds(db, t, a))
    ensures IndexComplete(db, after) <==>
      forall t: nat, a | t > gap && a != "" && Holds(db, t, a) :: Indexes(before, a, t)
  {
    forall t: nat, a | a != "" && Holds(db, t, a)
      ensures t != gap
    {
    }
  }
}
