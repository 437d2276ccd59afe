/**
 The three cursor listings as they run over the split tables, each shown to give the page of one
 unsplit table. A query on a table that does not exist fails.
 */
module Dao {
  import opened Sequences
  import opened Ids
  import opened Tables
  import opened Walks
  import opened Pages
  import opened AccountIndex
  import opened AccountListing

  /** ORDER BY id DESC LIMIT n on one table. */
  function Newest(table: seq<Row>, where: Where, bound: Bound, n: nat): seq<Row> {
    Take(Reversed(Filter(table, where, bound)), n)
  }

  /** ORDER BY id ASC LIMIT n on one table. */
  function Oldest(table: seq<Row>, where: Where, bound: Bound, n: nat): seq<Row> {
    Take(Filter(table, where, bound), n)
  }

  /** The loop from a table down to table 0 of the event and extrinsic listings. */
  method WalkDown(db: Database, sel: Selection, where: Where, bound: Bound, fetch: nat, start: nat)
    returns (list: seq<Row>)
    ensures list == Take(DownFrom(Visible(db, sel), where, bound, start + 1), fetch)
  {
    hide Filter, DownFrom, Reversed;
    ghost var seen := Visible(db, sel);
    list := [];
    var index: int := start;
    ghost var target := DownFrom(seen, where, bound, start + 1);
    assert [] + target == target;
    while index >= 0 && |list| < fetch
      invariant -1 <= index <= start && |list| <= fetch
      invariant Take(target, fetch) == Take(list + DownFrom(seen, where, bound, index + 1), fetch)
    {
      DownStep(seen, where, bound, index);
      TakeStep(list, Reversed(Filter(TableAt(seen, index), where, bound)), DownFrom(seen, where, bound, index), fetch);
      if sel.Checks(index) && index in db {
        list := list + Newest(db[index], where, bound, fetch - |list|);
      } else {
        EmptyTable(where, bound);
        assert list + Take([], fetch - |list|) == list;
      }
      index := index - 1;
    }
    if index < 0 {
      EmptyDown(seen, where, bound);
    }
    TakeFull(list, DownFrom(seen, where, bound, index + 1), fetch);
  }

  lemma EmptyTable(where: Where, bound: Bound)
    ensures Filter([], where, bound) == [] && Reversed<Row>([]) == []
  {
  }

  lemma EmptyDown(db: Database, where: Where, bound: Bound)
    ensures DownFrom(db, where, bound, 0) == []
  {
  }

  /** The loop from the cursor's table up to the last one; the cursor is a condition on the first table only. */
  method WalkUp(db: Database, sel: Selection, where: Where, cursor: nat, fetch: nat, start: nat, last: nat,
                ghost span: nat, ghost count: nat)
    returns (list: seq<Row>)
    requires WellSharded(Visible(db, sel), span, count)
    requires start == cursor / span || start == last
    ensures list == Take(UpFrom(Visible(db, sel), where, Above(cursor), start, last + 1), fetch)
  {
    hide Filter, UpFrom, WellSharded;
    ghost var seen := Visible(db, sel);
    var bound := Above(cursor);
    list := [];
    var index := start;
    ghost var target := UpFrom(seen, where, bound, start, last + 1);
    assert [] + target == target;
    while index <= last && |list| < fetch
      invariant start <= index && (index <= last + 1 || index == start) && |list| <= fetch
      invariant Take(target, fetch) == Take(list + UpFrom(seen, where, bound, index, last + 1), fetch)
    {
      UpStep(seen, where, bound, index, last + 1);
      TakeStep(list, Filter(TableAt(seen, index), where, bound), UpFrom(seen, where, bound, index + 1, last + 1), fetch);
      if index > start {
        BoundInOtherTables(seen, where, span, count, cursor, index);
      }
      if sel.Checks(index) && index in db {
        list := list + Oldest(db[index], where, if index == start then bound else Any, fetch - |list|);
      } else {
        EmptyTable(where, bound);
        assert list + Take([], fetch - |list|) == list;
      }
      index := index + 1;
    }
    if index > last {
      EmptyUp(seen, where, bound, index, last + 1);
    }
    TakeFull(list, UpFrom(seen, where, bound, index, last + 1), fetch);
  }

  lemma EmptyUp(db: Database, where: Where, bound: Bound, n: nat, hi: nat)
    requires n >= hi
    ensures UpFrom(db, where, bound, n, hi) == []
  {
  }

  /** Cutting a fetch of one row too many to the page, and what the extra row says. */
  lemma Cut(rows: seq<Row>, limit: nat)
    ensures var list := Take(rows, limit + 1);
      Take(rows, limit) == (if |list| > limit then list[..limit] else list) && (|list| > limit <==> |rows| > limit)
  {
  }

  class Dao {
    var blocks: Database
    var events: Database
    var extrinsics: Database
    /** account_extrinsic_mapping: the tables an account has extrinsics in. */
    var mapping: map<string, seq<nat>>
    /** The best filled block. */
    var best: nat

    /** How many tables there are up to that of the best block. */
    function Count(): nat
      reads this
    {
      TableIndex(best) + 1
    }

    ghost predicate Valid()
      reads this
    {
      && WellSharded(blocks, SPLIT, Count())
      && WellSharded(events, SPAN, Count())
      && WellSharded(extrinsics, SPAN, Count())
    }

    function GetAccountExtrinsicMapping(account: string): seq<nat>
      reads this
    {
      if account in mapping then mapping[account] else []
    }

    /** The tables the extrinsic listing looks at. */
    function Chosen(fixedTableIndex: int, accountId: string): Selection
      reads this
    {
      Selection(fixedTableIndex, accountId, if accountId == "" then [] else GetAccountExtrinsicMapping(accountId))
    }

    /** Events and extrinsics: the bidirectional listing over the tables chosen by `sel`. */
    method ListCursor(db: Database, sel: Selection, where: Where, limit: nat, beforeId: nat, afterId: nat)
      returns (list: seq<Row>, hasPrev: bool, hasNext: bool)
      requires WellSharded(db, SPAN, Count())
      ensures Page(list, hasPrev, hasNext) == SinglePage(Whole(Visible(db, sel), Count()), where, limit, beforeId, afterId)
    {
      hide Filter, WellSharded;
      ghost var seen, count := Visible(db, sel), Count();
      VisibleSharded(db, sel, SPAN, count);
      ListingCovers(db, sel, where, beforeId, afterId, count);
      var fetch := limit + 1;
      var maxTableIndex := best / SPLIT;
      if afterId > 0 {
        maxTableIndex := TableOfId(afterId);
      }
      if sel.fixed >= 0 {
        maxTableIndex := sel.fixed;
      }
      if afterId > 0 {
        list := WalkDown(db, sel, where, Below(afterId), fetch, maxTableIndex);
        Cut(Reversed(Filter(Whole(seen, count), where, Below(afterId))), limit);
        hasNext := |list| > limit;
        if hasNext {
          list := list[..limit];
        }
        hasPrev := true;
      } else if beforeId > 0 {
        var startIdx := if sel.fixed >= 0 then sel.fixed else TableOfId(beforeId);
        list := WalkUp(db, sel, where, beforeId, fetch, startIdx, maxTableIndex, SPAN, count);
        Cut(Filter(Whole(seen, count), where, Above(beforeId)), limit);
        hasPrev := |list| > limit;
        if hasPrev {
          list := list[..limit];
        }
        list := SwapReverse(list);
        hasNext := true;
      } else {
        list := WalkDown(db, sel, where, Any, fetch, maxTableIndex);
        Cut(Reversed(Filter(Whole(seen, count), where, Any)), limit);
        hasNext := |list| > limit;
        if hasNext {
          list := list[..limit];
        }
        hasPrev := false;
      }
    }

    /** GetEventListCursor. */
    method GetEventListCursor(limit: nat, fixedTableIndex: int, beforeId: nat, afterId: nat, where: Where)
      returns (list: seq<Row>, hasPrev: bool, hasNext: bool)
      requires Valid()
      ensures Page(list, hasPrev, hasNext) ==
        SinglePage(Whole(Visible(events, Selection(fixedTableIndex, "", [])), Count()), where, limit, beforeId, afterId)
      ensures
        var all := if fixedTableIndex < 0 then Whole(events, Count()) else TableAt(events, fixedTableIndex);
        && Page(list, hasPrev, hasNext) == SinglePage(all, where, limit, beforeId, afterId)
        && IsPageOf(all, where, limit, beforeId, afterId, list, hasPrev, hasNext)
    {
      hide WellSharded, SinglePage, IsPageOf, Visible, Whole, Filter;
      WholeOrTable(events, fixedTableIndex, where, limit, beforeId, afterId, Count());
      list, hasPrev, hasNext := ListCursor(events, Selection(fixedTableIndex, "", []), where, limit, beforeId, afterId);
    }

    /** The row is in a table the extrinsic listing looks at: the fixed one if any, and one the account is indexed in. */
    ghost predicate IsSeen(fixedTableIndex: int, accountId: string, x: Row)
      reads this
    {
      exists t | t in extrinsics ::
        && x in extrinsics[t]
        && (fixedTableIndex < 0 || t == fixedTableIndex)
        && (accountId == "" || (accountId in mapping && t in mapping[accountId]))
    }

    /** GetExtrinsicListCursor. */
    method GetExtrinsicListCursor(limit: nat, fixedTableIndex: int, beforeId: nat, afterId: nat, accountId: string, where: Where)
      returns (list: seq<Row>, hasPrev: bool, hasNext: bool)
      requires Valid()
      ensures Page(list, hasPrev, hasNext) ==
        SinglePage(Whole(Visible(extrinsics, Chosen(fixedTableIndex, accountId)), Count()), where, limit, beforeId, afterId)
      ensures exists seen ::
        && (forall x :: x in seen <==> IsSeen(fixedTableIndex, accountId, x))
        && IsPageOf(seen, where, limit, beforeId, afterId, list, hasPrev, hasNext)
      ensures accountId == "" || (IndexComplete(extrinsics, mapping) && forall x | where(x) :: x.account == accountId) ==>
        var all := if fixedTableIndex < 0 then Whole(extrinsics, Count()) else TableAt(extrinsics, fixedTableIndex);
        && Page(list, hasPrev, hasNext) == SinglePage(all, where, limit, beforeId, afterId)
        && IsPageOf(all, where, limit, beforeId, afterId, list, hasPrev, hasNext)
    {
      hide WellSharded, SinglePage, IsPageOf, Visible, Whole, Filter, IndexComplete, IsSeen;
      ghost var seen := Whole(Visible(extrinsics, Chosen(fixedTableIndex, accountId)), Count());
      VisiblePage(extrinsics, Chosen(fixedTableIndex, accountId), where, limit, beforeId, afterId, Count());
      ChosenIsSeen(fixedTableIndex, accountId);
      WholeOrTable(extrinsics, fixedTableIndex, where, limit, beforeId, afterId, Count());
      if accountId != "" && IndexComplete(extrinsics, mapping) && forall x | where(x) :: x.account == accountId {
        IndexedListing(extrinsics, mapping, accountId, fixedTableIndex, where, limit, beforeId, afterId, Count());
      }
      list, hasPrev, hasNext := ListCursor(extrinsics, Chosen(fixedTableIndex, accountId), where, limit, beforeId, afterId);
    }

    lemma ChosenIsSeen(fixedTableIndex: int, accountId: string)
      requires Valid()
      ensures forall x ::
        x in Whole(Visible(extrinsics, Chosen(fixedTableIndex, accountId)), Count()) <==> IsSeen(fixedTableIndex, accountId, x)
    {
      hide WellSharded, Whole, Visible;
      var sel := Chosen(fixedTableIndex, accountId);
      VisibleRows(extrinsics, sel, Count());
      forall t
        ensures sel.Checks(t) <==>
          && (fixedTableIndex < 0 || t == fixedTableIndex)
          && (accountId == "" || (accountId in mapping && t in mapping[accountId]))
      {
      }
      forall x
        ensures InVisible(extrinsics, sel, x) <==> IsSeen(fixedTableIndex, accountId, x)
      {
      }
    }

    /** GetBlockListCursor: the cursor condition is put on the cursor's own table only, and the first page stops at a missing table. */
    method GetBlockListCursor(limit: nat, before: nat, after: nat)
      returns (list: seq<Row>, hasPrev: bool, hasNext: bool)
      requires Valid()
      ensures
        var lo := if after > 0 || before > 0 then 0 else RunStart(blocks, Count());
        && Page(list, hasPrev, hasNext) == SinglePage(Span(blocks, lo, Count()), EveryRow, limit, before, after)
        && IsPageOf(Span(blocks, lo, Count()), EveryRow, limit, before, after, list, hasPrev, hasNext)
    {
      hide Filter, WellSharded, IsPageOf;
      var fetch := limit + 1;
      var maxIdx := best / SPLIT;
      EverythingVisible(blocks);
      StretchIsPage(blocks, if after > 0 || before > 0 then 0 else RunStart(blocks, Count()), limit, before, after, Count());
      if after > 0 {
        list := BlocksBelow(after, fetch);
        Cut(Reversed(Filter(Whole(blocks, Count()), EveryRow, Below(after))), limit);
        hasNext := |list| > limit;
        if hasNext {
          list := list[..limit];
        }
        hasPrev := true;
      } else if before > 0 {
        BeforeCovers(blocks, EveryRow, SPLIT, before, Count());
        list := WalkUp(blocks, EVERYTHING, EveryRow, before, fetch, before / SPLIT, maxIdx, SPLIT, Count());
        Cut(Filter(Whole(blocks, Count()), EveryRow, Above(before)), limit);
        hasPrev := |list| > limit;
        if hasPrev {
          list := list[..limit];
        }
        list := SwapReverse(list);
        hasNext := true;
      } else {
        list := NewestBlocks(fetch);
        Cut(NewestOf(blocks, RunStart(blocks, Count()), Count()), limit);
        hasNext := |list| > limit;
        if hasNext {
          list := list[..limit];
        }
        hasPrev := false;
      }
    }

    /** The next-page walk over block tables. */
    method BlocksBelow(after: nat, fetch: nat) returns (list: seq<Row>)
      requires Valid()
      ensures list == Take(Reversed(Filter(Whole(blocks, Count()), EveryRow, Below(after))), fetch)
    {
      hide Filter, DownFrom, WellSharded;
      var startIdx := after / SPLIT;
      ghost var bound := Below(after);
      AfterCovers(blocks, EveryRow, SPLIT, after, Count());
      ghost var target := DownFrom(blocks, EveryRow, bound, startIdx + 1);
      assert target == Reversed(Filter(Whole(blocks, Count()), EveryRow, bound)) by { DownDefinition(blocks, EveryRow, bound, startIdx + 1); }
      list := [];
      assert [] + target == target;
      var idx: int := startIdx;
      while idx >= 0 && |list| < fetch
        invariant -1 <= idx <= startIdx && |list| <= fetch
        invariant Take(target, fetch) == Take(list + DownFrom(blocks, EveryRow, bound, idx + 1), fetch)
      {
        DownStep(blocks, EveryRow, bound, idx);
        TakeStep(list, Reversed(Filter(TableAt(blocks, idx), EveryRow, bound)), DownFrom(blocks, EveryRow, bound, idx), fetch);
        BoundInOtherTables(blocks, EveryRow, SPLIT, Count(), after, idx);
        if idx in blocks {
          list := list + Newest(blocks[idx], EveryRow, if idx == startIdx then Below(after) else Any, fetch - |list|);
        } else {
          EmptyTable(EveryRow, bound);
          assert list + Take([], fetch - |list|) == list;
        }
        idx := idx - 1;
      }
      if idx < 0 {
        EmptyDown(blocks, EveryRow, bound);
      }
      TakeFull(list, DownFrom(blocks, EveryRow, bound, idx + 1), fetch);
    }

    /** The first-page walk over block tables. */
    method NewestBlocks(fetch: nat) returns (list: seq<Row>)
      requires Valid() && fetch > 0
      ensures list == Take(NewestOf(blocks, RunStart(blocks, Count()), Count()), fetch)
    {
      hide Filter, NewestOf, WellSharded, RunStart;
      var idx: nat := best / SPLIT;
      list := [];
      ghost var lo := RunStart(blocks, Count());
      ghost var target := NewestOf(blocks, lo, Count());
      assert [] + target == target;
      while |list| < fetch
        invariant idx < Count() && |list| <= fetch
        invariant RunStart(blocks, idx + 1) == lo <= idx + 1
        invariant Take(target, fetch) == Take(list + NewestOf(blocks, lo, idx + 1), fetch)
        decreases idx
      {
        RunStep(blocks, idx);
        if idx !in blocks {
          TakeFull(list, [], fetch);
          return;
        }
        TakeStep(list, Reversed(Filter(TableAt(blocks, idx), EveryRow, Any)), NewestOf(blocks, lo, idx), fetch);
        list := list + Newest(blocks[idx], EveryRow, Any, fetch - |list|);
        if idx == 0 {
          RunBelow(blocks);
          TakeFull(list, [], fetch);
          return;
        }
        idx := idx - 1;
      }
      TakeFull(list, NewestOf(blocks, lo, idx + 1), fetch);
    }
  }

  /** The lowest table from which on every table below n exists. */
  function RunStart(db: Database, n: nat): (s: nat)
    ensures s <= n
    ensures forall i | s <= i < n :: i in db
    ensures s > 0 ==> s - 1 !in db
  {
    if n == 0 || n - 1 !in db then n else RunStart(db, n - 1)
  }

  /** The rows of the tables from lo up to n, newest first. */
  function NewestOf(db: Database, lo: nat, n: nat): seq<Row> {
    Reversed(Filter(Span(db, lo, n), EveryRow, Any))
  }

  lemma RunStep(db: Database, n: nat)
    ensures n !in db ==> RunStart(db, n + 1) == n + 1 && NewestOf(db, n + 1, n + 1) == []
    ensures n in db ==> RunStart(db, n + 1) == RunStart(db, n)
    ensures n in db ==>
      NewestOf(db, RunStart(db, n), n + 1) ==
      Reversed(Filter(TableAt(db, n), EveryRow, Any)) + NewestOf(db, RunStart(db, n), n)
  {
    var lo := RunStart(db, n);
    FilterConcat(Span(db, lo, n), TableAt(db, n), EveryRow, Any);
    ReversedConcat(Filter(Span(db, lo, n), EveryRow, Any), Filter(TableAt(db, n), EveryRow, Any));
  }

  lemma RunBelow(db: Database)
    ensures RunStart(db, 0) == 0 && NewestOf(db, 0, 0) == []
  {
  }

  /** All tables, or the fixed one, and the page of their rows. */
  lemma WholeOrTable(db: Database, fixed: int, where: Where, limit: nat, before: nat, after: nat, count: nat)
    requires WellSharded(db, SPAN, count)
    ensures
      var all := if fixed < 0 then Whole(db, count) else TableAt(db, fixed);
      var p := SinglePage(all, where, limit, before, after);
      && Whole(Visible(db, Selection(fixed, "", [])), count) == all
      && IsPageOf(all, where, limit, before, after, p.list, p.hasPrev, p.hasNext)
  {
    VisibleWhole(db, fixed, SPAN, count);
    SpanAscending(db, SPAN, count, 0, count);
    var all := if fixed < 0 then Whole(db, count) else TableAt(db, fixed);
    assert Ascending(all);
    hide WellSharded, Ascending, Span, Visible, SinglePage, IsPageOf;
    SinglePageIsPage(all, where, limit, before, after);
  }

  /** The row is in a table that is checked. */
  ghost predicate InVisible(db: Database, sel: Selection, x: Row) {
    exists t | t in db :: x in db[t] && sel.Checks(t)
  }

  lemma VisibleRows(db: Database, sel: Selection, count: nat)
    requires WellSharded(db, SPAN, count)
    ensures forall x :: x in Whole(Visible(db, sel), count) <==> InVisible(db, sel, x)
  {
    var seen := Visible(db, sel);
    forall x
      ensures x in Whole(seen, count) <==> InVisible(db, sel, x)
    {
      if x in Whole(seen, count) {
        SpanMember(seen, 0, count, x);
        var t :| 0 <= t < count && x in TableAt(seen, t);
        assert x in db[t] && sel.Checks(t);
      }
      if t :| t in db && x in db[t] && sel.Checks(t) {
        InSpan(seen, count, t, x);
      }
    }
  }

  lemma VisiblePage(db: Database, sel: Selection, where: Where, limit: nat, before: nat, after: nat, count: nat)
    requires WellSharded(db, SPAN, count)
    ensures
      var all := Whole(Visible(db, sel), count);
      var p := SinglePage(all, where, limit, before, after);
      IsPageOf(all, where, limit, before, after, p.list, p.hasPrev, p.hasNext)
  {
    VisibleSharded(db, sel, SPAN, count);
    SpanAscending(Visible(db, sel), SPAN, count, 0, count);
    hide WellSharded, Ascending, Span, Visible, SinglePage, IsPageOf;
    SinglePageIsPage(Whole(Visible(db, sel), count), where, limit, before, after);
  }

  lemma StretchIsPage(db: Database, lo: nat, limit: nat, before: nat, after: nat, count: nat)
    requires WellSharded(db, SPLIT, count)
    ensures
      var p := SinglePage(Span(db, lo, count), EveryRow, limit, before, after);
      IsPageOf(Span(db, lo, count), EveryRow, limit, before, after, p.list, p.hasPrev, p.hasNext)
  {
    SpanAscending(db, SPLIT, count, lo, count);
    hide WellSharded, Ascending, Span, SinglePage, IsPageOf;
    SinglePageIsPage(Span(db, lo, count), EveryRow, limit, before, after);
  }

  /** No condition. */
  predicate EveryRow(r: Row) {
    true
  }

  lemma DownDefinition(db: Database, where: Where, bound: Bound, n: nat)
    ensures DownFrom(db, where, bound, n) == Reversed(Filter(Span(db, 0, n), where, bound))
  {
  }

  /**
   The first block page, which stops at the first missing table, is that of the one unsplit table
   exactly when it is full before that table or no row is below it.
   */
  lemma FirstBlockPageExact(db: Database, limit: nat, count: nat)
    requires WellSharded(db, SPLIT, count)
    ensures
      var lo := RunStart(db, count);
      SinglePage(Span(db, lo, count), EveryRow, limit, 0, 0) == SinglePage(Whole(db, count), EveryRow, limit, 0, 0) <==>
      |Span(db, lo, count)| > limit || Span(db, 0, lo) == []
  {
    var lo := RunStart(db, count);
    SpanSplit(db, 0, lo, count);
    var below, run := Span(db, 0, lo), Span(db, lo, count);
    FilterEverything(below, EveryRow, Any);
    FilterEverything(run, EveryRow, Any);
    FilterEverything(below + run, EveryRow, Any);
    ReversedConcat(below, run);
    hide Span, RunStart, Filter, WellSharded;
    ShorterPage(Reversed(run), Reversed(below), limit);
  }

  /** The pages a reader meets from the first block page on, following the end cursor. */
  function BlockWalk(db: Database, limit: nat, count: nat): seq<seq<Row>>
    requires limit > 0 && WellSharded(db, SPLIT, count)
  {
    var first := SinglePage(Span(db, RunStart(db, count), count), EveryRow, limit, 0, 0);
    if !first.hasNext then [first.list]
    else
      SpanAscending(db, SPLIT, count, 0, count);
      [first.list] + Walk(Whole(db, count), EveryRow, limit, first.list[limit - 1].id)
  }

  /** When a page fits in the tables above the missing one, the reader walks the whole listing. */
  lemma LongBlockWalk(db: Database, limit: nat, count: nat)
    requires limit > 0 && WellSharded(db, SPLIT, count) && |Span(db, RunStart(db, count), count)| > limit
    ensures Ascending(Whole(db, count))
    ensures BlockWalk(db, limit, count) == Walk(Whole(db, count), EveryRow, limit, 0)
  {
    var lo := RunStart(db, count);
    SpanAscending(db, SPLIT, count, 0, count);
    FilterEverything(Span(db, lo, count), EveryRow, Any);
    FirstBlockPageExact(db, limit, count);
    FirstOfWalk(Whole(db, count), limit);
    hide Span, RunStart, Filter, WellSharded, Ascending, Walk;
  }

  /** When none does, the reader is shown one page with the rows of those tables. */
  lemma ShortBlockWalk(db: Database, limit: nat, count: nat)
    requires limit > 0 && WellSharded(db, SPLIT, count) && |Span(db, RunStart(db, count), count)| <= limit
    ensures BlockWalk(db, limit, count) == [Reversed(Span(db, RunStart(db, count), count))]
  {
    hide Span, RunStart, WellSharded, Filter;
    var run := Span(db, RunStart(db, count), count);
    FilterEverything(run, EveryRow, Any);
    assert Take(Reversed(run), limit) == Reversed(run);
  }

  lemma ConcatOne(page: seq<Row>)
    ensures Concat([page]) == page
  {
    assert [page][1..] == [];
  }

  lemma WholeListing(all: seq<Row>)
    ensures Listing(all, EveryRow) == Reversed(all)
  {
    FilterEverything(all, EveryRow, Any);
  }

  lemma LeftOutBelow(below: seq<Row>, run: seq<Row>)
    ensures Reversed(run) == Reversed(below + run) <==> below == []
  {
    if below == [] {
      assert below + run == run;
    } else {
      assert |Reversed(run)| < |Reversed(below + run)|;
    }
  }

  /** The reader is shown every block exactly when there is a next page before the missing table or no row is below it. */
  lemma BlockWalkExact(db: Database, limit: nat, count: nat)
    requires limit > 0 && WellSharded(db, SPLIT, count)
    ensures
      var lo := RunStart(db, count);
      Concat(BlockWalk(db, limit, count)) == Listing(Whole(db, count), EveryRow) <==>
      |Span(db, lo, count)| > limit || Span(db, 0, lo) == []
  {
    hide Span, RunStart, Filter, WellSharded, Ascending, Walk, BlockWalk, Concat, Listing;
    var lo := RunStart(db, count);
    if |Span(db, lo, count)| > limit {
      LongBlockWalk(db, limit, count);
      WalkVisitsAll(Whole(db, count), EveryRow, limit, 0);
      FromStart(Whole(db, count));
    } else {
      ShortBlockWalk(db, limit, count);
      ConcatOne(Reversed(Span(db, lo, count)));
      WholeListing(Whole(db, count));
      SpanSplit(db, 0, lo, count);
      LeftOutBelow(Span(db, 0, lo), Span(db, lo, count));
    }
  }

  lemma FromStart(all: seq<Row>)
    ensures Reversed(From(all, EveryRow, 0)) == Listing(all, EveryRow)
  {
  }

  lemma FirstOfWalk(all: seq<Row>, limit: nat)
    requires limit > 0 && Ascending(all)
    ensures
      var first := SinglePage(all, EveryRow, limit, 0, 0);
      first.hasNext ==> Walk(all, EveryRow, limit, 0) == [first.list] + Walk(all, EveryRow, limit, first.list[limit - 1].id)
  {
  }

  /** Leaving out the end of a list shows on a page unless the page is full before it. */
  lemma ShorterPage(a: seq<Row>, b: seq<Row>, n: nat)
    ensures Take(a, n) == Take(a + b, n) && (|a| > n <==> |a + b| > n) <==> |a| > n || b == []
  {
    if b == [] {
      assert a + b == a;
    } else if |a| <= n && |a + b| <= n {
      assert |Take(a + b, n)| > |Take(a, n)|;
    }
  }

  /** Each walk of a listing starts where it misses nothing. */
  lemma ListingCovers(db: Database, sel: Selection, where: Where, before: nat, after: nat, count: nat)
    requires WellSharded(db, SPAN, count)
    ensures var seen := Visible(db, sel);
      && (sel.fixed >= 0 ==> forall bound ::
            && Filter(Span(seen, 0, sel.fixed + 1), where, bound) == Filter(Whole(seen, count), where, bound)
            && Filter(Span(seen, sel.fixed, sel.fixed + 1), where, bound) == Filter(Whole(seen, count), where, bound))
      && Filter(Span(seen, 0, TableOfId(after) + 1), where, Below(after)) == Filter(Whole(seen, count), where, Below(after))
      && Filter(Span(seen, TableOfId(before), count), where, Above(before)) == Filter(Whole(seen, count), where, Above(before))
  {
    hide Filter, Span;
    var seen := Visible(db, sel);
    VisibleSharded(db, sel, SPAN, count);
    TableOfIdIsQuotient(after);
    TableOfIdIsQuotient(before);
    AfterCovers(seen, where, SPAN, after, count);
    BeforeCovers(seen, where, SPAN, before, count);
    if sel.fixed >= 0 {
      forall bound
        ensures Filter(Span(seen, 0, sel.fixed + 1), where, bound) == Filter(Whole(seen, count), where, bound)
        ensures Filter(Span(seen, sel.fixed, sel.fixed + 1), where, bound) == Filter(Whole(seen, count), where, bound)
      {
        FixedCovers(seen, where, bound, SPAN, sel.fixed, count);
      }
    }
  }
}
