/** The table walks: which tables a listing looks at and why a partial walk is enough. */
module Walks {
  import opened Sequences
  import opened Tables

  /** Which tables a listing looks at: a fixed one if not negative, and those an account is indexed in. */
  datatype Selection = Selection(fixed: int, account: string, tables: seq<nat>) {
    predicate Checks(index: nat) {
      (fixed >= 0 ==> index == fixed) && (account == "" || index in tables)
    }
  }

  const EVERYTHING := Selection(-1, "", [])

  /** The tables a listing looks at. */
  function Visible(db: Database, sel: Selection): Database {
    map s | s in db && sel.Checks(s) :: db[s]
  }

  lemma VisibleSharded(db: Database, sel: Selection, span: nat, count: nat)
    requires WellSharded(db, span, count)
    ensures WellSharded(Visible(db, sel), span, count)
  {
  }

  lemma EverythingVisible(db: Database)
    ensures Visible(db, EVERYTHING) == db
  {
  }

  /** Taking the rest of a fetch from the next table. */
  lemma TakeStep<T>(list: seq<T>, d: seq<T>, rest: seq<T>, fetch: nat)
    requires |list| <= fetch
    ensures Take(list + (d + rest), fetch) == Take(list + Take(d, fetch - |list|) + rest, fetch)
  {
    assert list + (d + rest) == list + d + rest;
  }

  lemma TakeFull<T>(list: seq<T>, rest: seq<T>, fetch: nat)
    requires |list| == fetch || rest == []
    requires |list| <= fetch
    ensures Take(list + rest, fetch) == list
  {
  }

  /** The rows below table n, newest first. */
  function DownFrom(db: Database, where: Where, bound: Bound, n: nat): seq<Row> {
    Reversed(Filter(Span(db, 0, n), where, bound))
  }

  lemma DownStep(db: Database, where: Where, bound: Bound, n: nat)
    ensures DownFrom(db, where, bound, n + 1) ==
            Reversed(Filter(TableAt(db, n), where, bound)) + DownFrom(db, where, bound, n)
  {
    FilterConcat(Span(db, 0, n), TableAt(db, n), where, bound);
    ReversedConcat(Filter(Span(db, 0, n), where, bound), Filter(TableAt(db, n), where, bound));
  }

  /** The rows from table n up to `hi`, oldest first. */
  function UpFrom(db: Database, where: Where, bound: Bound, n: nat, hi: nat): seq<Row> {
    Filter(Span(db, n, hi), where, bound)
  }

  lemma UpStep(db: Database, where: Where, bound: Bound, n: nat, hi: nat)
    requires n < hi
    ensures UpFrom(db, where, bound, n, hi) ==
            Filter(TableAt(db, n), where, bound) + UpFrom(db, where, bound, n + 1, hi)
  {
    SpanSplit(db, n, n + 1, hi);
    assert Span(db, n, n + 1) == TableAt(db, n);
    FilterConcat(TableAt(db, n), Span(db, n + 1, hi), where, bound);
  }

  /** Rows of later tables do not matter when the bound admits none of them. */
  lemma DownCovers(db: Database, where: Where, bound: Bound, span: nat, n: nat, count: nat)
    requires WellSharded(db, span, count)
    requires forall x | x in Span(db, n, count) :: !bound.Admits(x)
    ensures Filter(Span(db, 0, n), where, bound) == Filter(Whole(db, count), where, bound)
  {
    if n <= count {
      SpanSplit(db, 0, n, count);
      FilterConcat(Span(db, 0, n), Span(db, n, count), where, bound);
      FilterNone(Span(db, n, count), where, bound);
    } else {
      SpanBeyond(db, span, count, n);
    }
  }

  /** Nor do rows of earlier tables. */
  lemma UpCovers(db: Database, where: Where, bound: Bound, span: nat, n: nat, count: nat)
    requires WellSharded(db, span, count)
    requires forall x | x in Span(db, 0, if n <= count then n else count) :: !bound.Admits(x)
    ensures Filter(Span(db, n, count), where, bound) == Filter(Whole(db, count), where, bound)
  {
    if n <= count {
      SpanSplit(db, 0, n, count);
      FilterConcat(Span(db, 0, n), Span(db, n, count), where, bound);
      FilterNone(Span(db, 0, n), where, bound);
    } else {
      FilterNone(Span(db, 0, count), where, bound);
    }
  }

  /** Starting the walk down in the cursor's own table misses nothing. */
  lemma AfterCovers(db: Database, where: Where, span: nat, after: nat, count: nat)
    requires WellSharded(db, span, count)
    ensures Filter(Span(db, 0, after / span + 1), where, Below(after)) == Filter(Whole(db, count), where, Below(after))
  {
    var n := after / span + 1;
    SpanIds(db, span, count, n, count);
    forall x | x in Span(db, n, count)
      ensures !Below(after).Admits(x)
    {
      QuotientOrder(after, x.id, span);
    }
    DownCovers(db, where, Below(after), span, n, count);
  }

  lemma BeforeCovers(db: Database, where: Where, span: nat, before: nat, count: nat)
    requires WellSharded(db, span, count)
    ensures Filter(Span(db, before / span, count), where, Above(before)) == Filter(Whole(db, count), where, Above(before))
  {
    var n := before / span;
    var low := if n <= count then n else count;
    SpanIds(db, span, count, 0, low);
    forall x | x in Span(db, 0, low)
      ensures !Above(before).Admits(x)
    {
      QuotientOrder(x.id, before, span);
    }
    UpCovers(db, where, Above(before), span, n, count);
  }

  /** A stretch without tables is empty. */
  lemma {:induction false} SpanEmpty(db: Database, lo: nat, hi: nat)
    requires forall s | lo <= s < hi :: s !in db
    ensures Span(db, lo, hi) == []
    decreases hi
  {
    if lo < hi {
      SpanEmpty(db, lo, hi - 1);
    }
  }

  /** With one fixed table, looking at it alone is enough. */
  lemma FixedCovers(db: Database, where: Where, bound: Bound, span: nat, fixed: nat, count: nat)
    requires WellSharded(db, span, count)
    requires forall s | s in db :: s == fixed
    ensures Filter(Span(db, 0, fixed + 1), where, bound) == Filter(Whole(db, count), where, bound)
    ensures Filter(Span(db, fixed, fixed + 1), where, bound) == Filter(Whole(db, count), where, bound)
  {
    SpanEmpty(db, fixed + 1, count);
    SpanEmpty(db, 0, fixed);
    DownCovers(db, where, bound, span, fixed + 1, count);
    SpanSplit(db, 0, fixed, fixed + 1);
    assert Span(db, 0, fixed + 1) == Span(db, fixed, fixed + 1);
  }

  /** Only the cursor's own table needs the condition; every other table on the way meets it. */
  lemma BoundInOtherTables(db: Database, where: Where, span: nat, count: nat, cursor: nat, s: nat)
    requires WellSharded(db, span, count)
    ensures s < cursor / span ==> Filter(TableAt(db, s), where, Any) == Filter(TableAt(db, s), where, Below(cursor))
    ensures s > cursor / span ==> Filter(TableAt(db, s), where, Any) == Filter(TableAt(db, s), where, Above(cursor))
  {
    forall x | x in TableAt(db, s)
      ensures s < cursor / span ==> x.id < cursor
      ensures s > cursor / span ==> x.id > cursor
    {
      assert x in db[s];
      if s < cursor / span {
        QuotientOrder(x.id, cursor, span);
      } else if s > cursor / span {
        QuotientOrder(cursor, x.id, span);
      }
    }
    if s < cursor / span {
      FilterAgree(TableAt(db, s), where, Any, where, Below(cursor));
    } else if s > cursor / span {
      FilterAgree(TableAt(db, s), where, Any, where, Above(cursor));
    }
  }
}
