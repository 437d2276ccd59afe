/** Rows split over numbered tables, and the single table they stand for. */
module Tables {
  import Radix

  /** `id` is the column a listing is ordered by: the block number of a block, the packed id of an event or extrinsic. */
  datatype Row = Row(id: nat, blockNum: nat, account: string, body: string)

  /** The stored tables by number, each in ascending id order. */
  type Database = map<nat, seq<Row>>

  type Where = Row -> bool

  /** The cursor condition of a query. */
  datatype Bound = Any | Below(id: nat) | Above(id: nat) {
    predicate Admits(r: Row) {
      match this
      case Any => true
      case Below(id) => r.id < id
      case Above(id) => r.id > id
    }
  }

  predicate Ascending(rows: seq<Row>) {
    forall i, j | 0 <= i < j < |rows| :: rows[i].id < rows[j].id
  }

  /** Every row is in the table its id belongs to, and no row is in table `count` or later. */
  predicate WellSharded(db: Database, span: nat, count: nat) {
    && span > 0
    && (forall s | s in db :: Ascending(db[s]) && (db[s] != [] ==> s < count))
    && (forall s, i | s in db && 0 <= i < |db[s]| :: db[s][i].id / span == s)
  }

  /** A table, empty when it does not exist. */
  function TableAt(db: Database, s: nat): seq<Row> {
    if s in db then db[s] else []
  }

  /** The rows of the tables from `lo` up to and not including `hi`, in ascending order. */
  function Span(db: Database, lo: nat, hi: nat): seq<Row>
    decreases hi
  {
    if hi <= lo then [] else Span(db, lo, hi - 1) + TableAt(db, hi - 1)
  }

  /** SELECT ... WHERE, in id order. */
  function Filter(rows: seq<Row>, where: Where, bound: Bound): (r: seq<Row>)
    ensures |r| <= |rows|
    ensures forall x | x in r :: x in rows && where(x) && bound.Admits(x)
  {
    if rows == [] then []
    else
      var last := rows[|rows| - 1];
      var before := Filter(rows[..|rows| - 1], where, bound);
      if where(last) && bound.Admits(last) then before + [last] else before
  }

  lemma SplitLast(a: seq<Row>, b: seq<Row>)
    requires b != []
    ensures var front, last := b[..|b| - 1], b[|b| - 1];
      b == front + [last] && a + b == (a + front) + [last]
  {
  }

  lemma FilterSnoc(rows: seq<Row>, x: Row, where: Where, bound: Bound)
    ensures Filter(rows + [x], where, bound) ==
            Filter(rows, where, bound) + if where(x) && bound.Admits(x) then [x] else []
  {
    assert (rows + [x])[..|rows|] == rows;
  }

  lemma Regroup(a: seq<Row>, b: seq<Row>, c: seq<Row>)
    ensures (a + b) + c == a + (b + c)
  {
  }

  lemma {:induction false} FilterConcat(a: seq<Row>, b: seq<Row>, where: Where, bound: Bound)
    ensures Filter(a + b, where, bound) == Filter(a, where, bound) + Filter(b, where, bound)
  {
    if b == [] {
      assert a + b == a;
    } else {
      hide Filter;
      var front, x := b[..|b| - 1], b[|b| - 1];
      SplitLast(a, b);
      FilterConcat(a, front, where, bound);
      FilterSnoc(front, x, where, bound);
      FilterSnoc(a + front, x, where, bound);
      Regroup(Filter(a, where, bound), Filter(front, where, bound), if where(x) && bound.Admits(x) then [x] else []);
    }
  }

  lemma {:induction false} FilterComplete(rows: seq<Row>, where: Where, bound: Bound, x: Row)
    requires x in rows && where(x) && bound.Admits(x)
    ensures x in Filter(rows, where, bound)
  {
    var last := |rows| - 1;
    if x != rows[last] {
      assert x in rows[..last];
      FilterComplete(rows[..last], where, bound, x);
    }
  }

  /** Two queries that agree on every row select the same rows. */
  lemma {:induction false} FilterAgree(rows: seq<Row>, w1: Where, b1: Bound, w2: Where, b2: Bound)
    requires forall x | x in rows :: (w1(x) && b1.Admits(x)) <==> (w2(x) && b2.Admits(x))
    ensures Filter(rows, w1, b1) == Filter(rows, w2, b2)
  {
    if rows != [] {
      FilterAgree(rows[..|rows| - 1], w1, b1, w2, b2);
    }
  }

  lemma {:induction false} FilterNone(rows: seq<Row>, where: Where, bound: Bound)
    requires forall x | x in rows :: !(where(x) && bound.Admits(x))
    ensures Filter(rows, where, bound) == []
  {
    if rows != [] {
      FilterNone(rows[..|rows| - 1], where, bound);
    }
  }

  lemma {:induction false} FilterAscending(rows: seq<Row>, where: Where, bound: Bound)
    requires Ascending(rows)
    ensures Ascending(Filter(rows, where, bound))
  {
    if rows != [] {
      var front, last := rows[..|rows| - 1], rows[|rows| - 1];
      FilterAscending(front, where, bound);
      forall x | x in Filter(front, where, bound)
        ensures x.id < last.id
      {
        assert x in front;
      }
    }
  }

  /** Filtering by a bound what already satisfies the condition. */
  lemma {:induction false} FilterTwice(rows: seq<Row>, where: Where, bound: Bound)
    ensures Filter(Filter(rows, where, Any), where, bound) == Filter(rows, where, bound)
  {
    if rows != [] {
      var last := rows[|rows| - 1];
      var front := rows[..|rows| - 1];
      FilterTwice(front, where, bound);
      if where(last) {
        FilterConcat(Filter(front, where, Any), [last], where, bound);
        assert [last][..0] == [];
      }
    }
  }

  /** Where a row of a span is stored. */
  lemma {:induction false} SpanMember(db: Database, lo: nat, hi: nat, x: Row)
    requires x in Span(db, lo, hi)
    ensures exists s | lo <= s < hi :: x in TableAt(db, s)
    decreases hi
  {
    if x !in TableAt(db, hi - 1) {
      SpanMember(db, lo, hi - 1, x);
    }
  }

  /** Ids in a span lie within its tables. */
  lemma SpanIds(db: Database, span: nat, count: nat, lo: nat, hi: nat)
    requires WellSharded(db, span, count)
    ensures forall x | x in Span(db, lo, hi) :: lo <= x.id / span < hi
  {
    forall x | x in Span(db, lo, hi)
      ensures lo <= x.id / span < hi
    {
      SpanMember(db, lo, hi, x);
      var s :| lo <= s < hi && x in TableAt(db, s);
      assert x in db[s];
    }
  }

  lemma QuotientOrder(a: nat, b: nat, span: nat)
    requires span > 0 && a / span < b / span
    ensures a < b
  {
    var qa, qb := a / span, b / span;
    assert a == qa * span + a % span;
    assert b == qb * span + b % span;
    Radix.MulMono(qa + 1, qb, span);
  }

  lemma {:induction false} SpanAscending(db: Database, span: nat, count: nat, lo: nat, hi: nat)
    requires WellSharded(db, span, count)
    ensures Ascending(Span(db, lo, hi))
    decreases hi
  {
    if hi > lo {
      var front, last := Span(db, lo, hi - 1), TableAt(db, hi - 1);
      SpanAscending(db, span, count, lo, hi - 1);
      SpanIds(db, span, count, lo, hi - 1);
      forall i, j | 0 <= i < |front| && 0 <= j < |last|
        ensures front[i].id < last[j].id
      {
        assert front[i] in front;
        QuotientOrder(front[i].id, last[j].id, span);
      }
    }
  }

  lemma {:induction false} SpanSplit(db: Database, lo: nat, mid: nat, hi: nat)
    requires lo <= mid <= hi
    ensures Span(db, lo, hi) == Span(db, lo, mid) + Span(db, mid, hi)
    decreases hi
  {
    if mid < hi {
      SpanSplit(db, lo, mid, hi - 1);
    }
  }

  /** Tables at or beyond `count` hold nothing. */
  lemma {:induction false} SpanBeyond(db: Database, span: nat, count: nat, hi: nat)
    requires WellSharded(db, span, count) && count <= hi
    ensures Span(db, 0, hi) == Span(db, 0, count)
    decreases hi
  {
    if count < hi {
      SpanBeyond(db, span, count, hi - 1);
    }
  }

  /** The one table that the split tables stand for. */
  function Whole(db: Database, count: nat): seq<Row> {
    Span(db, 0, count)
  }
}
