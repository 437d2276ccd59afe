/** Cursor pages over one table, and what walking them visits. */
module Pages {
  import opened Sequences
  import opened Tables

  datatype Page = Page(list: seq<Row>, hasPrev: bool, hasNext: bool)

  /** The page a single table gives: newest first, `after` below a cursor, `before` above one. */
  function SinglePage(all: seq<Row>, where: Where, limit: nat, before: nat, after: nat): Page {
    if after > 0 then
      var rows := Filter(all, where, Below(after));
      Page(Take(Reversed(rows), limit), true, |rows| > limit)
    else if before > 0 then
      var rows := Filter(all, where, Above(before));
      Page(Reversed(Take(rows, limit)), |rows| > limit, true)
    else
      var rows := Filter(all, where, Any);
      Page(Take(Reversed(rows), limit), false, |rows| > limit)
  }

  /** The whole listing: every matching row, newest first. */
  function Listing(all: seq<Row>, where: Where): seq<Row> {
    Reversed(Filter(all, where, Any))
  }

  lemma {:induction false} FilterBelowPrefix(m: seq<Row>, where: Where, k: nat)
    requires Ascending(m) && k < |m| && forall x | x in m :: where(x)
    ensures Filter(m, where, Below(m[k].id)) == m[..k]
  {
    FilterConcat(m[..k], m[k..], where, Below(m[k].id));
    assert m == m[..k] + m[k..];
    forall x | x in m[k..]
      ensures x.id >= m[k].id
    {
      var i :| 0 <= i < |m[k..]| && m[k..][i] == x;
      assert x == m[k + i];
    }
    FilterNone(m[k..], where, Below(m[k].id));
    FilterEverything(m[..k], where, Below(m[k].id));
  }

  lemma {:induction false} FilterEverything(rows: seq<Row>, where: Where, bound: Bound)
    requires forall x | x in rows :: where(x) && bound.Admits(x)
    ensures Filter(rows, where, bound) == rows
  {
    if rows != [] {
      var front, last := rows[..|rows| - 1], rows[|rows| - 1];
      assert rows == front + [last] && last in rows;
      FilterEverything(front, where, bound);
    }
  }

  lemma {:induction false} FilterAboveSuffix(m: seq<Row>, where: Where, k: nat)
    requires Ascending(m) && k < |m| && forall x | x in m :: where(x)
    ensures Filter(m, where, Above(m[k].id)) == m[k + 1..]
  {
    hide Filter;
    FilterConcat(m[..k + 1], m[k + 1..], where, Above(m[k].id));
    assert m == m[..k + 1] + m[k + 1..];
    FilterNone(m[..k + 1], where, Above(m[k].id));
    forall x | x in m[k + 1..]
      ensures x in m && x.id > m[k].id
    {
      var i :| 0 <= i < |m[k + 1..]| && m[k + 1..][i] == x;
      assert x == m[k + 1 + i];
    }
    FilterEverything(m[k + 1..], where, Above(m[k].id));
  }

  /** After the row at position j of the listing come the rows behind it. */
  lemma AfterRow(all: seq<Row>, where: Where, j: nat)
    requires Ascending(all) && j < |Listing(all, where)|
    ensures Reversed(Filter(all, where, Below(Listing(all, where)[j].id))) == Listing(all, where)[j + 1..]
  {
    var m := Filter(all, where, Any);
    var k := |m| - 1 - j;
    FilterAscending(all, where, Any);
    FilterTwice(all, where, Below(m[k].id));
    FilterBelowPrefix(m, where, k);
    ReversedTake(m, k);
  }

  /** Before it come the rows in front of it, in ascending order. */
  lemma BeforeRow(all: seq<Row>, where: Where, j: nat)
    requires Ascending(all) && j < |Listing(all, where)|
    ensures Filter(all, where, Above(Listing(all, where)[j].id)) == Reversed(Listing(all, where)[..j])
  {
    var m := Filter(all, where, Any);
    var k := |m| - 1 - j;
    FilterAscending(all, where, Any);
    FilterTwice(all, where, Above(m[k].id));
    FilterAboveSuffix(m, where, k);
    ReversedTake(m, k + 1);
    ReversedTwice(m[k + 1..]);
  }

  /** Positions of a listing fall in id, so it holds each row once. */
  lemma ListingDescends(all: seq<Row>, where: Where)
    requires Ascending(all)
    ensures forall i, j | 0 <= i < j < |Listing(all, where)| :: Listing(all, where)[i].id > Listing(all, where)[j].id
    ensures forall x :: x in Listing(all, where) <==> x in all && where(x)
  {
    FilterAscending(all, where, Any);
    var m := Filter(all, where, Any);
    forall x | x in all && where(x)
      ensures x in Listing(all, where)
    {
      FilterComplete(all, where, Any, x);
      var i :| 0 <= i < |m| && m[i] == x;
      assert Listing(all, where)[|m| - 1 - i] == x;
    }
  }

  /** What is still to be listed at a cursor; 0 is no cursor. */
  function From(all: seq<Row>, where: Where, after: nat): seq<Row> {
    Filter(all, where, if after > 0 then Below(after) else Any)
  }

  /** Every cursor, of a row or not, marks a position of the listing. */
  lemma {:induction false} BelowIsPrefix(m: seq<Row>, where: Where, c: nat) returns (k: nat)
    requires Ascending(m) && forall x | x in m :: where(x)
    ensures k <= |m| && Filter(m, where, Below(c)) == m[..k]
  {
    if m == [] {
      k := 0;
    } else {
      var front, last := m[..|m| - 1], m[|m| - 1];
      if last.id < c {
        k := |m|;
        FilterEverything(m, where, Below(c));
      } else {
        k := BelowIsPrefix(front, where, c);
      }
    }
  }

  lemma CursorPosition(all: seq<Row>, where: Where, after: nat) returns (a: nat)
    requires Ascending(all)
    ensures a <= |Listing(all, where)| && Reversed(From(all, where, after)) == Listing(all, where)[a..]
    ensures after == 0 ==> a == 0
  {
    var m := Filter(all, where, Any);
    if after == 0 {
      a := 0;
    } else {
      FilterAscending(all, where, Any);
      FilterTwice(all, where, Below(after));
      var k := BelowIsPrefix(m, where, after);
      a := |m| - k;
      ReversedTake(m, k);
    }
  }

  lemma CutTwice(listing: seq<Row>, a: nat, n: nat)
    requires a + n <= |listing|
    ensures Take(listing[a..], n) == listing[a..a + n]
    ensures listing[a..] == listing[a..a + n] + listing[a + n..]
  {
  }

  /** A forward page is the front of what remains at its cursor. */
  lemma PageFrom(all: seq<Row>, where: Where, limit: nat, after: nat)
    ensures SinglePage(all, where, limit, 0, after).list == Take(Reversed(From(all, where, after)), limit)
    ensures SinglePage(all, where, limit, 0, after).hasNext <==> |Reversed(From(all, where, after))| > limit
  {
    hide Filter;
  }

  /** Before the last position of a listing the ids are positive. */
  lemma PositiveAhead(all: seq<Row>, where: Where, j: nat)
    requires Ascending(all) && j + 1 < |Listing(all, where)|
    ensures Listing(all, where)[j].id > 0
  {
    hide Listing;
    ListingDescends(all, where);
    assert Listing(all, where)[j].id > Listing(all, where)[j + 1].id;
  }

  /** Where in the listing a page with a next one lies. */
  lemma PagePosition(all: seq<Row>, where: Where, limit: nat, after: nat) returns (a: nat)
    requires limit > 0 && Ascending(all)
    requires SinglePage(all, where, limit, 0, after).hasNext
    ensures var listing := Listing(all, where);
      && a + limit < |listing|
      && Reversed(From(all, where, after)) == listing[a..]
      && SinglePage(all, where, limit, 0, after).list == listing[a..a + limit]
  {
    hide Filter, Listing, Reversed, Take, SinglePage, Ascending, From;
    a := CursorPosition(all, where, after);
    PageFrom(all, where, limit, after);
    CutTwice(Listing(all, where), a, limit);
  }

  lemma FromCursor(all: seq<Row>, where: Where, after: nat)
    requires after > 0
    ensures From(all, where, after) == Filter(all, where, Below(after))
  {
    hide Filter;
  }

  /** A page with a next one is full, and the rows after its end cursor are what remains. */
  lemma NextPage(all: seq<Row>, where: Where, limit: nat, after: nat)
    requires limit > 0 && Ascending(all)
    requires SinglePage(all, where, limit, 0, after).hasNext
    ensures var list := SinglePage(all, where, limit, 0, after).list;
      && |list| == limit
      && list[limit - 1].id > 0
      && Reversed(From(all, where, after)) == list + Reversed(From(all, where, list[limit - 1].id))
  {
    hide Filter, Listing, Reversed, Take, SinglePage, Ascending, From;
    var listing := Listing(all, where);
    var a := PagePosition(all, where, limit, after);
    var end := a + limit - 1;
    AfterRow(all, where, end);
    PositiveAhead(all, where, end);
    FromCursor(all, where, listing[end].id);
    CutTwice(listing, a, limit);
  }

  /** The pages met by following the end cursor while there is a next page. */
  function Walk(all: seq<Row>, where: Where, limit: nat, after: nat): (pages: seq<seq<Row>>)
    requires limit > 0 && Ascending(all)
    decreases |From(all, where, after)|
  {
    var page := SinglePage(all, where, limit, 0, after);
    if !page.hasNext then [page.list]
    else
      NextPage(all, where, limit, after);
      [page.list] + Walk(all, where, limit, page.list[limit - 1].id)
  }

  function Concat(pages: seq<seq<Row>>): seq<Row> {
    if pages == [] then [] else pages[0] + Concat(pages[1..])
  }

  /** Walking visits exactly what remains at the cursor; from the first page, the whole listing. */
  lemma {:induction false} WalkVisitsAll(all: seq<Row>, where: Where, limit: nat, after: nat)
    requires limit > 0 && Ascending(all)
    ensures Concat(Walk(all, where, limit, after)) == Reversed(From(all, where, after))
    decreases |From(all, where, after)|
  {
    var page := SinglePage(all, where, limit, 0, after);
    var pages := Walk(all, where, limit, after);
    if page.hasNext {
      NextPage(all, where, limit, after);
      WalkVisitsAll(all, where, limit, page.list[limit - 1].id);
      assert pages[1..] == Walk(all, where, limit, page.list[limit - 1].id);
    } else {
      assert pages[1..] == [];
    }
  }

  /** The page before the row at position j: the rows just in front of it. */
  lemma BackPage(all: seq<Row>, where: Where, limit: nat, j: nat)
    requires Ascending(all) && j < |Listing(all, where)| && Listing(all, where)[j].id > 0
    ensures var listing := Listing(all, where);
      SinglePage(all, where, limit, listing[j].id, 0) ==
        Page(listing[if j > limit then j - limit else 0..j], j > limit, true)
  {
    hide Filter, Ascending, Listing, Reversed, Take;
    BeforeRow(all, where, j);
    LastOnes(Listing(all, where)[..j], limit);
  }

  /** A page with a next one, and the next one, by their positions in the listing. */
  lemma ForwardPages(all: seq<Row>, where: Where, limit: nat, after: nat) returns (a: nat)
    requires limit > 0 && Ascending(all)
    requires SinglePage(all, where, limit, 0, after).hasNext
    ensures var listing := Listing(all, where);
      && a + limit < |listing|
      && listing[a + limit - 1].id > 0
      && SinglePage(all, where, limit, 0, after).list == listing[a..a + limit]
      && SinglePage(all, where, limit, 0, listing[a + limit - 1].id).list == Take(listing[a + limit..], limit)
  {
    hide Filter, Ascending, Reversed, Listing, Take, SinglePage, From;
    var listing := Listing(all, where);
    a := PagePosition(all, where, limit, after);
    PositiveAhead(all, where, a + limit - 1);
    AfterRow(all, where, a + limit - 1);
    PageAfter(all, where, limit, listing[a + limit - 1].id);
  }

  lemma PageAfter(all: seq<Row>, where: Where, limit: nat, after: nat)
    requires after > 0
    ensures SinglePage(all, where, limit, 0, after).list == Take(Reversed(Filter(all, where, Below(after))), limit)
  {
    hide Filter;
  }

  /**
   Paging forward and back: if Q follows the page P, the page before Q's start cursor is P exactly
   when that cursor is positive or nothing is newer than P, since 0 is read as no cursor.
   */
  lemma BackUndoesForward(all: seq<Row>, where: Where, limit: nat, after: nat)
    requires limit > 0 && Ascending(all)
    requires SinglePage(all, where, limit, 0, after).hasNext
    ensures var p := SinglePage(all, where, limit, 0, after).list;
      |p| == limit &&
      var q := SinglePage(all, where, limit, 0, p[limit - 1].id).list;
      q != [] &&
      var back := SinglePage(all, where, limit, q[0].id, 0);
      && (back.list == p <==> q[0].id > 0 || Filter(all, where, Above(p[0].id)) == [])
      && (q[0].id > 0 ==> back.hasNext && (back.hasPrev <==> Filter(all, where, Above(p[0].id)) != []))
  {
    hide Filter, Ascending, Listing, Reversed, Take;
    var listing := Listing(all, where);
    var a := ForwardPages(all, where, limit, after);
    NewerThan(all, where, a);
    if listing[a + limit].id > 0 {
      BackPage(all, where, limit, a + limit);
    } else {
      FirstPageElsewhere(all, where, limit, a);
    }
  }

  lemma NewerThan(all: seq<Row>, where: Where, a: nat)
    requires Ascending(all) && a < |Listing(all, where)|
    ensures Filter(all, where, Above(Listing(all, where)[a].id)) == [] <==> a == 0
  {
    hide Filter, Ascending, Listing;
    BeforeRow(all, where, a);
    assert |Reversed(Listing(all, where)[..a])| == a;
  }

  /** A stretch of the listing is the first page only at its very front. */
  lemma FirstPageElsewhere(all: seq<Row>, where: Where, limit: nat, a: nat)
    requires limit > 0 && Ascending(all) && a + limit <= |Listing(all, where)|
    ensures SinglePage(all, where, limit, 0, 0).list == Listing(all, where)[a..a + limit] <==> a == 0
  {
    hide Filter;
    ListingDescends(all, where);
    var listing := Listing(all, where);
    if a > 0 {
      assert Take(listing, limit)[0] == listing[0] && listing[a..a + limit][0] == listing[a];
      assert listing[0].id > listing[a].id;
    }
  }

  /** A row a page with these cursors may show. */
  ghost predicate Eligible(stored: seq<Row>, where: Where, before: nat, after: nat, x: Row) {
    && x in stored && where(x)
    && (after > 0 ==> x.id < after)
    && (after == 0 && before > 0 ==> x.id > before)
  }

  /**
   What a page is: eligible rows, newest first and at most `limit`. A row left out is behind all shown
   ones, or in front of them when paging back, and then the page is full. The flag on that side says
   whether a row was left out; the other one only whether there is a cursor.
   */
  ghost predicate IsPageOf(stored: seq<Row>, where: Where, limit: nat, before: nat, after: nat,
                           list: seq<Row>, hasPrev: bool, hasNext: bool) {
    && |list| <= limit
    && (forall i, j | 0 <= i < j < |list| :: list[i].id > list[j].id)
    && (forall x | x in list :: Eligible(stored, where, before, after, x))
    && var back := after == 0 && before > 0;
       var more := if back then hasPrev else hasNext;
    && (if back then hasNext else hasPrev == (after > 0))
    && (more <==> exists x :: Eligible(stored, where, before, after, x) && x !in list)
    && (more ==> |list| == limit)
    && (forall x, y | Eligible(stored, where, before, after, x) && x !in list && y in list ::
          if back then x.id > y.id else x.id < y.id)
  }

  lemma InReversed(s: seq<Row>)
    ensures forall x :: x in Reversed(s) <==> x in s
  {
    forall x | x in s
      ensures x in Reversed(s)
    {
      var i :| 0 <= i < |s| && s[i] == x;
      assert Reversed(s)[|s| - 1 - i] == x;
    }
  }

  lemma SplitMembers(rows: seq<Row>, k: nat)
    requires k <= |rows|
    ensures forall x :: x in rows <==> x in rows[..k] || x in rows[k..]
  {
    assert rows == rows[..k] + rows[k..];
  }

  lemma SplitOrder(rows: seq<Row>, k: nat)
    requires Ascending(rows) && k <= |rows|
    ensures forall x, y | x in rows[..k] && y in rows[k..] :: x.id < y.id
  {
    forall x, y | x in rows[..k] && y in rows[k..]
      ensures x.id < y.id
    {
      var i :| 0 <= i < k && rows[..k][i] == x;
      var j :| 0 <= j < |rows| - k && rows[k..][j] == y;
      assert rows[i] == x && rows[k + j] == y;
    }
  }

  lemma ReversedDescends(rows: seq<Row>)
    requires Ascending(rows)
    ensures forall i, j | 0 <= i < j < |rows| :: Reversed(rows)[i].id > Reversed(rows)[j].id
  {
  }

  /** The rows on one side of a cut, newest first, and the rows on the other side. */
  lemma CutRows(rows: seq<Row>, k: nat)
    requires Ascending(rows) && k <= |rows|
    ensures Ascending(rows[..k]) && Ascending(rows[k..])
    ensures forall x :: x in rows && x !in rows[k..] <==> x in rows[..k]
    ensures forall x :: x in rows && x !in rows[..k] <==> x in rows[k..]
    ensures forall x, y | x in rows[..k] && y in rows[k..] :: x.id < y.id
  {
    SplitMembers(rows, k);
    SplitOrder(rows, k);
  }

  lemma SomeMember(s: seq<Row>)
    ensures (exists x :: x in s) <==> s != []
  {
    if s != [] {
      assert s[0] in s;
    }
  }

  /** The newest rows of an ascending list, and what they leave out. */
  lemma NewestRows(rows: seq<Row>, n: nat)
    requires Ascending(rows)
    ensures var list := Take(Reversed(rows), n);
      && (forall i, j | 0 <= i < j < |list| :: list[i].id > list[j].id)
      && (forall x | x in list :: x in rows)
      && (forall x, y | x in rows && x !in list && y in list :: x.id < y.id)
      && ((exists x :: x in rows && x !in list) <==> |rows| > n)
  {
    var k := if |rows| > n then |rows| - n else 0;
    LastOnes(rows, n);
    ReversedTwice(Take(Reversed(rows), n));
    CutRows(rows, k);
    InReversed(rows[k..]);
    ReversedDescends(rows[k..]);
    SomeMember(rows[..k]);
    hide Ascending, Reversed, Take;
    assert Take(Reversed(rows), n) == Reversed(rows[k..]);
    assert (exists x :: x in rows && x !in rows[k..]) <==> exists x :: x in rows[..k];
  }

  /** The oldest rows of an ascending list, turned round, and what they leave out. */
  lemma OldestRows(rows: seq<Row>, n: nat)
    requires Ascending(rows)
    ensures var list := Reversed(Take(rows, n));
      && (forall i, j | 0 <= i < j < |list| :: list[i].id > list[j].id)
      && (forall x | x in list :: x in rows)
      && (forall x, y | x in rows && x !in list && y in list :: x.id > y.id)
      && ((exists x :: x in rows && x !in list) <==> |rows| > n)
  {
    var k := if |rows| > n then n else |rows|;
    assert Take(rows, n) == rows[..k];
    CutRows(rows, k);
    InReversed(rows[..k]);
    ReversedDescends(rows[..k]);
    SomeMember(rows[k..]);
    hide Ascending, Reversed, Take;
    assert (exists x :: x in rows && x !in rows[..k]) <==> exists x :: x in rows[k..];
  }

  lemma FilterIsEligible(all: seq<Row>, where: Where, before: nat, after: nat, bound: Bound)
    requires bound == if after > 0 then Below(after) else if before > 0 then Above(before) else Any
    ensures forall x :: x in Filter(all, where, bound) <==> Eligible(all, where, before, after, x)
  {
    forall x | Eligible(all, where, before, after, x)
      ensures x in Filter(all, where, bound)
    {
      FilterComplete(all, where, bound, x);
    }
  }

  /** The page of one table is a page of its rows. */
  lemma SinglePageIsPage(all: seq<Row>, where: Where, limit: nat, before: nat, after: nat)
    requires Ascending(all)
    ensures var p := SinglePage(all, where, limit, before, after);
      IsPageOf(all, where, limit, before, after, p.list, p.hasPrev, p.hasNext)
  {
    var bound := if after > 0 then Below(after) else if before > 0 then Above(before) else Any;
    FilterIsEligible(all, where, before, after, bound);
    FilterAscending(all, where, bound);
    hide Filter, Ascending, Reversed, Take, Eligible;
    NewestRows(Filter(all, where, bound), limit);
    OldestRows(Filter(all, where, bound), limit);
  }
}
