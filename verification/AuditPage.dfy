/** The two-stream audit page: filter in place, sort, cut; and the walk along its cursors. */
module AuditPage {
  import opened Sequences
  import opened AuditOrder
  import opened Wrappers

  /** What a request asks for: one operation kind or all, and rows past a cursor or all. */
  datatype Query = Query(opKind: Option<nat>, cursor: Option<Position>)

  predicate Admits(q: Query, row: Row, asc: bool) {
    && (q.opKind == None || row.opKind == q.opKind.value)
    && (q.cursor == None || Precedes(q.cursor.value, row.position, asc))
  }

  function Where(s: seq<Row>, q: Query, asc: bool): (r: seq<Row>)
    ensures |r| <= |s|
  {
    if s == [] then []
    else Where(s[..|s| - 1], q, asc) + if Admits(q, s[|s| - 1], asc) then [s[|s| - 1]] else []
  }

  datatype Page = Page(rows: seq<Row>, next: Option<Position>)

  /** The first page of an ordered listing; a cursor when there is more. */
  function FirstPage(s: seq<Row>, limit: nat): Page {
    if |s| <= limit then Page(s, None)
    else Page(s[..limit], if limit == 0 then None else Some(s[limit - 1].position))
  }

  /** Every row of the two streams the query admits, in listing order. */
  function Union(v2: seq<Row>, current: seq<Row>, q: Query, asc: bool): seq<Row> {
    StableSort(Where(v2, q, asc) + Where(current, q, asc), asc)
  }

  /** The page a request returns: limit + 1 rows of each stream, filtered, sorted and cut. */
  function Request(v2: seq<Row>, current: seq<Row>, q: Query, asc: bool, limit: nat): Page {
    var fetched := Take(Where(v2, q, asc), limit + 1) + Take(Where(current, q, asc), limit + 1);
    FirstPage(StableSort(Where(fetched, Query(q.opKind, None), asc), asc), limit)
  }

  // Where

  lemma {:induction false} WhereConcat(a: seq<Row>, b: seq<Row>, q: Query, asc: bool)
    ensures Where(a + b, q, asc) == Where(a, q, asc) + Where(b, q, asc)
  {
    if b == [] {
      assert a + b == a;
    } else {
      var last := |b| - 1;
      WhereConcat(a, b[..last], q, asc);
      assert (a + b)[..|a| + last] == a + b[..last];
    }
  }

  lemma {:induction false} WhereAll(s: seq<Row>, q: Query, asc: bool)
    requires forall i | 0 <= i < |s| :: Admits(q, s[i], asc)
    ensures Where(s, q, asc) == s
  {
    if s != [] {
      WhereAll(s[..|s| - 1], q, asc);
    }
  }

  lemma {:induction false} WhereNone(s: seq<Row>, q: Query, asc: bool)
    requires forall i | 0 <= i < |s| :: !Admits(q, s[i], asc)
    ensures Where(s, q, asc) == []
  {
    if s != [] {
      WhereNone(s[..|s| - 1], q, asc);
    }
  }

  lemma {:induction false} WhereMembers(s: seq<Row>, q: Query, asc: bool)
    ensures forall row :: row in Where(s, q, asc) <==> row in s && Admits(q, row, asc)
  {
    if s != [] {
      WhereMembers(s[..|s| - 1], q, asc);
      assert s == s[..|s| - 1] + [s[|s| - 1]];
    }
  }

  lemma {:induction false} WhereSorted(s: seq<Row>, q: Query, asc: bool)
    requires Sorted(s, asc)
    ensures Sorted(Where(s, q, asc), asc)
  {
    if s != [] {
      var front, y := s[..|s| - 1], s[|s| - 1];
      WhereSorted(front, q, asc);
      var r := Where(front, q, asc);
      WhereMembers(front, q, asc);
      forall i | 0 <= i < |r|
        ensures !Before(y, r[i], asc)
      {
        assert r[i] in r;
      }
    }
  }

  lemma {:induction false} WhereAt(s: seq<Row>, q: Query, asc: bool, p: Position)
    ensures At(Where(s, q, asc), p) == Where(At(s, p), q, asc)
  {
    if s != [] {
      var front, y := s[..|s| - 1], s[|s| - 1];
      WhereAt(front, q, asc, p);
      var tail := if y.position == p then [y] else [];
      WhereConcat(At(front, p), tail, q, asc);
      AtConcat(Where(front, q, asc), if Admits(q, y, asc) then [y] else [], p);
      assert [y][..0] == [];
    }
  }

  /** Two filters in a row are the filter that asks both. */
  lemma {:induction false} WhereTwice(s: seq<Row>, first: Query, second: Query, both: Query, asc: bool)
    requires forall row :: Admits(both, row, asc) <==> Admits(first, row, asc) && Admits(second, row, asc)
    ensures Where(Where(s, first, asc), second, asc) == Where(s, both, asc)
  {
    if s != [] {
      var front, y := s[..|s| - 1], s[|s| - 1];
      WhereTwice(front, first, second, both, asc);
      WhereConcat(Where(front, first, asc), if Admits(first, y, asc) then [y] else [], second, asc);
      assert [y][..0] == [];
    }
  }

  // The page

  /**
   The request's page is the first page of everything the query admits: limit + 1 rows of each
   stream are enough for the rows and for the cursor.
   */
  lemma RequestIsFirstPage(v2: seq<Row>, current: seq<Row>, q: Query, asc: bool, limit: nat)
    requires Sorted(v2, asc) && Sorted(current, asc)
    ensures Request(v2, current, q, asc, limit) == FirstPage(Union(v2, current, q, asc), limit)
  {
    hide Sorted, StableSort, FirstPage, AgreeUpTo;
    var a, b, k := Where(v2, q, asc), Where(current, q, asc), limit + 1;
    WhereSorted(v2, q, asc);
    WhereSorted(current, q, asc);
    FetchedAllAdmitted(v2, current, q, asc, k);
    SortedTake(a, asc, k);
    SortedTake(b, asc, k);
    SortIsMerge(Take(a, k), Take(b, k), asc);
    SortIsMerge(a, b, asc);
    MergePrefix(a, b, asc, k, k, k);
    SameFirstPage(Merge(Take(a, k), Take(b, k), asc), Merge(a, b, asc), limit, |a|, |b|);
  }

  lemma FetchedAllAdmitted(v2: seq<Row>, current: seq<Row>, q: Query, asc: bool, k: nat)
    ensures
      var fetched := Take(Where(v2, q, asc), k) + Take(Where(current, q, asc), k);
      Where(fetched, Query(q.opKind, None), asc) == fetched
  {
    var a, b := Where(v2, q, asc), Where(current, q, asc);
    WhereMembers(v2, q, asc);
    WhereMembers(current, q, asc);
    var fetched := Take(a, k) + Take(b, k);
    forall i | 0 <= i < |fetched|
      ensures Admits(Query(q.opKind, None), fetched[i], asc)
    {
      if i < |Take(a, k)| {
        assert fetched[i] == a[i] && a[i] in a;
      } else {
        assert fetched[i] == b[i - |Take(a, k)|] && b[i - |Take(a, k)|] in b;
      }
    }
    WhereAll(fetched, Query(q.opKind, None), asc);
  }

  lemma SortedTake(s: seq<Row>, asc: bool, k: nat)
    requires Sorted(s, asc)
    ensures Sorted(Take(s, k), asc)
  {
  }

  lemma SameFirstPage(s: seq<Row>, t: seq<Row>, limit: nat, m: nat, n: nat)
    requires AgreeUpTo(s, t, limit + 1)
    requires |t| == m + n
    requires |s| == (if limit + 1 <= m then limit + 1 else m) + (if limit + 1 <= n then limit + 1 else n)
    ensures FirstPage(s, limit) == FirstPage(t, limit)
  {
    if |t| <= limit {
      assert s == Take(s, limit + 1) == Take(t, limit + 1) == t;
    } else {
      assert s[..limit] == Take(s, limit + 1)[..limit] == Take(t, limit + 1)[..limit] == t[..limit];
    }
  }

  /** The union holds every admitted row once, in stable order. */
  lemma UnionIsComplete(v2: seq<Row>, current: seq<Row>, q: Query, asc: bool)
    ensures IsStableSort(Union(v2, current, q, asc), Where(v2 + current, q, asc), asc)
    ensures multiset(Union(v2, current, q, asc)) == multiset(Where(v2 + current, q, asc))
  {
    WhereConcat(v2, current, q, asc);
    StableSortIsStable(Where(v2, q, asc) + Where(current, q, asc), asc);
  }

  // The walk

  /** Drops the rows at position p from the front. */
  function SkipTied(s: seq<Row>, p: Position): (r: seq<Row>)
    ensures |r| <= |s|
  {
    if s == [] || s[0].position != p then s else SkipTied(s[1..], p)
  }

  lemma {:induction false} SkippedAreBehind(s: seq<Row>, p: Position, asc: bool)
    requires Sorted(s, asc)
    requires forall i | 0 <= i < |s| :: !Precedes(s[i].position, p, asc)
    ensures Where(s, Query(None, Some(p)), asc) == SkipTied(s, p)
  {
    var q := Query(None, Some(p));
    if s != [] {
      if s[0].position == p {
        SkippedAreBehind(s[1..], p, asc);
        WhereConcat([s[0]], s[1..], q, asc);
        assert s == [s[0]] + s[1..] && [s[0]][..0] == [];
      } else {
        assert forall i | 0 <= i < |s| :: !Before(s[i], s[0], asc);
        WhereAll(s, q, asc);
      }
    }
  }

  /** Past the last row of a page come the rows after the page, without those at that row's own position. */
  lemma PastThePage(u: seq<Row>, asc: bool, limit: nat)
    requires Sorted(u, asc) && 0 < limit < |u|
    ensures Where(u, Query(None, Some(u[limit - 1].position)), asc) == SkipTied(u[limit..], u[limit - 1].position)
  {
    var p := u[limit - 1].position;
    var q := Query(None, Some(p));
    WhereConcat(u[..limit], u[limit..], q, asc);
    assert u == u[..limit] + u[limit..];
    SplitAtRow(u, asc, limit);
    hide Where, Sorted;
    WhereNone(u[..limit], q, asc);
    SkippedAreBehind(u[limit..], p, asc);
  }

  lemma SplitAtRow(u: seq<Row>, asc: bool, limit: nat)
    requires Sorted(u, asc) && 0 < limit < |u|
    ensures Sorted(u[limit..], asc)
    ensures forall i | 0 <= i < limit :: !Precedes(u[limit - 1].position, u[..limit][i].position, asc)
    ensures forall i | 0 <= i < |u| - limit :: !Precedes(u[limit..][i].position, u[limit - 1].position, asc)
  {
    forall i | 0 <= i < limit
      ensures !Precedes(u[limit - 1].position, u[..limit][i].position, asc)
    {
      assert i < limit - 1 ==> !Before(u[limit - 1], u[i], asc);
    }
    forall i | 0 <= i < |u| - limit
      ensures !Precedes(u[limit..][i].position, u[limit - 1].position, asc)
    {
      assert !Before(u[limit + i], u[limit - 1], asc);
    }
  }

  /** Moving the cursor on filters the union, since the new cursor is past the old one. */
  lemma UnionPast(v2: seq<Row>, current: seq<Row>, q: Query, asc: bool, p: Position)
    requires q.cursor == None || Precedes(q.cursor.value, p, asc)
    ensures Union(v2, current, q.(cursor := Some(p)), asc) == Where(Union(v2, current, q, asc), Query(None, Some(p)), asc)
  {
    var past, next := Query(None, Some(p)), q.(cursor := Some(p));
    var all, u := v2 + current, Union(v2, current, q, asc);
    UnionIsComplete(v2, current, q, asc);
    UnionIsComplete(v2, current, next, asc);
    WhereSorted(u, past, asc);
    hide Where, Union, At, Sorted;
    forall r
      ensures At(Where(u, past, asc), r) == At(Union(v2, current, next, asc), r)
    {
      PastAt(all, u, q, asc, p, r);
    }
    StableSortUnique(Union(v2, current, next, asc), Where(u, past, asc), asc);
  }

  lemma PastAt(all: seq<Row>, u: seq<Row>, q: Query, asc: bool, p: Position, r: Position)
    requires q.cursor == None || Precedes(q.cursor.value, p, asc)
    requires At(u, r) == At(Where(all, q, asc), r)
    ensures At(Where(u, Query(None, Some(p)), asc), r) == At(Where(all, q.(cursor := Some(p)), asc), r)
  {
    hide Where, At;
    WhereAt(u, Query(None, Some(p)), asc, r);
    WhereAt(Where(all, q, asc), Query(None, Some(p)), asc, r);
    WhereTwice(all, q, Query(None, Some(p)), q.(cursor := Some(p)), asc);
  }

  /** A walk over one ordered listing: page after page, each starting past the last row shown. */
  function WalkListing(u: seq<Row>, limit: nat): (r: seq<Row>)
    requires limit > 0
    ensures |r| <= |u|
    decreases |u|
  {
    if |u| <= limit then u
    else u[..limit] + WalkListing(SkipTied(u[limit..], u[limit - 1].position), limit)
  }

  /** A client's walk: requests that follow the next cursor until there is none. */
  function Walk(v2: seq<Row>, current: seq<Row>, q: Query, asc: bool, limit: nat): seq<Row>
    requires Sorted(v2, asc) && Sorted(current, asc) && limit > 0
    decreases |Union(v2, current, q, asc)|
  {
    var page := Request(v2, current, q, asc, limit);
    page.rows +
    if page.next == None then []
    else
      NextRequest(v2, current, q, asc, limit);
      Walk(v2, current, q.(cursor := page.next), asc, limit)
  }

  /** What is left to list after a page with a cursor. */
  lemma NextRequest(v2: seq<Row>, current: seq<Row>, q: Query, asc: bool, limit: nat)
    requires Sorted(v2, asc) && Sorted(current, asc) && limit > 0
    requires Request(v2, current, q, asc, limit).next != None
    ensures
      var u, next := Union(v2, current, q, asc), Request(v2, current, q, asc, limit).next;
      && |u| > limit && next == Some(u[limit - 1].position)
      && Union(v2, current, q.(cursor := next), asc) == SkipTied(u[limit..], next.value)
  {
    RequestIsFirstPage(v2, current, q, asc, limit);
    var u := Union(v2, current, q, asc);
    UnionIsComplete(v2, current, q, asc);
    var p := u[limit - 1].position;
    assert u[limit - 1] in multiset(u);
    assert u[limit - 1] in Where(v2 + current, q, asc);
    WhereMembers(v2 + current, q, asc);
    UnionPast(v2, current, q, asc, p);
    PastThePage(u, asc, limit);
  }

  lemma {:induction false} WalkIsListing(v2: seq<Row>, current: seq<Row>, q: Query, asc: bool, limit: nat)
    requires Sorted(v2, asc) && Sorted(current, asc) && limit > 0
    ensures Walk(v2, current, q, asc, limit) == WalkListing(Union(v2, current, q, asc), limit)
    decreases |Union(v2, current, q, asc)|
  {
    hide Sorted, Request, Union;
    var page := Request(v2, current, q, asc, limit);
    RequestIsFirstPage(v2, current, q, asc, limit);
    if page.next != None {
      NextRequest(v2, current, q, asc, limit);
      WalkIsListing(v2, current, q.(cursor := page.next), asc, limit);
    }
  }

  /** Where the m-th full page ends. */
  function PageEnd(m: nat, limit: nat): nat {
    m * limit
  }

  /** No page ends between two rows at one position. */
  ghost predicate NoTieSplit(u: seq<Row>, limit: nat)
    requires limit > 0
  {
    forall m: nat | 0 < PageEnd(m, limit) < |u| ::
      u[PageEnd(m, limit)].position != u[PageEnd(m, limit) - 1].position
  }

  lemma PageEndNext(m: nat, limit: nat)
    ensures PageEnd(m + 1, limit) == PageEnd(m, limit) + limit
    ensures PageEnd(0, limit) == 0
  {
  }

  lemma NoTieSplitShift(u: seq<Row>, limit: nat)
    requires 0 < limit < |u| && u[limit].position != u[limit - 1].position
    ensures NoTieSplit(u, limit) <==> NoTieSplit(u[limit..], limit)
  {
    hide PageEnd;
    if NoTieSplit(u[limit..], limit) {
      forall m: nat | 0 < PageEnd(m, limit) < |u|
        ensures u[PageEnd(m, limit)].position != u[PageEnd(m, limit) - 1].position
      {
        PageEndNext(m, limit);
        if m > 0 {
          PageEndNext(m - 1, limit);
          assert 0 < PageEnd(m - 1, limit) ==> u[limit..][PageEnd(m - 1, limit)] == u[PageEnd(m, limit)];
        }
      }
    }
    if NoTieSplit(u, limit) {
      forall m: nat | 0 < PageEnd(m, limit) < |u[limit..]|
        ensures u[limit..][PageEnd(m, limit)].position != u[limit..][PageEnd(m, limit) - 1].position
      {
        PageEndNext(m, limit);
        assert u[PageEnd(m + 1, limit)].position != u[PageEnd(m + 1, limit) - 1].position;
      }
    }
  }

  lemma ShortListing(u: seq<Row>, limit: nat)
    requires limit > 0 && |u| <= limit
    ensures NoTieSplit(u, limit)
  {
    forall m: nat | 0 < PageEnd(m, limit)
      ensures PageEnd(m, limit) >= limit
    {
      assert m >= 1;
    }
  }

  lemma TieAtFirstEnd(u: seq<Row>, limit: nat)
    requires 0 < limit < |u| && u[limit].position == u[limit - 1].position
    ensures !NoTieSplit(u, limit)
    ensures |SkipTied(u[limit..], u[limit - 1].position)| < |u| - limit
  {
    assert PageEnd(1, limit) == limit;
  }

  lemma NoTieAtFirstEnd(u: seq<Row>, limit: nat)
    requires 0 < limit < |u| && u[limit].position != u[limit - 1].position
    ensures SkipTied(u[limit..], u[limit - 1].position) == u[limit..]
  {
  }

  lemma PageAndRest(u: seq<Row>, limit: nat, rest: seq<Row>)
    requires limit <= |u|
    ensures u[..limit] + rest == u <==> rest == u[limit..]
  {
    assert u == u[..limit] + u[limit..];
    assert (u[..limit] + rest)[limit..] == rest;
  }

  lemma {:induction false} ListingWalkedWhole(u: seq<Row>, limit: nat)
    requires limit > 0
    ensures WalkListing(u, limit) == u <==> NoTieSplit(u, limit)
    decreases |u|
  {
    hide NoTieSplit, SkipTied;
    if |u| <= limit {
      ShortListing(u, limit);
    } else if u[limit].position != u[limit - 1].position {
      ListingWalkedWhole(u[limit..], limit);
      NoTieAtFirstEnd(u, limit);
      NoTieSplitShift(u, limit);
      PageAndRest(u, limit, WalkListing(u[limit..], limit));
    } else {
      TieAtFirstEnd(u, limit);
    }
  }

  /**
   Following the cursors ends, and it shows every admitted row once, in order, exactly when no page
   ends between two rows at one position.
   */
  lemma WalkVisitsAll(v2: seq<Row>, current: seq<Row>, q: Query, asc: bool, limit: nat)
    requires Sorted(v2, asc) && Sorted(current, asc) && limit > 0
    ensures
      var u := Union(v2, current, q, asc);
      Walk(v2, current, q, asc, limit) == u <==> NoTieSplit(u, limit)
  {
    WalkIsListing(v2, current, q, asc, limit);
    ListingWalkedWhole(Union(v2, current, q, asc), limit);
  }

  lemma UnionOfTwo(first: Row, second: Row, asc: bool)
    requires first.position == second.position
    ensures Sorted([first], asc) && Sorted([second], asc)
    ensures Union([first], [second], Query(None, None), asc) == [first, second]
  {
    var q := Query(None, None);
    WhereAll([first], q, asc);
    WhereAll([second], q, asc);
    SortIsMerge([first], [second], asc);
    assert Merge([first], [second], asc) == [first] + Merge([], [second], asc);
  }

  /** Two rows at one position and a page that ends between them: the second one is never shown. */
  lemma TiedRowIsLost(first: Row, second: Row, asc: bool)
    requires first.position == second.position
    ensures Union([first], [second], Query(None, None), asc) == [first, second]
    ensures Sorted([first], asc) && Sorted([second], asc)
    ensures Walk([first], [second], Query(None, None), asc, 1) == [first]
  {
    UnionOfTwo(first, second, asc);
    WalkIsListing([first], [second], Query(None, None), asc, 1);
    hide Walk, Union, Request;
    var u := [first, second];
    assert u[1..] == [second] && u[..1] == [first];
    assert SkipTied([second], first.position) == [];
  }

  ghost predicate Distinct(s: seq<Row>) {
    forall i, j | 0 <= i < j < |s| :: s[i].position != s[j].position
  }

  lemma {:induction false} DistinctAt(s: seq<Row>, p: Position)
    ensures Distinct(s) ==> |At(s, p)| <= 1
  {
    if s != [] && Distinct(s) {
      var last := |s| - 1;
      DistinctAt(s[..last], p);
      AtNone(s[..last], p);
    }
  }

  /** A list whose positions all occur at most once has no two rows at one position. */
  lemma DistinctByCount(s: seq<Row>)
    requires forall p :: |At(s, p)| <= 1
    ensures Distinct(s)
  {
    forall i, j | 0 <= i < j < |s|
      ensures s[i].position != s[j].position
    {
      var p := s[i].position;
      AtConcat(s[..j], s[j..], p);
      assert s == s[..j] + s[j..];
      AtNone(s[..j], p);
      AtNone(s[j..], p);
      assert s[..j][i] == s[i] && s[j..][0] == s[j];
    }
  }

  lemma UnionDistinct(v2: seq<Row>, current: seq<Row>, q: Query, asc: bool)
    requires Distinct(v2 + current)
    ensures Distinct(Union(v2, current, q, asc))
  {
    UnionIsComplete(v2, current, q, asc);
    var u := Union(v2, current, q, asc);
    hide Union, Where, At, Distinct;
    forall p
      ensures |At(u, p)| <= 1
    {
      WhereAt(v2 + current, q, asc, p);
      DistinctAt(v2 + current, p);
      assert |Where(At(v2 + current, p), q, asc)| <= 1;
    }
    DistinctByCount(u);
  }

  /** With no two rows at one position the walk shows every admitted row exactly once, in either direction. */
  lemma WalkOfDistinctRows(v2: seq<Row>, current: seq<Row>, q: Query, asc: bool, limit: nat)
    requires Sorted(v2, asc) && Sorted(current, asc) && limit > 0
    requires Distinct(v2 + current)
    ensures Walk(v2, current, q, asc, limit) == Union(v2, current, q, asc)
    ensures multiset(Walk(v2, current, q, asc, limit)) == multiset(Where(v2 + current, q, asc))
  {
    hide Union, Where, Sorted, Walk;
    UnionDistinct(v2, current, q, asc);
    UnionIsComplete(v2, current, q, asc);
    WalkVisitsAll(v2, current, q, asc, limit);
  }

  lemma {:induction false} AtReversed(s: seq<Row>, p: Position)
    ensures At(Reversed(s), p) == Reversed(At(s, p))
  {
    if s != [] {
      var front, y := s[..|s| - 1], s[|s| - 1];
      AtReversed(front, p);
      assert Reversed(s) == [y] + Reversed(front);
      AtCons(y, Reversed(front), p);
      ReversedConcat(At(front, p), if y.position == p then [y] else []);
    }
  }

  lemma {:induction false} WhereReversed(s: seq<Row>, opKind: Option<nat>, asc: bool)
    ensures Where(Reversed(s), Query(opKind, None), asc) == Reversed(Where(s, Query(opKind, None), !asc))
  {
    if s != [] {
      var front, y := s[..|s| - 1], s[|s| - 1];
      var q := Query(opKind, None);
      WhereReversed(front, opKind, asc);
      assert Reversed(s) == [y] + Reversed(front);
      WhereConcat([y], Reversed(front), q, asc);
      assert [y][..0] == [];
      ReversedConcat(Where(front, q, !asc), if Admits(q, y, asc) then [y] else []);
    }
  }

  lemma ReversedSorted(s: seq<Row>, asc: bool)
    requires Sorted(s, !asc)
    ensures Sorted(Reversed(s), asc)
  {
  }

  /** Walking the other way shows the same rows turned round, when no two rows share a position. */
  lemma DirectionsMirror(v2: seq<Row>, current: seq<Row>, opKind: Option<nat>, limit: nat, asc: bool)
    requires Sorted(v2, !asc) && Sorted(current, !asc) && limit > 0
    requires Distinct(v2 + current)
    ensures Sorted(Reversed(v2), asc) && Sorted(Reversed(current), asc)
    ensures
      var q := Query(opKind, None);
      Walk(Reversed(v2), Reversed(current), q, asc, limit) == Reversed(Walk(v2, current, q, !asc, limit))
  {
    var q := Query(opKind, None);
    ReversedSorted(v2, asc);
    ReversedSorted(current, asc);
    hide Sorted, Walk, Where, Union, At;
    var all := Reversed(v2) + Reversed(current);
    forall p
      ensures At(all, p) == Reversed(At(v2 + current, p)) && |At(all, p)| <= 1
    {
      hide Reversed;
      AtReversed(v2, p);
      AtReversed(current, p);
      AtConcat(Reversed(v2), Reversed(current), p);
      AtConcat(v2, current, p);
      DistinctAt(v2 + current, p);
      ShortReversed(At(v2, p), At(current, p));
    }
    DistinctByCount(all);
    WalkOfDistinctRows(v2, current, q, !asc, limit);
    WalkOfDistinctRows(Reversed(v2), Reversed(current), q, asc, limit);
    MirrorUnion(v2, current, opKind, asc);
  }

  lemma ShortReversed(a: seq<Row>, b: seq<Row>)
    requires |a + b| <= 1
    ensures Reversed(a) + Reversed(b) == Reversed(a + b)
  {
  }

  lemma MirrorUnion(v2: seq<Row>, current: seq<Row>, opKind: Option<nat>, asc: bool)
    requires Distinct(v2 + current)
    requires forall p :: At(Reversed(v2) + Reversed(current), p) == Reversed(At(v2 + current, p))
    ensures
      var q := Query(opKind, None);
      Union(Reversed(v2), Reversed(current), q, asc) == Reversed(Union(v2, current, q, !asc))
  {
    var q := Query(opKind, None);
    var u, r := Union(v2, current, q, !asc), Union(Reversed(v2), Reversed(current), q, asc);
    UnionIsComplete(v2, current, q, !asc);
    UnionIsComplete(Reversed(v2), Reversed(current), q, asc);
    ReversedSorted(u, asc);
    hide Union, Where, At, Sorted, Reversed;
    forall p
      ensures At(r, p) == At(Reversed(u), p)
    {
      AtReversed(u, p);
      WhereAt(v2 + current, q, !asc, p);
      WhereAt(Reversed(v2) + Reversed(current), q, asc, p);
      WhereReversed(At(v2 + current, p), opKind, asc);
    }
    StableSortUnique(r, Reversed(u), asc);
  }

  // What a reader gets, in terms of the rows themselves

  /** The row is stored, of the kind asked for if one is, and past the cursor if there is one. */
  ghost predicate Asked(v2: seq<Row>, current: seq<Row>, opKind: Option<nat>, cursor: Option<Position>, asc: bool, row: Row) {
    && (row in v2 || row in current)
    && (opKind.Some? ==> row.opKind == opKind.value)
    && (cursor.Some? ==>
          var p, c := row.position, cursor.value;
          if asc then p.block > c.block || (p.block == c.block && p.logIndex > c.logIndex)
          else p.block < c.block || (p.block == c.block && p.logIndex < c.logIndex))
  }

  /** The first row may stand before the second one in a listing of the direction. */
  ghost predicate InOrder(a: Row, b: Row, asc: bool) {
    var p, q := a.position, b.position;
    if asc then p.block < q.block || (p.block == q.block && p.logIndex <= q.logIndex)
    else p.block > q.block || (p.block == q.block && p.logIndex >= q.logIndex)
  }

  lemma SortedInOrder(s: seq<Row>, asc: bool)
    requires Sorted(s, asc)
    ensures forall i, j | 0 <= i < j < |s| :: InOrder(s[i], s[j], asc)
  {
    forall i, j | 0 <= i < j < |s|
      ensures InOrder(s[i], s[j], asc)
    {
      assert !Before(s[j], s[i], asc);
    }
  }

  lemma UnionIsAsked(v2: seq<Row>, current: seq<Row>, q: Query, asc: bool)
    ensures forall row :: row in Union(v2, current, q, asc) <==> Asked(v2, current, q.opKind, q.cursor, asc, row)
    ensures Sorted(Union(v2, current, q, asc), asc)
  {
    UnionIsComplete(v2, current, q, asc);
    WhereMembers(v2 + current, q, asc);
    var u, w := Union(v2, current, q, asc), Where(v2 + current, q, asc);
    hide Union, Where, At, Sorted;
    forall row
      ensures row in u <==> row in w
    {
      assert row in u <==> row in multiset(u);
      assert row in w <==> row in multiset(w);
    }
  }

  /** The rows shown are asked for and in order, the rows left out come behind them, and the cursor is the last row's. */
  ghost predicate IsAuditPage(v2: seq<Row>, current: seq<Row>, opKind: Option<nat>, cursor: Option<Position>, asc: bool,
                              limit: nat, page: seq<Row>, next: Option<Position>) {
    && |page| <= limit
    && (forall i, j | 0 <= i < j < |page| :: InOrder(page[i], page[j], asc))
    && (forall row | row in page :: Asked(v2, current, opKind, cursor, asc, row))
    && (forall row, shown | Asked(v2, current, opKind, cursor, asc, row) && row !in page && shown in page :: InOrder(shown, row, asc))
    && (next == None ==> forall row | Asked(v2, current, opKind, cursor, asc, row) :: row in page)
    && (next != None ==> |page| == limit && limit > 0 && next == Some(page[limit - 1].position))
  }

  lemma FrontOfOrdered(u: seq<Row>, asc: bool, limit: nat)
    requires Sorted(u, asc) && limit > 0
    ensures var p := FirstPage(u, limit);
      && |p.rows| <= limit
      && (forall i, j | 0 <= i < j < |p.rows| :: InOrder(p.rows[i], p.rows[j], asc))
      && (forall row | row in p.rows :: row in u)
      && (forall row, shown | row in u && row !in p.rows && shown in p.rows :: InOrder(shown, row, asc))
      && (p.next == None ==> p.rows == u)
      && (p.next != None ==> |p.rows| == limit && p.next == Some(p.rows[limit - 1].position))
  {
    SortedInOrder(u, asc);
    var rows := FirstPage(u, limit).rows;
    forall row, shown | row in u && row !in rows && shown in rows
      ensures InOrder(shown, row, asc)
    {
      var j :| 0 <= j < |u| && u[j] == row;
      var i :| 0 <= i < |rows| && rows[i] == shown;
      assert j >= |rows| by {
        assert forall k: nat | k < |rows| :: u[k] == rows[k] && rows[k] in rows;
      }
      assert u[i] == shown;
    }
  }

  lemma FirstPageIsAuditPage(v2: seq<Row>, current: seq<Row>, q: Query, asc: bool, limit: nat)
    requires limit > 0
    ensures var p := FirstPage(Union(v2, current, q, asc), limit);
      IsAuditPage(v2, current, q.opKind, q.cursor, asc, limit, p.rows, p.next)
  {
    UnionIsAsked(v2, current, q, asc);
    hide Union, Sorted, Asked, InOrder, FirstPage;
    FrontOfOrdered(Union(v2, current, q, asc), asc, limit);
  }

  lemma DistinctOnce(u: seq<Row>)
    requires Distinct(u)
    ensures forall row :: multiset(u)[row] == if row in u then 1 else 0
  {
    forall row
      ensures multiset(u)[row] == if row in u then 1 else 0
    {
      CountOnce(u, row);
    }
  }

  lemma {:induction false} CountOnce(u: seq<Row>, row: Row)
    requires Distinct(u)
    ensures multiset(u)[row] == if row in u then 1 else 0
  {
    if u != [] {
      var front, last := u[..|u| - 1], u[|u| - 1];
      assert u == front + [last];
      CountOnce(front, row);
      assert last !in front;
    }
  }

  /** With no two rows at one position, the walk shows every row asked for exactly once, in order, and no other row. */
  lemma WalkShows(v2: seq<Row>, current: seq<Row>, opKind: Option<nat>, cursor: Option<Position>, asc: bool, limit: nat)
    requires Sorted(v2, asc) && Sorted(current, asc) && limit > 0 && Distinct(v2 + current)
    ensures var shown := Walk(v2, current, Query(opKind, cursor), asc, limit);
      && (forall row :: multiset(shown)[row] == if Asked(v2, current, opKind, cursor, asc, row) then 1 else 0)
      && (forall i, j | 0 <= i < j < |shown| :: InOrder(shown[i], shown[j], asc))
  {
    var q := Query(opKind, cursor);
    WalkOfDistinctRows(v2, current, q, asc, limit);
    UnionDistinct(v2, current, q, asc);
    UnionIsAsked(v2, current, q, asc);
    hide Walk, Union, Where, Distinct, Asked, InOrder;
    var u := Union(v2, current, q, asc);
    SortedInOrder(u, asc);
    DistinctOnce(u);
  }

  lemma CursorWhenMore(v2: seq<Row>, current: seq<Row>, q: Query, asc: bool, limit: nat)
    requires Sorted(v2, asc) && Sorted(current, asc) && limit > 0
    ensures FirstPage(Union(v2, current, q, asc), limit).next != None <==>
            |Where(v2, q, asc)| + |Where(current, q, asc)| > limit
  {
    hide Sorted, StableSort, Where;
    WhereSorted(v2, q, asc);
    WhereSorted(current, q, asc);
    SortIsMerge(Where(v2, q, asc), Where(current, q, asc), asc);
  }

  lemma UnionWithNone(rows: seq<Row>, q: Query, asc: bool)
    ensures Union(rows, [], q, asc) == StableSort(Where(rows, q, asc), asc)
  {
    hide StableSort;
    assert Where(rows, q, asc) + Where([], q, asc) == Where(rows, q, asc);
  }

  // The request as the server runs it

  /** The insertion is still to be done in the first j rows, the rows behind them stay. */
  ghost predicate InsertedFrom(sorted: seq<Row>, j: nat, x: Row, asc: bool)
    requires j <= |sorted|
  {
    Insert(sorted, x, asc) == Insert(sorted[..j], x, asc) + sorted[j..]
  }

  lemma InsertStart(sorted: seq<Row>, x: Row, asc: bool)
    ensures InsertedFrom(sorted, |sorted|, x, asc)
  {
    assert sorted[..|sorted|] == sorted;
  }

  lemma InsertStep(sorted: seq<Row>, j: nat, x: Row, asc: bool)
    requires 0 < j <= |sorted| && Before(x, sorted[j - 1], asc) && InsertedFrom(sorted, j, x, asc)
    ensures InsertedFrom(sorted, j - 1, x, asc)
  {
    assert sorted[..j][..j - 1] == sorted[..j - 1];
    assert [sorted[j - 1]] + sorted[j..] == sorted[j - 1..];
  }

  lemma InsertStop(sorted: seq<Row>, j: nat, x: Row, asc: bool)
    requires j <= |sorted| && (j == 0 || !Before(x, sorted[j - 1], asc)) && InsertedFrom(sorted, j, x, asc)
    ensures Insert(sorted, x, asc) == sorted[..j] + [x] + sorted[j..]
  {
  }

  /** Row i of `all` stands at j, and those between have moved up by one. */
  ghost predicate Shifted(now: seq<Row>, all: seq<Row>, i: nat, j: nat) {
    && j <= i < |all| == |now|
    && now[j] == all[i]
    && (forall k | 0 <= k < j :: now[k] == all[k])
    && (forall k | j < k <= i :: now[k] == all[k - 1])
    && (forall k | i < k < |all| :: now[k] == all[k])
  }

  lemma ShiftStep(now: seq<Row>, all: seq<Row>, i: nat, j: nat)
    requires Shifted(now, all, i, j) && j > 0
    ensures now[j] == all[i] && now[j - 1] == all[..i][j - 1]
    ensures Shifted(now[j := now[j - 1]][j - 1 := now[j]], all, i, j - 1)
  {
  }

  lemma ShiftHead(now: seq<Row>, all: seq<Row>, i: nat, j: nat)
    requires Shifted(now, all, i, j)
    ensures j <= i < |all| == |now| && now[j] == all[i]
    ensures j > 0 ==> now[j - 1] == all[..i][j - 1]
  {
  }

  lemma ShiftEnd(now: seq<Row>, all: seq<Row>, i: nat, j: nat)
    requires Shifted(now, all, i, j)
    ensures now[..i + 1] == all[..i][..j] + [all[i]] + all[..i][j..]
    ensures now[i + 1..] == all[i + 1..]
  {
  }

  lemma ShiftStart(all: seq<Row>, i: nat)
    requires i < |all|
    ensures Shifted(all, all, i, i)
  {
  }

  /** Swaps row i left past every row it comes before. */
  method InsertLast(rows: array<Row>, i: nat, asc: bool)
    requires i < rows.Length
    modifies rows
    ensures rows[..i + 1] == Insert(old(rows[..i]), old(rows[i]), asc)
    ensures rows[i + 1..] == old(rows[i + 1..])
  {
    ghost var all, sorted, x := rows[..], rows[..i], rows[i];
    assert sorted == all[..i] && x == all[i];
    var j := i;
    InsertStart(sorted, x, asc);
    ShiftStart(all, i);
    hide Insert, Before, InsertedFrom, Shifted;
    while j > 0 && Before(rows[j], rows[j - 1], asc)
      invariant j <= i && Shifted(rows[..], all, i, j)
      invariant InsertedFrom(sorted, j, x, asc)
    {
      ghost var now := rows[..];
      ShiftStep(now, all, i, j);
      InsertStep(sorted, j, x, asc);
      rows[j], rows[j - 1] := rows[j - 1], rows[j];
      assert rows[..] == now[j := now[j - 1]][j - 1 := now[j]];
      j := j - 1;
    }
    ShiftHead(rows[..], all, i, j);
    InsertStop(sorted, j, x, asc);
    ShiftEnd(rows[..], all, i, j);
    assert rows[..i + 1] == rows[..][..i + 1] && rows[i + 1..] == rows[..][i + 1..];
    assert all[i + 1..] == old(rows[i + 1..]);
  }

  lemma NothingToSort(rows: seq<Row>, asc: bool)
    requires rows == []
    ensures StableSort(rows, asc) == []
  {
  }

  lemma SortLast(rows: seq<Row>, asc: bool)
    requires rows != []
    ensures StableSort(rows, asc) == Insert(StableSort(rows[..|rows| - 1], asc), rows[|rows| - 1], asc)
  {
  }

  /** Sorts the first n rows in place by insertion, as a stable library sort of a short slice does. */
  method SliceStable(rows: array<Row>, n: nat, asc: bool)
    requires n <= rows.Length
    modifies rows
    ensures rows[..n] == StableSort(old(rows[..n]), asc)
  {
    hide StableSort, Insert;
    var i := 0;
    NothingToSort(rows[..0], asc);
    while i < n
      invariant i <= n
      invariant rows[..i] == StableSort(old(rows[..i]), asc)
      invariant rows[i..] == old(rows[i..])
    {
      ghost var was := old(rows[..i + 1]);
      assert was[..i] == old(rows[..i]) && was[i] == rows[i..][0];
      ghost var rest := rows[i..];
      SortLast(was, asc);
      InsertLast(rows, i, asc);
      assert rows[i + 1..] == rest[1..];
      i := i + 1;
    }
  }

  /** Moves the rows of one kind to the front, in order, over the same array. */
  method KeepKind(rows: array<Row>, opKind: nat, ghost q: Query, ghost asc: bool) returns (n: nat)
    requires q == Query(Some(opKind), None)
    modifies rows
    ensures n <= rows.Length && rows[..n] == Where(old(rows[..]), q, asc)
    ensures forall row :: row in rows[..n] <==> row in old(rows[..]) && row.opKind == opKind
  {
    n := 0;
    var i := 0;
    ghost var all := rows[..];
    hide Where;
    WhereNothing(all, q, asc);
    while i < rows.Length
      invariant n <= i <= rows.Length
      invariant rows[..n] == Where(all[..i], q, asc)
      invariant forall k | i <= k < rows.Length :: rows[k] == all[k]
    {
      WhereSnoc(all, i, q, asc);
      if rows[i].opKind == opKind {
        ghost var kept := rows[..n];
        rows[n] := rows[i];
        n := n + 1;
        assert rows[..n] == kept + [all[i]];
      }
      i := i + 1;
    }
    assert all[..rows.Length] == all;
    WhereMembers(all, q, asc);
  }

  lemma WhereNothing(s: seq<Row>, q: Query, asc: bool)
    ensures Where(s[..0], q, asc) == []
  {
  }

  lemma WhereSnoc(s: seq<Row>, i: nat, q: Query, asc: bool)
    requires i < |s|
    ensures Where(s[..i + 1], q, asc) == Where(s[..i], q, asc) + if Admits(q, s[i], asc) then [s[i]] else []
  {
    assert s[..i + 1][..i] == s[..i];
  }

  method Cut(sorted: seq<Row>, limit: nat) returns (page: seq<Row>, next: Option<Position>)
    ensures Page(page, next) == FirstPage(sorted, limit)
  {
    page, next := sorted, None;
    var hasNext := |page| > limit;
    if hasNext {
      page := page[..limit];
    }
    if hasNext && |page| > 0 {
      next := Some(page[|page| - 1].position);
    }
  }

  /** The server's page: drops other kinds in place over the fetched rows, sorts them and cuts. */
  method RowsPage(rows: array<Row>, asc: bool, limit: nat, opKind: Option<nat>) returns (page: seq<Row>, next: Option<Position>)
    modifies rows
    ensures Page(page, next) ==
            FirstPage(StableSort(Where(old(rows[..]), Query(opKind, None), asc), asc), limit)
    ensures limit > 0 ==> IsAuditPage(old(rows[..]), [], opKind, None, asc, limit, page, next)
  {
    hide IsAuditPage, Union;
    var n := rows.Length;
    ghost var q := Query(opKind, None);
    UnionWithNone(rows[..], q, asc);
    if limit > 0 {
      FirstPageIsAuditPage(rows[..], [], q, asc, limit);
    }
    if opKind != None {
      n := KeepKind(rows, opKind.value, q, asc);
    } else {
      WhereAll(rows[..], q, asc);
      assert rows[..n] == rows[..];
    }
    hide Where, StableSort, FirstPage;
    SliceStable(rows, n, asc);
    page, next := Cut(rows[..n], limit);
  }

  /** A page request: the first page of everything the query admits, and a cursor exactly when there is more. */
  method AuditRows(v2: seq<Row>, current: seq<Row>, q: Query, asc: bool, limit: nat)
    returns (page: seq<Row>, next: Option<Position>)
    requires Sorted(v2, asc) && Sorted(current, asc) && limit > 0
    ensures Page(page, next) == FirstPage(Union(v2, current, q, asc), limit)
    ensures next != None <==> |Where(v2, q, asc)| + |Where(current, q, asc)| > limit
    ensures IsAuditPage(v2, current, q.opKind, q.cursor, asc, limit, page, next)
  {
    hide Sorted, StableSort, Where, Union, IsAuditPage, FirstPage;
    FirstPageIsAuditPage(v2, current, q, asc, limit);
    CursorWhenMore(v2, current, q, asc, limit);
    var logs := Take(Where(v2, q, asc), limit + 1) + Take(Where(current, q, asc), limit + 1);
    var rows := new Row[|logs|](i requires 0 <= i < |logs| => logs[i]);
    assert rows[..] == logs;
    page, next := RowsPage(rows, asc, limit, q.opKind);
    RequestIsFirstPage(v2, current, q, asc, limit);
  }
}
