/** What the index is for: skipping tables does not change an account's listing. */
module AccountListing {
  import opened Tables
  import opened Walks
  import opened Pages
  import opened AccountIndex

  /** Tables that are skipped hold nothing the condition selects. */
  lemma {:induction false} SkippedTablesAreEmpty(
      db: Database, sel: Selection, all: Selection, where: Where, bound: Bound, n: nat)
    requires all == Selection(sel.fixed, "", [])
    requires forall s: nat | s in db && all.Checks(s) && !sel.Checks(s) :: forall x | x in db[s] :: !where(x)
    ensures Filter(Span(Visible(db, sel), 0, n), where, bound) == Filter(Span(Visible(db, all), 0, n), where, bound)
  {
    if n > 0 {
      var s := n - 1;
      SkippedTablesAreEmpty(db, sel, all, where, bound, s);
      FilterConcat(Span(Visible(db, sel), 0, s), TableAt(Visible(db, sel), s), where, bound);
      FilterConcat(Span(Visible(db, all), 0, s), TableAt(Visible(db, all), s), where, bound);
      if s in db && all.Checks(s) && !sel.Checks(s) {
        FilterNone(db[s], where, bound);
      }
    }
  }

  /**
   With a complete index, a listing of one account over the tables the index names gives the page
   that filtering by account over all tables gives, at every cursor and for any fixed table.
   */
  lemma IndexedListing(db: Database, mapping: Mapping, account: string, fixed: int, where: Where,
                       limit: nat, before: nat, after: nat, count: nat)
    requires account != "" && IndexComplete(db, mapping)
    requires forall x | where(x) :: x.account == account
    ensures var listed := Selection(fixed, account, if account in mapping then mapping[account] else []);
      SinglePage(Whole(Visible(db, listed), count), where, limit, before, after) ==
      SinglePage(Whole(Visible(db, Selection(fixed, "", [])), count), where, limit, before, after)
  {
    hide Filter;
    var listed := Selection(fixed, account, if account in mapping then mapping[account] else []);
    var all := Selection(fixed, "", []);
    forall s: nat, x | s in db && all.Checks(s) && !listed.Checks(s) && x in db[s]
      ensures !where(x)
    {
      var i :| 0 <= i < |db[s]| && db[s][i] == x;
      assert x.account == account ==> Holds(db, s, account);
    }
    SkippedTablesAreEmpty(db, listed, all, where, Any, count);
    SkippedTablesAreEmpty(db, listed, all, where, Below(after), count);
    SkippedTablesAreEmpty(db, listed, all, where, Above(before), count);
  }

  /** The rows met by walking a split listing are the stored rows that match, newest first, each once. */
  lemma WalkOverTables(db: Database, span: nat, count: nat, where: Where, limit: nat)
    requires limit > 0 && WellSharded(db, span, count)
    ensures Ascending(Whole(db, count))
    ensures var rows := Concat(Walk(Whole(db, count), where, limit, 0));
      && (forall i, j | 0 <= i < j < |rows| :: rows[i].id > rows[j].id)
      && (forall x :: x in rows <==> where(x) && exists s | s in db :: x in db[s])
  {
    var all := Whole(db, count);
    SpanAscending(db, span, count, 0, count);
    WalkVisitsAll(all, where, limit, 0);
    ListingDescends(all, where);
    forall x
      ensures x in all <==> exists s | s in db :: x in db[s]
    {
      if x in all {
        SpanMember(db, 0, count, x);
      }
      if s :| s in db && x in db[s] {
        InSpan(db, count, s, x);
      }
    }
  }

  lemma {:induction false} InSpan(db: Database, hi: nat, s: nat, x: Row)
    requires s < hi && x in TableAt(db, s)
    ensures x in Span(db, 0, hi)
    decreases hi
  {
    if s < hi - 1 {
      InSpan(db, hi - 1, s, x);
    }
  }

  /** The one table a fixed index leaves. */
  lemma {:induction false} OneTableSpan(db: Database, f: nat, n: nat)
    ensures Span(Visible(db, Selection(f, "", [])), 0, n) == if f < n then TableAt(db, f) else []
  {
    if n > 0 {
      OneTableSpan(db, f, n - 1);
      assert TableAt(Visible(db, Selection(f, "", [])), n - 1) == if f == n - 1 then TableAt(db, f) else [];
    }
  }

  /** Without an account the visible tables are all of them, or the fixed one. */
  lemma VisibleWhole(db: Database, fixed: int, span: nat, count: nat)
    requires WellSharded(db, span, count)
    ensures Whole(Visible(db, Selection(fixed, "", [])), count) == if fixed < 0 then Whole(db, count) else TableAt(db, fixed)
  {
    if fixed < 0 {
      assert Visible(db, Selection(fixed, "", [])) == db;
    } else {
      OneTableSpan(db, fixed, count);
    }
  }
}
