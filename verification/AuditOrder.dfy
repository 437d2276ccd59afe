/** Audit rows in stream order: the stable sort, the merge of two ordered streams, and why they agree. */
module AuditOrder {
  import opened Sequences

  /** Where a row sits in the chain; also what a page cursor holds. */
  datatype Position = Position(block: nat, logIndex: nat)

  datatype Row = Row(position: Position, opKind: nat, body: string)

  /** `a` comes strictly before `b` in a listing of the given direction. */
  predicate Precedes(a: Position, b: Position, asc: bool) {
    if a.block == b.block then
      if asc then a.logIndex < b.logIndex else a.logIndex > b.logIndex
    else
      if asc then a.block < b.block else a.block > b.block
  }

  predicate Before(a: Row, b: Row, asc: bool) {
    Precedes(a.position, b.position, asc)
  }

  ghost predicate Sorted(s: seq<Row>, asc: bool) {
    forall i, j | 0 <= i < j < |s| :: !Before(s[j], s[i], asc)
  }

  /** The rows at one position, in the order they are listed. */
  function At(s: seq<Row>, p: Position): seq<Row> {
    if s == [] then [] else At(s[..|s| - 1], p) + if s[|s| - 1].position == p then [s[|s| - 1]] else []
  }

  /** `t` is `s` sorted, rows at one position keeping their order. */
  ghost predicate IsStableSort(t: seq<Row>, s: seq<Row>, asc: bool) {
    Sorted(t, asc) && forall p :: At(t, p) == At(s, p)
  }

  lemma {:induction false} AtConcat(a: seq<Row>, b: seq<Row>, p: Position)
    ensures At(a + b, p) == At(a, p) + At(b, p)
  {
    if b == [] {
      assert a + b == a;
    } else {
      var last := |b| - 1;
      AtConcat(a, b[..last], p);
      assert (a + b)[..|a| + last] == a + b[..last];
    }
  }

  lemma AtCons(x: Row, s: seq<Row>, p: Position)
    ensures At([x] + s, p) == (if x.position == p then [x] else []) + At(s, p)
  {
    AtConcat([x], s, p);
    assert [x][..0] == [];
  }

  lemma {:induction false} AtNone(s: seq<Row>, p: Position)
    ensures At(s, p) == [] <==> forall i | 0 <= i < |s| :: s[i].position != p
  {
    if s != [] {
      var last := |s| - 1;
      AtNone(s[..last], p);
      assert forall i | 0 <= i < last :: s[..last][i] == s[i];
    }
  }

  lemma SortedTail(s: seq<Row>, asc: bool)
    requires Sorted(s, asc) && s != []
    ensures Sorted(s[1..], asc)
    ensures s == [s[0]] + s[1..]
  {
  }

  /** Some row of `s` sits at the position of the first row of `t`, so it is not before the head of `s`. */
  lemma HeadNotAfter(t: seq<Row>, s: seq<Row>, asc: bool)
    requires t != [] && Sorted(s, asc) && At(t, t[0].position) == At(s, t[0].position)
    ensures s != [] && !Precedes(t[0].position, s[0].position, asc)
  {
    AtNone(t, t[0].position);
    AtNone(s, t[0].position);
    var i :| 0 <= i < |s| && s[i].position == t[0].position;
  }

  /** A list has one stable sort. */
  lemma {:induction false} StableSortUnique(t: seq<Row>, u: seq<Row>, asc: bool)
    requires Sorted(t, asc) && Sorted(u, asc)
    requires forall p :: At(t, p) == At(u, p)
    ensures t == u
  {
    hide Sorted, At;
    if t == [] {
      if u != [] {
        HeadNotAfter(u, t, asc);
      }
    } else {
      HeadNotAfter(t, u, asc);
      HeadNotAfter(u, t, asc);
      SortedTail(t, asc);
      SortedTail(u, asc);
      SameHead(t, u);
      forall q
        ensures At(t[1..], q) == At(u[1..], q)
      {
        SameTail(t, u, q);
      }
      StableSortUnique(t[1..], u[1..], asc);
    }
  }

  lemma SameHead(t: seq<Row>, u: seq<Row>)
    requires t != [] && u != [] && t[0].position == u[0].position
    requires At(t, t[0].position) == At(u, t[0].position)
    ensures t[0] == u[0]
  {
    hide At;
    AtCons(t[0], t[1..], t[0].position);
    AtCons(u[0], u[1..], t[0].position);
    assert t == [t[0]] + t[1..] && u == [u[0]] + u[1..];
    assert At(t, t[0].position)[0] == t[0] && At(u, t[0].position)[0] == u[0];
  }

  lemma SameTail(t: seq<Row>, u: seq<Row>, q: Position)
    requires t != [] && u != [] && t[0] == u[0] && At(t, q) == At(u, q)
    ensures At(t[1..], q) == At(u[1..], q)
  {
    hide At;
    AtCons(t[0], t[1..], q);
    AtCons(u[0], u[1..], q);
    assert t == [t[0]] + t[1..] && u == [u[0]] + u[1..];
    if t[0].position == q {
      assert At(t[1..], q) == At(t, q)[1..] && At(u[1..], q) == At(u, q)[1..];
    } else {
      assert [] + At(t[1..], q) == At(t[1..], q) && [] + At(u[1..], q) == At(u[1..], q);
    }
  }

  /** Moves `x` left from the end of `s` past every row it comes before. */
  function Insert(s: seq<Row>, x: Row, asc: bool): seq<Row> {
    if s == [] || !Before(x, s[|s| - 1], asc) then s + [x]
    else Insert(s[..|s| - 1], x, asc) + [s[|s| - 1]]
  }

  function StableSort(s: seq<Row>, asc: bool): (t: seq<Row>)
  {
    if s == [] then [] else Insert(StableSort(s[..|s| - 1], asc), s[|s| - 1], asc)
  }

  lemma {:induction false} InsertMembers(s: seq<Row>, x: Row, asc: bool)
    ensures multiset(Insert(s, x, asc)) == multiset(s) + multiset{x}
  {
    if s != [] && Before(x, s[|s| - 1], asc) {
      InsertMembers(s[..|s| - 1], x, asc);
      assert s == s[..|s| - 1] + [s[|s| - 1]];
    }
  }

  lemma {:induction false} InsertSorted(s: seq<Row>, x: Row, asc: bool)
    requires Sorted(s, asc)
    ensures Sorted(Insert(s, x, asc), asc)
  {
    if s != [] && Before(x, s[|s| - 1], asc) {
      var front, y := s[..|s| - 1], s[|s| - 1];
      InsertSorted(front, x, asc);
      InsertMembers(front, x, asc);
      var r := Insert(front, x, asc);
      forall i | 0 <= i < |r|
        ensures !Before(y, r[i], asc)
      {
        assert r[i] in multiset(r);
        assert r[i] == x || r[i] in front;
      }
    }
  }

  /** Insertion leaves the rows of every position in order, the new one last. */
  lemma {:induction false} InsertAt(s: seq<Row>, x: Row, asc: bool, p: Position)
    requires Sorted(s, asc)
    ensures At(Insert(s, x, asc), p) == At(s + [x], p)
  {
    if s != [] && Before(x, s[|s| - 1], asc) {
      var front, y := s[..|s| - 1], s[|s| - 1];
      hide At, Sorted;
      SortedFront(s, asc);
      InsertAt(front, x, asc, p);
      AtConcat(Insert(front, x, asc), [y], p);
      SwapAt(front, x, y, p);
      assert s == front + [y];
    }
  }

  lemma SortedFront(s: seq<Row>, asc: bool)
    requires Sorted(s, asc) && s != []
    ensures Sorted(s[..|s| - 1], asc)
  {
  }

  lemma SwapAt(front: seq<Row>, x: Row, y: Row, p: Position)
    requires x.position != y.position
    ensures At(front + [x], p) + At([y], p) == At(front + [y] + [x], p)
  {
    assert (front + [x])[..|front|] == front == (front + [y])[..|front|];
    assert (front + [y] + [x])[..|front| + 1] == front + [y];
    assert [y][..0] == [];
  }

  lemma {:induction false} StableSortIsStable(s: seq<Row>, asc: bool)
    ensures IsStableSort(StableSort(s, asc), s, asc)
    ensures multiset(StableSort(s, asc)) == multiset(s)
  {
    if s != [] {
      var front, x := s[..|s| - 1], s[|s| - 1];
      assert s == front + [x];
      StableSortIsStable(front, asc);
      var t := StableSort(front, asc);
      InsertMembers(t, x, asc);
      InsertSorted(t, x, asc);
      forall p
        ensures At(StableSort(s, asc), p) == At(s, p)
      {
        InsertAt(t, x, asc, p);
        AtConcat(t, [x], p);
        AtConcat(front, [x], p);
      }
    }
  }

  /** Two ordered streams as one, the first stream's rows first where positions meet. */
  function Merge(a: seq<Row>, b: seq<Row>, asc: bool): (m: seq<Row>)
    ensures |m| == |a| + |b|
    decreases |a| + |b|
  {
    if a == [] then b
    else if b == [] then a
    else if Before(b[0], a[0], asc) then [b[0]] + Merge(a, b[1..], asc)
    else [a[0]] + Merge(a[1..], b, asc)
  }

  lemma {:induction false} MergeMembers(a: seq<Row>, b: seq<Row>, asc: bool)
    ensures multiset(Merge(a, b, asc)) == multiset(a) + multiset(b)
    decreases |a| + |b|
  {
    if a != [] && b != [] {
      assert a == [a[0]] + a[1..] && b == [b[0]] + b[1..];
      if Before(b[0], a[0], asc) {
        MergeMembers(a, b[1..], asc);
      } else {
        MergeMembers(a[1..], b, asc);
      }
    }
  }

  lemma SortedCons(x: Row, s: seq<Row>, asc: bool)
    requires Sorted(s, asc)
    requires forall y | y in multiset(s) :: !Before(y, x, asc)
    ensures Sorted([x] + s, asc)
  {
    forall i | 0 <= i < |s|
      ensures !Before(s[i], x, asc)
    {
      assert s[i] in multiset(s);
    }
  }

  lemma NoneBeforeHead(s: seq<Row>, asc: bool, y: Row)
    requires Sorted(s, asc) && s != [] && y in multiset(s)
    ensures !Before(y, s[0], asc)
  {
    var i :| 0 <= i < |s| && s[i] == y;
  }

  lemma {:induction false} MergeIsStable(a: seq<Row>, b: seq<Row>, asc: bool)
    requires Sorted(a, asc) && Sorted(b, asc)
    ensures IsStableSort(Merge(a, b, asc), a + b, asc)
    decreases |a| + |b|
  {
    if a == [] {
      assert a + b == b;
    } else if b == [] {
      assert a + b == a;
    } else {
      hide Sorted, At, Merge;
      forall y | y in multiset(a)
        ensures !Before(y, a[0], asc)
      {
        NoneBeforeHead(a, asc, y);
      }
      forall y | y in multiset(b)
        ensures !Before(y, b[0], asc)
      {
        NoneBeforeHead(b, asc, y);
      }
      if Before(b[0], a[0], asc) {
        MergeTakesSecond(a, b, asc);
      } else {
        MergeTakesFirst(a, b, asc);
      }
    }
  }

  lemma {:induction false} MergeTakesSecond(a: seq<Row>, b: seq<Row>, asc: bool)
    requires Sorted(a, asc) && Sorted(b, asc) && a != [] && b != []
    requires Before(b[0], a[0], asc)
    requires forall y | y in multiset(a) :: !Before(y, a[0], asc)
    requires forall y | y in multiset(b) :: !Before(y, b[0], asc)
    ensures IsStableSort(Merge(a, b, asc), a + b, asc)
    decreases |a| + |b|, 0
  {
    var m := Merge(a, b[1..], asc);
    MergeMembers(a, b[1..], asc);
    SecondHeadFirst(a, b, asc, m);
    FirstHasNone(a, b[0], asc);
    hide Sorted, At, Merge, Before;
    MergeStep(a, b, asc);
    SortedTail(b, asc);
    MergeIsStable(a, b[1..], asc);
    SortedCons(b[0], m, asc);
    forall p
      ensures At([b[0]] + m, p) == At(a + b, p)
    {
      SecondHeadAt(a, b, m, p);
    }
  }

  lemma SecondHeadFirst(a: seq<Row>, b: seq<Row>, asc: bool, m: seq<Row>)
    requires a != [] && b != [] && Before(b[0], a[0], asc)
    requires forall y | y in multiset(a) :: !Before(y, a[0], asc)
    requires forall y | y in multiset(b) :: !Before(y, b[0], asc)
    requires multiset(m) == multiset(a) + multiset(b[1..])
    ensures forall y | y in multiset(m) :: !Before(y, b[0], asc)
  {
    assert b == [b[0]] + b[1..];
  }

  lemma FirstHasNone(a: seq<Row>, x: Row, asc: bool)
    requires a != [] && Before(x, a[0], asc)
    requires forall y | y in multiset(a) :: !Before(y, a[0], asc)
    ensures At(a, x.position) == []
  {
    AtNone(a, x.position);
    assert forall i | 0 <= i < |a| :: a[i] in multiset(a);
  }

  lemma SecondHeadAt(a: seq<Row>, b: seq<Row>, m: seq<Row>, p: Position)
    requires b != [] && At(m, p) == At(a + b[1..], p) && At(a, b[0].position) == []
    ensures At([b[0]] + m, p) == At(a + b, p)
  {
    hide At;
    AtCons(b[0], m, p);
    AtCons(b[0], b[1..], p);
    assert b == [b[0]] + b[1..];
    AtConcat(a, b[1..], p);
    AtConcat(a, b, p);
  }

  lemma {:induction false} MergeTakesFirst(a: seq<Row>, b: seq<Row>, asc: bool)
    requires Sorted(a, asc) && Sorted(b, asc) && a != [] && b != []
    requires !Before(b[0], a[0], asc)
    requires forall y | y in multiset(a) :: !Before(y, a[0], asc)
    requires forall y | y in multiset(b) :: !Before(y, b[0], asc)
    ensures IsStableSort(Merge(a, b, asc), a + b, asc)
    decreases |a| + |b|, 0
  {
    var m := Merge(a[1..], b, asc);
    MergeMembers(a[1..], b, asc);
    FirstHeadFirst(a, b, asc, m);
    hide Sorted, At, Merge, Before;
    MergeStep(a, b, asc);
    SortedTail(a, asc);
    MergeIsStable(a[1..], b, asc);
    SortedCons(a[0], m, asc);
    forall p
      ensures At([a[0]] + m, p) == At(a + b, p)
    {
      FirstHeadAt(a, b, m, p);
    }
  }

  lemma FirstHeadFirst(a: seq<Row>, b: seq<Row>, asc: bool, m: seq<Row>)
    requires a != [] && b != [] && !Before(b[0], a[0], asc)
    requires forall y | y in multiset(a) :: !Before(y, a[0], asc)
    requires forall y | y in multiset(b) :: !Before(y, b[0], asc)
    requires multiset(m) == multiset(a[1..]) + multiset(b)
    ensures forall y | y in multiset(m) :: !Before(y, a[0], asc)
  {
    assert a == [a[0]] + a[1..];
  }

  lemma FirstHeadAt(a: seq<Row>, b: seq<Row>, m: seq<Row>, p: Position)
    requires a != [] && At(m, p) == At(a[1..] + b, p)
    ensures At([a[0]] + m, p) == At(a + b, p)
  {
    hide At;
    AtCons(a[0], m, p);
    AtCons(a[0], a[1..], p);
    assert a == [a[0]] + a[1..];
    AtConcat(a[1..], b, p);
    AtConcat(a, b, p);
  }

  /** Sorting two ordered streams one behind the other merges them. */
  lemma SortIsMerge(a: seq<Row>, b: seq<Row>, asc: bool)
    requires Sorted(a, asc) && Sorted(b, asc)
    ensures StableSort(a + b, asc) == Merge(a, b, asc)
  {
    MergeIsStable(a, b, asc);
    StableSortIsStable(a + b, asc);
    StableSortUnique(StableSort(a + b, asc), Merge(a, b, asc), asc);
  }

  ghost predicate AgreeUpTo(s: seq<Row>, t: seq<Row>, k: nat) {
    Take(s, k) == Take(t, k)
  }

  /** The first k merged rows need no more than the first k of each stream. */
  lemma {:induction false} MergePrefix(a: seq<Row>, b: seq<Row>, asc: bool, k: nat, m: nat, n: nat)
    requires k <= m && k <= n
    ensures AgreeUpTo(Merge(Take(a, m), Take(b, n), asc), Merge(a, b, asc), k)
    decreases k
  {
    hide Merge, Take, Before, AgreeUpTo;
    if k == 0 {
      AgreeOnNothing(Merge(Take(a, m), Take(b, n), asc), Merge(a, b, asc));
    } else if a == [] || b == [] {
      MergeWithNone(a, b, asc, k, m, n);
    } else if Before(b[0], a[0], asc) {
      MergePrefix(a, b[1..], asc, k - 1, m, n - 1);
      AgreeAfterSecond(a, b, asc, k, m, n);
    } else {
      MergePrefix(a[1..], b, asc, k - 1, m - 1, n);
      AgreeAfterFirst(a, b, asc, k, m, n);
    }
  }

  lemma AgreeOnNothing(s: seq<Row>, t: seq<Row>)
    ensures AgreeUpTo(s, t, 0)
  {
  }

  lemma AgreeAfterSecond(a: seq<Row>, b: seq<Row>, asc: bool, k: nat, m: nat, n: nat)
    requires 0 < k <= m && k <= n && a != [] && b != [] && Before(b[0], a[0], asc)
    requires AgreeUpTo(Merge(Take(a, m), Take(b[1..], n - 1), asc), Merge(a, b[1..], asc), k - 1)
    ensures AgreeUpTo(Merge(Take(a, m), Take(b, n), asc), Merge(a, b, asc), k)
  {
    hide Merge, Take, Before, AgreeUpTo;
    TakeTail(a, m);
    TakeTail(b, n);
    MergeStep(a, b, asc);
    MergeStep(Take(a, m), Take(b, n), asc);
    AgreeCons(b[0], Merge(Take(a, m), Take(b[1..], n - 1), asc), Merge(a, b[1..], asc), k);
  }

  lemma AgreeAfterFirst(a: seq<Row>, b: seq<Row>, asc: bool, k: nat, m: nat, n: nat)
    requires 0 < k <= m && k <= n && a != [] && b != [] && !Before(b[0], a[0], asc)
    requires AgreeUpTo(Merge(Take(a[1..], m - 1), Take(b, n), asc), Merge(a[1..], b, asc), k - 1)
    ensures AgreeUpTo(Merge(Take(a, m), Take(b, n), asc), Merge(a, b, asc), k)
  {
    hide Merge, Take, Before, AgreeUpTo;
    TakeTail(a, m);
    TakeTail(b, n);
    MergeStep(a, b, asc);
    MergeStep(Take(a, m), Take(b, n), asc);
    AgreeCons(a[0], Merge(Take(a[1..], m - 1), Take(b, n), asc), Merge(a[1..], b, asc), k);
  }

  lemma MergeStep(a: seq<Row>, b: seq<Row>, asc: bool)
    requires a != [] && b != []
    ensures Merge(a, b, asc) ==
            if Before(b[0], a[0], asc) then [b[0]] + Merge(a, b[1..], asc) else [a[0]] + Merge(a[1..], b, asc)
  {
  }

  lemma MergeWithNone(a: seq<Row>, b: seq<Row>, asc: bool, k: nat, m: nat, n: nat)
    requires k <= m && k <= n && (a == [] || b == [])
    ensures AgreeUpTo(Merge(Take(a, m), Take(b, n), asc), Merge(a, b, asc), k)
  {
    var s := if a == [] then b else a;
    assert Merge(a, b, asc) == s;
    assert Merge(Take(a, m), Take(b, n), asc) == Take(s, if a == [] then n else m);
  }

  lemma TakeTail(s: seq<Row>, n: nat)
    requires s != [] && n > 0
    ensures Take(s, n) != [] && Take(s, n)[0] == s[0] && Take(s, n)[1..] == Take(s[1..], n - 1)
  {
  }

  lemma AgreeCons(x: Row, s: seq<Row>, t: seq<Row>, k: nat)
    requires k > 0 && AgreeUpTo(s, t, k - 1)
    ensures AgreeUpTo([x] + s, [x] + t, k)
  {
    assert Take([x] + s, k) == [x] + Take(s, k - 1);
    assert Take([x] + t, k) == [x] + Take(t, k - 1);
  }
}
