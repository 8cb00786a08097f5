/** The project table: paging by creation time, and one tenant never touching another. */
module Projects {
  import opened Prelude
  import opened Table

  /** Times are in microseconds, as the database keeps them. */
  datatype Project = Project(
    id: Str, organization: Str, createdBy: Str, name: Str, slug: Str, description: Option<Str>,
    archivedAt: Option<int>, createdAt: int, updatedAt: int)

  // ---------- queries ----------

  datatype Filter = OfOrganization(organization: Str) | NotArchived | CreatedBefore(milliseconds: int)

  predicate Satisfies(f: Filter, row: Project) {
    match f
    case OfOrganization(organization) => row.organization == organization
    case NotArchived => row.archivedAt.None?
    case CreatedBefore(milliseconds) => row.createdAt < milliseconds * 1000
  }

  predicate SatisfiesAll(filters: seq<Filter>, row: Project) { forall f <- filters :: Satisfies(f, row) }

  datatype Query = Query(organization: Str, limit: nat, includeArchived: bool)

  /** What `list` is asked for: the organisation's rows, archived or not, created before the cursor. */
  predicate Wanted(q: Query, cursor: Option<int>, row: Project) {
    && row.organization == q.organization
    && (q.includeArchived || row.archivedAt.None?)
    && (cursor.None? || row.createdAt < cursor.value * 1000)
  }

  function Matching(rows: seq<Project>, q: Query, cursor: Option<int>): seq<Project> {
    Where(rows, row => Wanted(q, cursor, row))
  }

  predicate Newer(a: Project, b: Project) { a.createdAt >= b.createdAt }

  /** A possible answer of the database: newest first, rows of one instant in any order. */
  ghost predicate Arranged(all: seq<Project>, rows: seq<Project>) {
    Sorted(Newer, all) && multiset(all) == multiset(rows)
  }

  datatype Page = Page(items: seq<Project>, nextCursor: Option<int>)

  /** A JavaScript date keeps milliseconds. */
  function Millis(row: Project): int { row.createdAt / 1000 }

  /** `limit + 1` rows are fetched; the extra one only says that there is more. */
  function PageOf(all: seq<Project>, limit: nat): Page {
    if |all| <= limit then Page(all, None)
    else Page(all[..limit], if limit == 0 then None else Some(Millis(all[limit - 1])))
  }

  /** A page: the selected rows as often as they are stored, newest first, cut at the limit, and its cursor. */
  lemma PageExactly(rows: seq<Project>, q: Query, cursor: Option<int>, all: seq<Project>, row: Project)
    requires Arranged(all, Matching(rows, q, cursor))
    ensures multiset(all)[row]
         == if row.organization == q.organization && (q.includeArchived || row.archivedAt == None)
               && (cursor.Some? ==> row.createdAt < 1000 * cursor.value)
            then multiset(rows)[row] else 0
    ensures forall i, j | 0 <= i < j < |all| :: all[i].createdAt >= all[j].createdAt
    ensures PageOf(all, q.limit).items == if |all| > q.limit then all[..q.limit] else all
    ensures PageOf(all, q.limit).nextCursor
         == if |all| > q.limit > 0 then Some(all[q.limit - 1].createdAt / 1000) else None
  {
    WhereCounts(rows, r => Wanted(q, cursor, r), row);
    forall i, j | 0 <= i < j < |all| ensures all[i].createdAt >= all[j].createdAt {
      assert Newer(all[i], all[j]);
    }
  }

  // ---------- counting rows ----------

  /** A filter commutes with rearranging. */
  lemma WhereOfSame(xs: seq<Project>, ys: seq<Project>, p: Project -> bool)
    requires multiset(xs) == multiset(ys)
    ensures multiset(Where(xs, p)) == multiset(Where(ys, p))
  {
    forall x ensures multiset(Where(xs, p))[x] == multiset(Where(ys, p))[x] {
      WhereCounts(xs, p, x);
      WhereCounts(ys, p, x);
    }
  }

  lemma WhereOfWhere(xs: seq<Project>, p: Project -> bool, q: Project -> bool, both: Project -> bool)
    requires forall x :: both(x) == (p(x) && q(x))
    ensures multiset(Where(xs, both)) == multiset(Where(Where(xs, p), q))
  {
    forall x ensures multiset(Where(xs, both))[x] == multiset(Where(Where(xs, p), q))[x] {
      WhereCounts(xs, both, x);
      WhereCounts(xs, p, x);
      WhereCounts(Where(xs, p), q, x);
    }
  }

  /** Splitting a newest-first list at a cursor no row of the first part is older than. */
  lemma {:induction false} WhereOfSplit(kept: seq<Project>, rest: seq<Project>, p: Project -> bool)
    requires forall x <- kept :: !p(x)
    ensures Where(kept + rest, p) == Where(rest, p)
    decreases |kept|
  {
    if kept == [] {
      assert kept + rest == rest;
    } else {
      assert kept[0] in kept && (kept + rest)[1..] == kept[1..] + rest;
      assert forall x <- kept[1..] :: x in kept;
      WhereOfSplit(kept[1..], rest, p);
    }
  }

  // ---------- one page ----------

  predicate Before(cursor: int, row: Project) { row.createdAt < cursor * 1000 }

  /** The extra row was made in the same millisecond as the last one kept. */
  predicate Splits(all: seq<Project>, limit: nat) {
    0 < limit < |all| && Millis(all[limit]) == Millis(all[limit - 1])
  }

  lemma LastIsWanted(rows: seq<Project>, q: Query, cursor: Option<int>, all: seq<Project>, i: nat)
    requires Arranged(all, Matching(rows, q, cursor)) && i < |all|
    ensures Wanted(q, cursor, all[i])
  {
    assert all[i] in multiset(all) && all[i] in multiset(Matching(rows, q, cursor));
    WhereCounts(rows, row => Wanted(q, cursor, row), all[i]);
  }

  lemma KeptNotBefore(all: seq<Project>, limit: nat, x: Project)
    requires Sorted(Newer, all) && 0 < limit <= |all| && x in all[..limit]
    ensures !Before(Millis(all[limit - 1]), x)
  {
    var i :| 0 <= i < limit && all[i] == x;
    assert i < limit - 1 ==> Newer(all[i], all[limit - 1]);
  }

  lemma TightenedMatching(rows: seq<Project>, q: Query, cursor: Option<int>, last: Project)
    requires Wanted(q, cursor, last)
    ensures multiset(Matching(rows, q, Some(Millis(last))))
         == multiset(Where(Matching(rows, q, cursor), row => Before(Millis(last), row)))
  {
    forall x ensures Wanted(q, Some(Millis(last)), x) == (Wanted(q, cursor, x) && Before(Millis(last), x)) {
      CursorTightens(q, cursor, last, x);
    }
    WhereOfWhere(rows, row => Wanted(q, cursor, row), row => Before(Millis(last), row),
                 row => Wanted(q, Some(Millis(last)), row));
  }

  lemma SelectedFromRest(all: seq<Project>, matching: seq<Project>, n: nat, p: Project -> bool)
    requires multiset(all) == multiset(matching) && n <= |all| && forall x <- all[..n] :: !p(x)
    ensures multiset(Where(matching, p)) == multiset(Where(all[n..], p))
  {
    assert Where(all, p) == Where(all[n..], p) by {
      assert all == all[..n] + all[n..];
      WhereOfSplit(all[..n], all[n..], p);
    }
    WhereOfSame(all, matching, p);
  }

  /** After a page, the rows its cursor still selects. */
  lemma CursorSelects(rows: seq<Project>, q: Query, cursor: Option<int>, all: seq<Project>)
    requires Arranged(all, Matching(rows, q, cursor)) && 0 < q.limit < |all|
    ensures var next := PageOf(all, q.limit).nextCursor;
      && next.Some?
      && multiset(Matching(rows, q, next)) == multiset(Where(all[q.limit..], row => Before(next.value, row)))
  {
    var last := all[q.limit - 1];
    LastIsWanted(rows, q, cursor, all, q.limit - 1);
    TightenedMatching(rows, q, cursor, last);
    forall x | x in all[..q.limit] ensures !Before(Millis(last), x) { KeptNotBefore(all, q.limit, x); }
    SelectedFromRest(all, Matching(rows, q, cursor), q.limit, row => Before(Millis(last), row));
  }

  lemma CursorTightens(q: Query, cursor: Option<int>, last: Project, x: Project)
    requires Wanted(q, cursor, last)
    ensures Wanted(q, Some(Millis(last)), x) == (Wanted(q, cursor, x) && Before(Millis(last), x))
  {
  }

  /** Nothing is lost at a page's end exactly when it does not split a millisecond. */
  lemma PageLoses(rows: seq<Project>, q: Query, cursor: Option<int>, all: seq<Project>)
    requires Arranged(all, Matching(rows, q, cursor)) && 0 < q.limit < |all|
    ensures var left := Matching(rows, q, PageOf(all, q.limit).nextCursor);
      && |left| <= |all| - q.limit
      && (|left| == |all| - q.limit <==> !Splits(all, q.limit))
  {
    CursorSelects(rows, q, cursor, all);
    var next := PageOf(all, q.limit).nextCursor;
    var rest, left := all[q.limit..], Matching(rows, q, next);
    var before := row => Before(next.value, row);
    WhereShrinks(rest, before);
    assert |left| == |multiset(left)| == |multiset(Where(rest, before))| == |Where(rest, before)|;
    assert rest[0] == all[q.limit] && Newer(all[q.limit - 1], all[q.limit]);
    forall x | x in rest ensures before(rest[0]) ==> before(x) {
      var i :| 0 <= i < |rest| && rest[i] == x;
      assert rest[i] == all[q.limit + i];
    }
    assert (forall x <- rest :: before(x)) <==> before(rest[0]);
    assert before(rest[0]) <==> !Splits(all, q.limit);
  }

  // ---------- following the cursor ----------

  /**
   * Pages fetched one after the other from one table, each by the cursor of the page before. `alls[k]`
   * is the database's whole answer to the k-th query, of which the page shows the beginning.
   */
  ghost predicate Following(rows: seq<Project>, q: Query, cursor: Option<int>, alls: seq<seq<Project>>)
    decreases |alls|
  {
    && alls != []
    && Arranged(alls[0], Matching(rows, q, cursor))
    && (|alls| > 1 ==>
          PageOf(alls[0], q.limit).nextCursor.Some?
          && Following(rows, q, PageOf(alls[0], q.limit).nextCursor, alls[1..]))
  }

  /** The caller went on until there was no cursor. */
  ghost predicate ToTheEnd(q: Query, alls: seq<seq<Project>>)
    requires alls != []
  {
    PageOf(alls[|alls| - 1], q.limit).nextCursor.None?
  }

  function Items(q: Query, alls: seq<seq<Project>>): seq<Project> {
    if alls == [] then [] else PageOf(alls[0], q.limit).items + Items(q, alls[1..])
  }

  predicate NoSplit(q: Query, alls: seq<seq<Project>>) { forall all <- alls :: !Splits(all, q.limit) }

  /** No row comes back more often than the table holds it, and the pages come newest first. */
  lemma {:induction false} NeverTwice(rows: seq<Project>, q: Query, cursor: Option<int>, alls: seq<seq<Project>>)
    requires Following(rows, q, cursor, alls)
    ensures multiset(Items(q, alls)) <= multiset(Matching(rows, q, cursor))
    ensures Sorted(Newer, Items(q, alls))
    decreases |alls|
  {
    var all := alls[0];
    if |alls| == 1 {
      assert Items(q, alls) == PageOf(all, q.limit).items + [];
      PrefixOfArranged(all, Matching(rows, q, cursor), |PageOf(all, q.limit).items|);
    } else {
      var next := PageOf(all, q.limit).nextCursor;
      var rest := Items(q, alls[1..]);
      NeverTwice(rows, q, next, alls[1..]);
      CursorSelects(rows, q, cursor, all);
      SubOfRest(all, Matching(rows, q, cursor), q.limit, next.value, rest, Matching(rows, q, next));
    }
  }

  lemma PrefixOfArranged(all: seq<Project>, rows: seq<Project>, n: nat)
    requires Arranged(all, rows) && n <= |all|
    ensures multiset(all[..n]) <= multiset(rows) && Sorted(Newer, all[..n])
  {
    assert all == all[..n] + all[n..];
  }

  lemma SubOfRest(all: seq<Project>, matching: seq<Project>, n: nat, cursor: int, rest: seq<Project>,
                  left: seq<Project>)
    requires Arranged(all, matching) && 0 < n <= |all| && cursor == Millis(all[n - 1])
    requires multiset(left) == multiset(Where(all[n..], row => Before(cursor, row)))
    requires multiset(rest) <= multiset(left) && Sorted(Newer, rest)
    ensures multiset(all[..n] + rest) <= multiset(matching) && Sorted(Newer, all[..n] + rest)
  {
    forall x ensures multiset(rest)[x] <= multiset(all[n..])[x] && (x in rest ==> Before(cursor, x)) {
      WhereCounts(all[n..], row => Before(cursor, row), x);
      assert x in rest <==> multiset(rest)[x] > 0;
    }
    JoinedWithin(all, n, rest);
    JoinedSorted(all, n, rest);
  }

  lemma JoinedWithin(all: seq<Project>, n: nat, rest: seq<Project>)
    requires n <= |all| && multiset(rest) <= multiset(all[n..])
    ensures multiset(all[..n] + rest) <= multiset(all)
  {
    assert all == all[..n] + all[n..];
  }

  lemma JoinedSorted(all: seq<Project>, n: nat, rest: seq<Project>)
    requires Sorted(Newer, all) && Sorted(Newer, rest) && 0 < n <= |all|
    requires forall x <- rest :: Before(Millis(all[n - 1]), x)
    ensures Sorted(Newer, all[..n] + rest)
  {
    var joined := all[..n] + rest;
    forall i, j | 0 <= i < j < |joined| ensures Newer(joined[i], joined[j]) {
      if i < n <= j {
        assert joined[j] == rest[j - n] && rest[j - n] in rest && joined[i] == all[i] && joined[i] in all[..n];
        KeptNotBefore(all, n, all[i]);
      }
    }
  }

  /** With a limit of at least one, following the cursor ends. */
  lemma {:induction false} FollowingEnds(rows: seq<Project>, q: Query, cursor: Option<int>, alls: seq<seq<Project>>)
    requires Following(rows, q, cursor, alls) && q.limit >= 1
    ensures |alls| <= |Matching(rows, q, cursor)| + 1
    decreases |alls|
  {
    if |alls| > 1 {
      assert |alls[0]| == |multiset(alls[0])| == |multiset(Matching(rows, q, cursor))| == |Matching(rows, q, cursor)|;
      PageLoses(rows, q, cursor, alls[0]);
      FollowingEnds(rows, q, PageOf(alls[0], q.limit).nextCursor, alls[1..]);
    }
  }

  lemma NoSplitStep(q: Query, alls: seq<seq<Project>>)
    requires alls != []
    ensures NoSplit(q, alls) <==> !Splits(alls[0], q.limit) && NoSplit(q, alls[1..])
  {
    assert alls == [alls[0]] + alls[1..];
  }

  lemma ArrangedSize(all: seq<Project>, rows: seq<Project>)
    requires Arranged(all, rows)
    ensures |all| == |rows|
  {
    assert |all| == |multiset(all)| == |multiset(rows)| == |rows|;
  }

  lemma {:induction false} FollowingCounts(rows: seq<Project>, q: Query, cursor: Option<int>, alls: seq<seq<Project>>)
    requires Following(rows, q, cursor, alls) && ToTheEnd(q, alls) && q.limit >= 1
    ensures |Items(q, alls)| <= |Matching(rows, q, cursor)|
    ensures |Items(q, alls)| == |Matching(rows, q, cursor)| <==> NoSplit(q, alls)
    decreases |alls|
  {
    NoSplitStep(q, alls);
    ArrangedSize(alls[0], Matching(rows, q, cursor));
    if |alls| > 1 {
      PageLoses(rows, q, cursor, alls[0]);
      FollowingCounts(rows, q, PageOf(alls[0], q.limit).nextCursor, alls[1..]);
    }
  }

  lemma SameSizeSame(xs: multiset<Project>, ys: multiset<Project>)
    requires xs <= ys && |xs| == |ys|
    ensures xs == ys
  {
    assert ys == xs + (ys - xs);
  }

  /**
   * Following the cursor from null to the end gives a whole answer to the query exactly when no page
   * ended inside a millisecond: when, at each page's end, the extra row fetched is of an earlier one.
   */
  lemma PagingByPages(rows: seq<Project>, q: Query, alls: seq<seq<Project>>)
    requires Following(rows, q, None, alls) && ToTheEnd(q, alls) && q.limit >= 1
    ensures Arranged(Items(q, alls), Matching(rows, q, None)) <==> NoSplit(q, alls)
  {
    NeverTwice(rows, q, None, alls);
    FollowingCounts(rows, q, None, alls);
    var items, all := Items(q, alls), Matching(rows, q, None);
    assert |items| == |multiset(items)| && |all| == |multiset(all)|;
    if NoSplit(q, alls) {
      SameSizeSame(multiset(items), multiset(all));
    }
  }

  // ---------- the same, read off the table ----------

  /** The k-th page end, counting `limit` rows a page, falls between two rows of one millisecond. */
  predicate Cuts(sorted: seq<Project>, limit: nat, k: nat) {
    0 < k * limit < |sorted| && Millis(sorted[k * limit - 1]) == Millis(sorted[k * limit])
  }

  ghost predicate NoCut(sorted: seq<Project>, limit: nat) { forall k: nat :: !Cuts(sorted, limit, k) }

  lemma OnePageOn(k: nat, limit: nat)
    ensures (k + 1) * limit == k * limit + limit
  {
  }

  lemma CutsBehind(sorted: seq<Project>, limit: nat, k: nat)
    requires 1 <= k && 1 <= limit < |sorted|
    ensures Cuts(sorted, limit, k + 1) <==> Cuts(sorted[limit..], limit, k)
  {
    OnePageOn(k, limit);
    OnePageOn(k - 1, limit);
  }

  lemma NoCutStep(sorted: seq<Project>, limit: nat)
    requires limit >= 1
    ensures |sorted| <= limit ==> NoCut(sorted, limit)
    ensures |sorted| > limit ==> (NoCut(sorted, limit) <==> !Cuts(sorted, limit, 1) && NoCut(sorted[limit..], limit))
  {
    if |sorted| <= limit {
      forall k: nat ensures !Cuts(sorted, limit, k) {
        if k > 0 { OnePageOn(k - 1, limit); }
      }
    } else {
      forall k: nat | k >= 1 ensures Cuts(sorted, limit, k + 1) <==> Cuts(sorted[limit..], limit, k) {
        CutsBehind(sorted, limit, k);
      }
      NoCutFrom(sorted, limit);
    }
  }

  lemma NoCutFrom(sorted: seq<Project>, limit: nat)
    requires limit < |sorted|
    requires forall k: nat | k >= 1 :: Cuts(sorted, limit, k + 1) <==> Cuts(sorted[limit..], limit, k)
    ensures NoCut(sorted, limit) <==> !Cuts(sorted, limit, 1) && NoCut(sorted[limit..], limit)
  {
    if !Cuts(sorted, limit, 1) && NoCut(sorted[limit..], limit) {
      forall k: nat ensures !Cuts(sorted, limit, k) {
        if k > 1 { assert !Cuts(sorted[limit..], limit, k - 1); }
      }
    }
    if NoCut(sorted, limit) {
      forall k: nat ensures !Cuts(sorted[limit..], limit, k) {
        assert !Cuts(sorted, limit, k + 1);
      }
    }
  }

  function Times(rows: seq<Project>): seq<int> { seq(|rows|, i requires 0 <= i < |rows| => rows[i].createdAt) }

  predicate Later(a: int, b: int) { a >= b }

  lemma TimesAround(before: seq<Project>, row: Project, behind: seq<Project>)
    ensures multiset(Times(before + [row] + behind)) == multiset{row.createdAt} + multiset(Times(before + behind))
  {
    assert Times(before + [row] + behind) == Times(before) + [row.createdAt] + Times(behind);
    assert Times(before + behind) == Times(before) + Times(behind);
  }

  lemma TakeOut(ys: seq<Project>, row: Project) returns (before: seq<Project>, behind: seq<Project>)
    requires row in ys
    ensures ys == before + [row] + behind
    ensures multiset(ys) == multiset{row} + multiset(before + behind)
  {
    var j :| 0 <= j < |ys| && ys[j] == row;
    before, behind := ys[..j], ys[j + 1..];
    assert ys == before + [row] + behind;
  }

  lemma {:induction false} TimesOfSame(xs: seq<Project>, ys: seq<Project>)
    requires multiset(xs) == multiset(ys)
    ensures multiset(Times(xs)) == multiset(Times(ys))
    decreases |xs|
  {
    assert |xs| == |multiset(xs)| == |multiset(ys)| == |ys|;
    if xs != [] {
      assert xs[0] in multiset(ys);
      var before, behind := TakeOut(ys, xs[0]);
      TailMultiset(xs);
      assert multiset(ys) - multiset{xs[0]} == multiset(before + behind);
      TimesOfSame(xs[1..], before + behind);
      TimesAround(before, xs[0], behind);
      TimesAround([], xs[0], xs[1..]);
      assert [] + [xs[0]] + xs[1..] == xs && [] + xs[1..] == xs[1..];
    }
  }

  /** Rows of one instant may change places, but every place keeps its time. */
  lemma SameTimes(xs: seq<Project>, ys: seq<Project>, rows: seq<Project>)
    requires Arranged(xs, rows) && Arranged(ys, rows)
    ensures Times(xs) == Times(ys)
  {
    TimesOfSame(xs, ys);
    forall i, j | 0 <= i < j < |xs| ensures Later(Times(xs)[i], Times(xs)[j]) { assert Newer(xs[i], xs[j]); }
    forall i, j | 0 <= i < j < |ys| ensures Later(Times(ys)[i], Times(ys)[j]) { assert Newer(ys[i], ys[j]); }
    SortedUnique(Later, Times(xs), Times(ys));
  }

  lemma SameSplit(xs: seq<Project>, ys: seq<Project>, limit: nat)
    requires Times(xs) == Times(ys) && limit >= 1
    ensures Splits(xs, limit) <==> Cuts(ys, limit, 1)
    ensures limit < |xs| ==> PageOf(xs, limit).nextCursor == PageOf(ys, limit).nextCursor
  {
    assert |xs| == |Times(xs)| == |ys|;
    forall i | 0 <= i < |xs| ensures xs[i].createdAt == ys[i].createdAt {
      assert xs[i].createdAt == Times(xs)[i] && ys[i].createdAt == Times(ys)[i];
    }
  }

  lemma {:induction false} WhereEvery(rows: seq<Project>, p: Project -> bool)
    requires forall x <- rows :: p(x)
    ensures Where(rows, p) == rows
    decreases |rows|
  {
    if rows != [] {
      assert rows == [rows[0]] + rows[1..];
      assert forall x <- rows[1..] :: x in rows;
      WhereEvery(rows[1..], p);
    }
  }

  /** Where a page's end cuts no millisecond, the rows behind it are what the next query asks for. */
  lemma RestIsNext(rows: seq<Project>, q: Query, cursor: Option<int>, sorted: seq<Project>)
    requires Arranged(sorted, Matching(rows, q, cursor)) && 0 < q.limit < |sorted| && !Splits(sorted, q.limit)
    ensures Arranged(sorted[q.limit..], Matching(rows, q, PageOf(sorted, q.limit).nextCursor))
  {
    CursorSelects(rows, q, cursor, sorted);
    var rest, last := sorted[q.limit..], sorted[q.limit - 1];
    assert Newer(last, sorted[q.limit]);
    forall x <- rest ensures Before(Millis(last), x) {
      var i :| 0 <= i < |rest| && rest[i] == x;
      assert i > 0 ==> Newer(sorted[q.limit], sorted[q.limit + i]);
    }
    WhereEvery(rest, row => Before(Millis(last), row));
  }

  lemma {:induction false} NoSplitByTable(
    rows: seq<Project>, q: Query, cursor: Option<int>, alls: seq<seq<Project>>, sorted: seq<Project>)
    requires Following(rows, q, cursor, alls) && ToTheEnd(q, alls) && q.limit >= 1
    requires Arranged(sorted, Matching(rows, q, cursor))
    ensures NoSplit(q, alls) <==> NoCut(sorted, q.limit)
    decreases |alls|
  {
    NoSplitStep(q, alls);
    NoCutStep(sorted, q.limit);
    SameTimes(alls[0], sorted, Matching(rows, q, cursor));
    SameSplit(alls[0], sorted, q.limit);
    SameSplit(sorted, sorted, q.limit);
    ArrangedSize(alls[0], Matching(rows, q, cursor));
    ArrangedSize(sorted, Matching(rows, q, cursor));
    if |alls| > 1 && !Splits(alls[0], q.limit) {
      RestIsNext(rows, q, cursor, sorted);
      NoSplitByTable(rows, q, PageOf(alls[0], q.limit).nextCursor, alls[1..], sorted[q.limit..]);
    }
  }

  /**
   * Following the cursor to the end gives the whole answer exactly when no page end cuts a millisecond,
   * counting `limit` rows a page through the rows the table holds, newest first.
   */
  lemma PagingExactly(rows: seq<Project>, q: Query, alls: seq<seq<Project>>, sorted: seq<Project>)
    requires Following(rows, q, None, alls) && ToTheEnd(q, alls) && q.limit >= 1
    requires Arranged(sorted, Matching(rows, q, None))
    ensures Arranged(Items(q, alls), Matching(rows, q, None)) <==> NoCut(sorted, q.limit)
  {
    PagingByPages(rows, q, alls);
    NoSplitByTable(rows, q, None, alls, sorted);
  }

  /** No two rows were made in one millisecond. */
  ghost predicate OnePerMillisecond(rows: seq<Project>) { forall m :: |Within(rows, m)| <= 1 }

  function Within(rows: seq<Project>, m: int): seq<Project> { Where(rows, row => Millis(row) == m) }

  lemma {:induction false} TwoWhere(all: seq<Project>, i: nat, p: Project -> bool)
    requires i + 1 < |all| && p(all[i]) && p(all[i + 1])
    ensures |Where(all, p)| >= 2
    decreases i
  {
    if i > 0 {
      TwoWhere(all[1..], i - 1, p);
    } else {
      assert all[1..][0] == all[1];
      assert |Where(all[1..], p)| >= 1;
    }
  }

  lemma TwoWithin(all: seq<Project>, i: nat)
    requires i + 1 < |all| && Millis(all[i + 1]) == Millis(all[i])
    ensures |Within(all, Millis(all[i]))| >= 2
  {
    TwoWhere(all, i, row => Millis(row) == Millis(all[i]));
  }

  lemma FewerWithin(rows: seq<Project>, q: Query, cursor: Option<int>, all: seq<Project>, m: int)
    requires Arranged(all, Matching(rows, q, cursor))
    ensures |Within(all, m)| <= |Within(Matching(rows, q, None), m)|
  {
    var some, every := Within(all, m), Within(Matching(rows, q, None), m);
    forall x ensures multiset(some)[x] <= multiset(every)[x] {
      WhereCounts(all, row => Millis(row) == m, x);
      WhereCounts(rows, row => Wanted(q, cursor, row), x);
      WhereCounts(rows, row => Wanted(q, None, row), x);
      WhereCounts(Matching(rows, q, None), row => Millis(row) == m, x);
    }
    assert multiset(every) == multiset(some) + (multiset(every) - multiset(some));
    assert |some| == |multiset(some)| && |every| == |multiset(every)|;
  }

  lemma {:induction false} DistinctNeverSplits(rows: seq<Project>, q: Query, cursor: Option<int>,
                                               alls: seq<seq<Project>>)
    requires Following(rows, q, cursor, alls) && OnePerMillisecond(Matching(rows, q, None))
    ensures NoSplit(q, alls)
    decreases |alls|
  {
    NoSplitStep(q, alls);
    if Splits(alls[0], q.limit) {
      TwoWithin(alls[0], q.limit - 1);
      FewerWithin(rows, q, cursor, alls[0], Millis(alls[0][q.limit - 1]));
    }
    if |alls| > 1 {
      DistinctNeverSplits(rows, q, PageOf(alls[0], q.limit).nextCursor, alls[1..]);
    }
  }

  /** Where no two rows share a millisecond, following the cursor to the end gives the whole answer. */
  lemma PagingComplete(rows: seq<Project>, q: Query, alls: seq<seq<Project>>)
    requires Following(rows, q, None, alls) && ToTheEnd(q, alls) && q.limit >= 1
    requires OnePerMillisecond(Matching(rows, q, None))
    ensures Arranged(Items(q, alls), Matching(rows, q, None))
  {
    DistinctNeverSplits(rows, q, None, alls);
    PagingByPages(rows, q, alls);
  }

  lemma WhereOfTwo(a: Project, b: Project, p: Project -> bool)
    ensures Where([a, b], p) == (if p(a) then [a] else []) + (if p(b) then [b] else [])
  {
    assert [a, b][1..] == [b] && [b][1..] == [];
    assert Where([b], p) == if p(b) then [b] else [];
  }

  /** Two rows a microsecond apart, one page each: the second is never shown. */
  lemma SplitLosesRow() returns (rows: seq<Project>, q: Query, alls: seq<seq<Project>>)
    ensures Following(rows, q, None, alls) && ToTheEnd(q, alls) && q.limit == 1
    ensures |Matching(rows, q, None)| == 2 && |Items(q, alls)| == 1
  {
    var older := Project(Lit("a"), Lit("o"), Lit("u"), Lit("A"), Lit("a"), None, None, 1000, 1000);
    var newer := Project(Lit("b"), Lit("o"), Lit("u"), Lit("B"), Lit("b"), None, None, 1001, 1001);
    rows, q := [older, newer], Query(Lit("o"), 1, false);
    alls := [[newer, older], []];
    WhereOfTwo(older, newer, row => Wanted(q, None, row));
    WhereOfTwo(older, newer, row => Wanted(q, Some(1), row));
    assert PageOf(alls[0], 1) == Page([newer], Some(1));
    assert alls[1..] == [[]] && Following(rows, q, Some(1), [[]]);
    assert Items(q, [[]]) == [];
    assert Items(q, alls) == [newer] + [];
  }

  // ---------- the operations ----------

  /** `undefined` leaves a column alone: None here. */
  datatype Patch = Patch(name: Option<Str>, description: Option<Option<Str>>, archived: Option<bool>)

  datatype Operation =
    | Create(id: Str, user: Str, name: Str, slug: Str, description: Option<Str>)
    | Update(id: Str, patch: Patch)
    | Delete(id: Str)

  /** What the handler answers: a row, the removed row's id, or one of its errors. */
  datatype Outcome = Wrote(row: Project) | Removed(id: Str) | Conflict | NotFound | Internal

  /** One operation of one organisation; the time is the database's and the process's clock. */
  datatype Call = Call(organization: Str, operation: Operation, now: int)

  predicate Of(organization: Str, row: Project) { row.organization == organization }

  function OfTenant(rows: seq<Project>, organization: Str): seq<Project> { Where(rows, row => Of(organization, row)) }

  predicate Addressed(organization: Str, id: Str, row: Project) { row.organization == organization && row.id == id }

  predicate HasSlug(organization: Str, slug: Str, row: Project) { row.organization == organization && row.slug == slug }

  function First(rows: seq<Project>): Option<Project> { if rows == [] then None else Some(rows[0]) }

  /** The primary key and the unique index on organisation and slug. */
  predicate Violates(rows: seq<Project>, row: Project) {
    exists r <- rows :: r.id == row.id || (r.organization == row.organization && r.slug == row.slug)
  }

  function NewRow(organization: Str, c: Operation, now: int): Project
    requires c.Create?
  {
    Project(c.id, organization, c.user, c.name, c.slug, c.description, None, now, now)
  }

  function Patched(row: Project, patch: Patch, now: int): Project {
    row.(name := if patch.name.Some? then patch.name.value else row.name,
         description := if patch.description.Some? then patch.description.value else row.description,
         archivedAt := if patch.archived.None? then row.archivedAt
                       else if patch.archived.value then Some(now) else None,
         updatedAt := now)
  }

  /** The table and the answer after one call. */
  function Ran(rows: seq<Project>, call: Call): (seq<Project>, Outcome) {
    var organization := call.organization;
    match call.operation
    case Create(id, _, _, slug, _) =>
      var row := NewRow(organization, call.operation, call.now);
      if Where(rows, r => HasSlug(organization, slug, r)) != [] then (rows, Conflict)
      else if Violates(rows, row) then (rows, Internal)
      else (rows + [row], Wrote(row))
    case Update(id, patch) =>
      var hit := Where(rows, r => Addressed(organization, id, r));
      if hit == [] then (rows, NotFound)
      else (UpdateWhere(rows, r => Addressed(organization, id, r), r => Patched(r, patch, call.now)),
            Wrote(Patched(hit[0], patch, call.now)))
    case Delete(id) =>
      var hit := Where(rows, r => Addressed(organization, id, r));
      if hit == [] then (rows, NotFound)
      else (Where(rows, r => !Addressed(organization, id, r)), Removed(hit[0].id))
  }

  class ProjectStore {
    var rows: seq<Project>

    constructor ()
      ensures rows == []
    {
      rows := [];
    }

    method List(q: Query, cursor: Option<int>) returns (page: Page)
      ensures exists all :: Arranged(all, Matching(rows, q, cursor)) && page == PageOf(all, q.limit)
    {
      var filters := [OfOrganization(q.organization)];
      if !q.includeArchived {
        filters := filters + [NotArchived];
      }
      if cursor.Some? {
        filters := filters + [CreatedBefore(cursor.value)];
      }
      var selected := Where(rows, row => SatisfiesAll(filters, row));
      var all := Sort(Newer, selected);
      AnswerArranged(rows, filters, selected, q, cursor);
      var fetched := if |all| > q.limit + 1 then all[..q.limit + 1] else all;
      var hasMore := |fetched| > q.limit;
      var items := if hasMore then fetched[..q.limit] else fetched;
      page := Page(items, if hasMore && items != [] then Some(Millis(items[|items| - 1])) else None);
      assert page == PageOf(all, q.limit);
    }

    method BySlug(organization: Str, slug: Str) returns (row: Option<Project>)
      ensures row == First(Where(rows, r => HasSlug(organization, slug, r)))
    {
      row := First(Where(rows, r => HasSlug(organization, slug, r)));
    }

    /** None stands for the database refusing the row. */
    method Insert(row: Project) returns (written: Option<Project>)
      modifies this
      ensures written == if Violates(old(rows), row) then None else Some(row)
      ensures rows == if Violates(old(rows), row) then old(rows) else old(rows) + [row]
    {
      if Violates(rows, row) {
        return None;
      }
      rows := rows + [row];
      written := Some(row);
    }

    method UpdateRow(organization: Str, id: Str, patch: Patch, now: int) returns (row: Option<Project>)
      modifies this
      ensures var hit := Where(old(rows), r => Addressed(organization, id, r));
        row == if hit == [] then None else Some(Patched(hit[0], patch, now))
      ensures rows == UpdateWhere(old(rows), r => Addressed(organization, id, r), r => Patched(r, patch, now))
    {
      var hit := Where(rows, r => Addressed(organization, id, r));
      rows := UpdateWhere(rows, r => Addressed(organization, id, r), r => Patched(r, patch, now));
      row := if hit == [] then None else Some(Patched(hit[0], patch, now));
    }

    method Remove(organization: Str, id: Str) returns (removed: Option<Str>)
      modifies this
      ensures var hit := Where(old(rows), r => Addressed(organization, id, r));
        removed == if hit == [] then None else Some(hit[0].id)
      ensures rows == Where(old(rows), r => !Addressed(organization, id, r))
    {
      var hit := Where(rows, r => Addressed(organization, id, r));
      rows := Where(rows, r => !Addressed(organization, id, r));
      removed := if hit == [] then None else Some(hit[0].id);
    }

    /** The handlers, each scoped to the organisation of its verified context. */
    method Handle(call: Call) returns (outcome: Outcome)
      modifies this
      ensures (rows, outcome) == Ran(old(rows), call)
    {
      match call.operation {
        case Create(id, user, name, slug, description) =>
          var clash := BySlug(call.organization, slug);
          if clash.Some? {
            return Conflict;
          }
          var written := Insert(NewRow(call.organization, call.operation, call.now));
          outcome := if written.Some? then Wrote(written.value) else Internal;
        case Update(id, patch) =>
          WhereNone(rows, r => Addressed(call.organization, id, r), r => Patched(r, patch, call.now));
          var row := UpdateRow(call.organization, id, patch, call.now);
          outcome := if row.Some? then Wrote(row.value) else NotFound;
        case Delete(id) =>
          WhereAll(rows, r => Addressed(call.organization, id, r), r => !Addressed(call.organization, id, r));
          var removed := Remove(call.organization, id);
          outcome := if removed.Some? then Removed(removed.value) else NotFound;
      }
    }
  }

  lemma AnswerArranged(rows: seq<Project>, filters: seq<Filter>, selected: seq<Project>, q: Query, cursor: Option<int>)
    requires filters == [OfOrganization(q.organization)] + (if q.includeArchived then [] else [NotArchived])
      + (if cursor.Some? then [CreatedBefore(cursor.value)] else [])
    requires selected == Where(rows, row => SatisfiesAll(filters, row))
    ensures Arranged(Sort(Newer, selected), Matching(rows, q, cursor))
  {
    forall row ensures SatisfiesAll(filters, row) == Wanted(q, cursor, row) { FiltersMean(filters, q, cursor, row); }
    SameWhere(rows, row => SatisfiesAll(filters, row), row => Wanted(q, cursor, row));
    NewerIsOrder();
    SortCorrect(Newer, selected);
  }

  lemma FiltersMean(filters: seq<Filter>, q: Query, cursor: Option<int>, row: Project)
    requires filters == [OfOrganization(q.organization)] + (if q.includeArchived then [] else [NotArchived])
      + (if cursor.Some? then [CreatedBefore(cursor.value)] else [])
    ensures SatisfiesAll(filters, row) == Wanted(q, cursor, row)
  {
    assert OfOrganization(q.organization) in filters;
    assert !q.includeArchived ==> NotArchived in filters;
    assert cursor.Some? ==> CreatedBefore(cursor.value) in filters;
  }

  lemma NewerIsOrder()
    ensures TotalPreorder(Newer)
  {
  }

  // ---------- what a call does, column by column ----------

  predicate SlugHeld(rows: seq<Project>, organization: Str, slug: Str) {
    exists i | 0 <= i < |rows| :: rows[i].organization == organization && rows[i].slug == slug
  }

  predicate IdHeld(rows: seq<Project>, id: Str) { exists i | 0 <= i < |rows| :: rows[i].id == id }

  /** Only what the patch names is written, and the time; archiving stamps the time, restoring clears it. */
  predicate Rewritten(before: Project, after: Project, patch: Patch, now: int) {
    && after.id == before.id && after.organization == before.organization && after.createdBy == before.createdBy
    && after.slug == before.slug && after.createdAt == before.createdAt
    && after.name == (match patch.name case None => before.name case Some(name) => name)
    && after.description == (match patch.description case None => before.description case Some(text) => text)
    && (patch.archived == None ==> after.archivedAt == before.archivedAt)
    && (patch.archived == Some(true) ==> after.archivedAt == Some(now))
    && (patch.archived == Some(false) ==> after.archivedAt == None)
    && after.updatedAt == now
  }

  /** A creation: a conflict on the organisation's own slug, an error on an id in use, else one row more. */
  lemma CreateExactly(rows: seq<Project>, call: Call)
    requires call.operation.Create?
    ensures var Create(id, user, name, slug, description) := call.operation;
      var (after, outcome) := Ran(rows, call);
      if SlugHeld(rows, call.organization, slug) then after == rows && outcome == Conflict
      else if IdHeld(rows, id) then after == rows && outcome == Internal
      else
        var row := after[|after| - 1];
        && |after| == |rows| + 1 && after[..|rows|] == rows && outcome == Wrote(row)
        && row.id == id && row.organization == call.organization && row.createdBy == user && row.name == name
        && row.slug == slug && row.description == description && row.archivedAt == None
        && row.createdAt == call.now && row.updatedAt == call.now
  {
    var slug := call.operation.slug;
    WhereSome(rows, r => HasSlug(call.organization, slug, r));
    if !SlugHeld(rows, call.organization, slug) {
      assert Violates(rows, NewRow(call.organization, call.operation, call.now)) <==> IdHeld(rows, call.operation.id);
    }
  }

  /** An update: every row the id addresses in the organisation is rewritten where it stands, and no other. */
  lemma UpdateExactly(rows: seq<Project>, call: Call)
    requires call.operation.Update?
    ensures var Update(id, patch) := call.operation;
      var (after, outcome) := Ran(rows, call);
      && |after| == |rows|
      && (forall i | 0 <= i < |rows| ::
            if rows[i].organization == call.organization && rows[i].id == id
            then Rewritten(rows[i], after[i], patch, call.now) else after[i] == rows[i])
      && ((forall i | 0 <= i < |rows| :: !(rows[i].organization == call.organization && rows[i].id == id)) ==>
            outcome == NotFound)
      && ((exists i | 0 <= i < |rows| :: rows[i].organization == call.organization && rows[i].id == id) ==>
            exists i | 0 <= i < |rows| ::
              rows[i].organization == call.organization && rows[i].id == id && outcome == Wrote(after[i]))
  {
    var Update(id, patch) := call.operation;
    var hit := r => Addressed(call.organization, id, r);
    var patched := r => Patched(r, patch, call.now);
    WhereSome(rows, hit);
    WhereNone(rows, hit, patched);
    if rows != [] {
      UpdateAt(rows, hit, patched, 0);
    }
    forall i | 0 <= i < |rows|
      ensures UpdateWhere(rows, hit, patched)[i] == if hit(rows[i]) then patched(rows[i]) else rows[i]
    {
      UpdateAt(rows, hit, patched, i);
    }
    if Where(rows, hit) != [] {
      var i := WhereFirst(rows, hit);
      assert rows[i].organization == call.organization && rows[i].id == id;
    }
  }

  /** A deletion: the rows the id addresses in the organisation go, and no other. */
  lemma DeleteExactly(rows: seq<Project>, call: Call, row: Project)
    requires call.operation.Delete?
    ensures var Delete(id) := call.operation;
      var (after, outcome) := Ran(rows, call);
      && multiset(after)[row]
         == (if row.organization == call.organization && row.id == id then 0 else multiset(rows)[row])
      && outcome == if exists i | 0 <= i < |rows| :: rows[i].organization == call.organization && rows[i].id == id
                    then Removed(id) else NotFound
  {
    var Delete(id) := call.operation;
    WhereSome(rows, r => Addressed(call.organization, id, r));
    WhereCounts(rows, r => !Addressed(call.organization, id, r), row);
    WhereAll(rows, r => Addressed(call.organization, id, r), r => !Addressed(call.organization, id, r));
    if Where(rows, r => Addressed(call.organization, id, r)) != [] {
      var i := WhereFirst(rows, r => Addressed(call.organization, id, r));
    }
  }

  // ---------- one tenant at a time ----------

  /** The id a call brings is new: it is a random UUID. */
  predicate NewId(rows: seq<Project>, call: Call) {
    call.operation.Create? ==> forall r <- rows :: r.id != call.operation.id
  }

  /** A call of one organisation leaves every other organisation's rows as they were. */
  lemma OthersUntouched(rows: seq<Project>, call: Call, other: Str)
    requires other != call.organization
    ensures OfTenant(Ran(rows, call).0, other) == OfTenant(rows, other)
  {
    var mine := r => Of(other, r);
    match call.operation
    case Create(id, user, name, slug, description) =>
      WhereAppend(rows, NewRow(call.organization, call.operation, call.now), mine);
    case Update(id, patch) =>
      UpdateApart(rows, r => Addressed(call.organization, id, r), mine, r => Patched(r, patch, call.now));
    case Delete(id) =>
      WhereImplied(rows, mine, r => !Addressed(call.organization, id, r));
  }

  lemma NoClash(rows: seq<Project>, call: Call)
    requires call.operation.Create? && NewId(rows, call)
    requires Where(rows, r => HasSlug(call.organization, call.operation.slug, r)) == []
    ensures !Violates(rows, NewRow(call.organization, call.operation, call.now))
  {
    var p := r => HasSlug(call.organization, call.operation.slug, r);
    forall r <- rows ensures !p(r) { WhereMember(rows, p, r); }
  }

  lemma TenantCreate(rows: seq<Project>, call: Call)
    requires call.operation.Create? && NewId(rows, call)
    ensures var own := OfTenant(rows, call.organization);
      Ran(own, call) == (OfTenant(Ran(rows, call).0, call.organization), Ran(rows, call).1)
  {
    var mine := r => Of(call.organization, r);
    var own := OfTenant(rows, call.organization);
    WhereImplied(rows, r => HasSlug(call.organization, call.operation.slug, r), mine);
    forall r <- own ensures r in rows { WhereMember(rows, mine, r); }
    if Where(rows, r => HasSlug(call.organization, call.operation.slug, r)) == [] {
      NoClash(rows, call);
      NoClash(own, call);
      WhereAppend(rows, NewRow(call.organization, call.operation, call.now), mine);
    }
  }

  /** What a call does and answers is decided by its own organisation's rows alone. */
  lemma TenantRuns(rows: seq<Project>, call: Call)
    requires NewId(rows, call)
    ensures var own := OfTenant(rows, call.organization);
      Ran(own, call) == (OfTenant(Ran(rows, call).0, call.organization), Ran(rows, call).1)
  {
    var mine := r => Of(call.organization, r);
    match call.operation
    case Create(id, user, name, slug, description) =>
      TenantCreate(rows, call);
    case Update(id, patch) =>
      var hit := r => Addressed(call.organization, id, r);
      WhereImplied(rows, hit, mine);
      UpdateWithin(rows, hit, mine, r => Patched(r, patch, call.now));
    case Delete(id) =>
      WhereImplied(rows, r => Addressed(call.organization, id, r), mine);
      WhereCommutes(rows, r => !Addressed(call.organization, id, r), mine);
  }

  /** The same of reading: a page is an answer over the organisation's own rows. */
  lemma TenantReads(rows: seq<Project>, q: Query, cursor: Option<int>)
    ensures Matching(OfTenant(rows, q.organization), q, cursor) == Matching(rows, q, cursor)
  {
    WhereImplied(rows, row => Wanted(q, cursor, row), r => Of(q.organization, r));
  }

  // ---------- whole histories ----------

  function RanAll(rows: seq<Project>, calls: seq<Call>): (seq<Project>, seq<Outcome>)
    decreases |calls|
  {
    if calls == [] then (rows, []) else
      var (after, outcome) := Ran(rows, calls[0]);
      var (last, outcomes) := RanAll(after, calls[1..]);
      (last, [outcome] + outcomes)
  }

  function Only(organization: Str, calls: seq<Call>): seq<Call> {
    if calls == [] then []
    else if calls[0].organization == organization then [calls[0]] + Only(organization, calls[1..])
    else Only(organization, calls[1..])
  }

  /** The answers to one organisation's calls among all the answers. */
  function Answers(organization: Str, calls: seq<Call>, outcomes: seq<Outcome>): seq<Outcome>
    requires |calls| == |outcomes|
    decreases |calls|
  {
    if calls == [] then []
    else if calls[0].organization == organization then [outcomes[0]] + Answers(organization, calls[1..], outcomes[1..])
    else Answers(organization, calls[1..], outcomes[1..])
  }

  /** Every id created is new when it is created. */
  predicate NewIds(rows: seq<Project>, calls: seq<Call>)
    decreases |calls|
  {
    calls == [] || (NewId(rows, calls[0]) && NewIds(Ran(rows, calls[0]).0, calls[1..]))
  }

  lemma {:induction false} OneAnswerEach(rows: seq<Project>, calls: seq<Call>)
    ensures |RanAll(rows, calls).1| == |calls|
    decreases |calls|
  {
    if calls != [] {
      OneAnswerEach(Ran(rows, calls[0]).0, calls[1..]);
    }
  }

  /**
   * An organisation sees nothing of the others: through any history its rows and the answers it gets
   * are those of the history with everybody else's calls, and everybody else's rows, left out.
   */
  lemma {:induction false} TenantsApart(rows: seq<Project>, calls: seq<Call>, organization: Str)
    requires NewIds(rows, calls)
    ensures |RanAll(rows, calls).1| == |calls|
    ensures RanAll(OfTenant(rows, organization), Only(organization, calls))
         == (OfTenant(RanAll(rows, calls).0, organization), Answers(organization, calls, RanAll(rows, calls).1))
    decreases |calls|
  {
    OneAnswerEach(rows, calls);
    if calls != [] {
      var after := Ran(rows, calls[0]).0;
      TenantsApart(after, calls[1..], organization);
      if calls[0].organization == organization {
        TenantRuns(rows, calls[0]);
        OnlyStep(organization, calls);
      } else {
        OthersUntouched(rows, calls[0], organization);
      }
    }
  }

  lemma OnlyStep(organization: Str, calls: seq<Call>)
    requires calls != [] && calls[0].organization == organization
    ensures Only(organization, calls)[0] == calls[0] && Only(organization, calls)[1..] == Only(organization, calls[1..])
  {
  }
}