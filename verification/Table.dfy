/** Rows in a table, selected and rewritten by predicates. */
module Table {

  function Where<T>(rows: seq<T>, p: T -> bool): seq<T> {
    if rows == [] then [] else if p(rows[0]) then [rows[0]] + Where(rows[1..], p) else Where(rows[1..], p)
  }

  function UpdateWhere<T>(rows: seq<T>, p: T -> bool, f: T -> T): seq<T> {
    if rows == [] then [] else [if p(rows[0]) then f(rows[0]) else rows[0]] + UpdateWhere(rows[1..], p, f)
  }

  lemma {:induction false} WhereMember<T>(rows: seq<T>, p: T -> bool, x: T)
    ensures x in Where(rows, p) <==> x in rows && p(x)
    decreases |rows|
  {
    if rows != [] {
      WhereMember(rows[1..], p, x);
      assert rows == [rows[0]] + rows[1..];
    }
  }

  lemma {:induction false} WhereCounts<T>(rows: seq<T>, p: T -> bool, x: T)
    ensures multiset(Where(rows, p))[x] == if p(x) then multiset(rows)[x] else 0
    decreases |rows|
  {
    if rows != [] {
      assert rows == [rows[0]] + rows[1..];
      WhereCounts(rows[1..], p, x);
    }
  }

  lemma {:induction false} SameWhere<T(!new)>(rows: seq<T>, p: T -> bool, q: T -> bool)
    requires forall x :: p(x) == q(x)
    ensures Where(rows, p) == Where(rows, q)
    decreases |rows|
  {
    if rows != [] {
      SameWhere(rows[1..], p, q);
    }
  }

  lemma WhereOfSingle<T>(row: T, rest: seq<T>, p: T -> bool)
    ensures Where([row] + rest, p) == (if p(row) then [row] else []) + Where(rest, p)
  {
    assert ([row] + rest)[1..] == rest;
  }

  lemma {:induction false} WhereAppend<T>(rows: seq<T>, row: T, p: T -> bool)
    ensures Where(rows + [row], p) == Where(rows, p) + (if p(row) then [row] else [])
    decreases |rows|
  {
    if rows == [] {
      assert rows + [row] == [row] && [row][1..] == [];
    } else {
      assert (rows + [row])[1..] == rows[1..] + [row];
      WhereAppend(rows[1..], row, p);
    }
  }

  lemma {:induction false} WhereShrinks<T>(rows: seq<T>, p: T -> bool)
    ensures |Where(rows, p)| <= |rows|
    ensures |Where(rows, p)| == |rows| <==> forall x <- rows :: p(x)
    decreases |rows|
  {
    if rows != [] {
      assert rows == [rows[0]] + rows[1..];
      WhereShrinks(rows[1..], p);
    }
  }

  lemma {:induction false} WhereCommutes<T>(rows: seq<T>, p: T -> bool, q: T -> bool)
    ensures Where(Where(rows, p), q) == Where(Where(rows, q), p)
    decreases |rows|
  {
    if rows != [] {
      WhereCommutes(rows[1..], p, q);
      WhereOfSingle(rows[0], Where(rows[1..], p), q);
      WhereOfSingle(rows[0], Where(rows[1..], q), p);
    }
  }

  /** A filter that already implies the other gains nothing from it. */
  lemma {:induction false} WhereImplied<T(!new)>(rows: seq<T>, p: T -> bool, q: T -> bool)
    requires forall x :: p(x) ==> q(x)
    ensures Where(Where(rows, q), p) == Where(rows, p)
    decreases |rows|
  {
    if rows != [] {
      WhereImplied(rows[1..], p, q);
      WhereOfSingle(rows[0], Where(rows[1..], q), p);
    }
  }

  /** Selecting twice is selecting once. */
  lemma WhereTwice<T(!new)>(rows: seq<T>, p: T -> bool)
    ensures Where(Where(rows, p), p) == Where(rows, p)
  {
    WhereImplied(rows, p, p);
  }

  lemma {:induction false} WhereBoth<T(!new)>(rows: seq<T>, p: T -> bool, q: T -> bool, both: T -> bool)
    requires forall x :: both(x) == (p(x) && q(x))
    ensures Where(Where(rows, p), q) == Where(rows, both)
    decreases |rows|
  {
    if rows != [] {
      WhereBoth(rows[1..], p, q, both);
      WhereOfSingle(rows[0], Where(rows[1..], p), q);
    }
  }

  lemma {:induction false} WhereNone<T>(rows: seq<T>, p: T -> bool, f: T -> T)
    ensures Where(rows, p) == [] ==> UpdateWhere(rows, p, f) == rows
    decreases |rows|
  {
    if rows != [] {
      WhereNone(rows[1..], p, f);
    }
  }

  lemma {:induction false} WhereAll<T(!new)>(rows: seq<T>, p: T -> bool, q: T -> bool)
    requires forall x :: q(x) == !p(x)
    ensures Where(rows, p) == [] ==> Where(rows, q) == rows
    decreases |rows|
  {
    if rows != [] {
      WhereAll(rows[1..], p, q);
    }
  }

  lemma {:induction false} UpdateApart<T(!new)>(rows: seq<T>, p: T -> bool, q: T -> bool, f: T -> T)
    requires forall x :: p(x) ==> !q(x)
    requires forall x :: q(f(x)) == q(x)
    ensures Where(UpdateWhere(rows, p, f), q) == Where(rows, q)
    decreases |rows|
  {
    if rows != [] {
      UpdateApart(rows[1..], p, q, f);
      WhereOfSingle(UpdateWhere(rows, p, f)[0], UpdateWhere(rows[1..], p, f), q);
    }
  }

  lemma {:induction false} UpdateWithin<T(!new)>(rows: seq<T>, p: T -> bool, q: T -> bool, f: T -> T)
    requires forall x :: q(f(x)) == q(x)
    ensures Where(UpdateWhere(rows, p, f), q) == UpdateWhere(Where(rows, q), p, f)
    decreases |rows|
  {
    if rows != [] {
      UpdateWithin(rows[1..], p, q, f);
      WhereOfSingle(UpdateWhere(rows, p, f)[0], UpdateWhere(rows[1..], p, f), q);
      UpdateOfSingle(rows[0], Where(rows[1..], q), p, f);
    }
  }

  lemma UpdateOfSingle<T>(row: T, rest: seq<T>, p: T -> bool, f: T -> T)
    ensures UpdateWhere([row] + rest, p, f) == [if p(row) then f(row) else row] + UpdateWhere(rest, p, f)
  {
    assert ([row] + rest)[1..] == rest;
  }

  /** A row an update does not address is still there; one it does is there rewritten. */
  lemma {:induction false} UpdateMember<T>(rows: seq<T>, p: T -> bool, f: T -> T, x: T)
    requires x in rows
    ensures (if p(x) then f(x) else x) in UpdateWhere(rows, p, f)
    decreases |rows|
  {
    if x != rows[0] {
      assert rows == [rows[0]] + rows[1..];
      UpdateMember(rows[1..], p, f, x);
    }
  }

  /** A key column. */
  ghost predicate DistinctBy<T, K>(rows: seq<T>, key: T -> K) {
    forall i, j | 0 <= i < j < |rows| :: key(rows[i]) != key(rows[j])
  }

  lemma {:induction false} WhereDistinct<T, K>(rows: seq<T>, p: T -> bool, key: T -> K)
    requires DistinctBy(rows, key)
    ensures DistinctBy(Where(rows, p), key)
    decreases |rows|
  {
    if rows != [] {
      var rest, kept := rows[1..], Where(rows[1..], p);
      assert forall i | 0 <= i < |rest| :: rest[i] == rows[i + 1];
      WhereDistinct(rest, p, key);
      forall k | 0 <= k < |kept| ensures key(kept[k]) != key(rows[0]) {
        WhereMember(rest, p, kept[k]);
      }
    }
  }

  lemma AppendDistinct<T, K>(rows: seq<T>, row: T, key: T -> K)
    requires DistinctBy(rows, key) && forall r <- rows :: key(r) != key(row)
    ensures DistinctBy(rows + [row], key)
  {
  }

  lemma {:induction false} UpdateKeys<T, K>(rows: seq<T>, p: T -> bool, f: T -> T, key: T -> K)
    requires forall r <- rows :: key(f(r)) == key(r)
    ensures |UpdateWhere(rows, p, f)| == |rows|
    ensures forall i | 0 <= i < |rows| :: key(UpdateWhere(rows, p, f)[i]) == key(rows[i])
    decreases |rows|
  {
    if rows != [] {
      assert rows == [rows[0]] + rows[1..];
      UpdateKeys(rows[1..], p, f, key);
    }
  }

  /** An update changes nothing exactly when it changes no row it addresses. */
  lemma {:induction false} UpdateSame<T>(rows: seq<T>, p: T -> bool, f: T -> T)
    ensures UpdateWhere(rows, p, f) == rows <==> forall x <- rows :: p(x) ==> f(x) == x
    decreases |rows|
  {
    if rows != [] {
      assert rows == [rows[0]] + rows[1..];
      UpdateSame(rows[1..], p, f);
    }
  }

  /** A deletion removes nothing exactly when it addresses nothing. */
  lemma WhereRest<T(!new)>(rows: seq<T>, p: T -> bool, q: T -> bool)
    requires forall x :: q(x) == !p(x)
    ensures Where(rows, q) == rows <==> forall x <- rows :: !p(x)
  {
    WhereShrinks(rows, q);
    if forall x <- rows :: !p(x) {
      WhereAll(rows, p, q);
    }
  }

  /** An update, row by row. */
  lemma {:induction false} UpdateAt<T>(rows: seq<T>, p: T -> bool, f: T -> T, i: nat)
    requires i < |rows|
    ensures |UpdateWhere(rows, p, f)| == |rows|
    ensures UpdateWhere(rows, p, f)[i] == if p(rows[i]) then f(rows[i]) else rows[i]
    decreases |rows|
  {
    if i > 0 {
      UpdateAt(rows[1..], p, f, i - 1);
    } else if |rows| > 1 {
      UpdateAt(rows[1..], p, f, 0);
    }
  }

  /** The first row selected. */
  ghost predicate IsFirst<T>(rows: seq<T>, p: T -> bool, i: nat) {
    i < |rows| && p(rows[i]) && forall j | 0 <= j < i :: !p(rows[j])
  }

  lemma {:induction false} WhereFirst<T>(rows: seq<T>, p: T -> bool) returns (i: nat)
    requires Where(rows, p) != []
    ensures IsFirst(rows, p, i) && Where(rows, p)[0] == rows[i]
    decreases |rows|
  {
    if p(rows[0]) {
      i := 0;
    } else {
      var k := WhereFirst(rows[1..], p);
      i := k + 1;
      forall j | 0 <= j < i ensures !p(rows[j]) {
        if j > 0 { assert rows[1..][j - 1] == rows[j]; }
      }
    }
  }

  lemma WhereSome<T>(rows: seq<T>, p: T -> bool)
    ensures Where(rows, p) != [] <==> exists i | 0 <= i < |rows| :: p(rows[i])
  {
    if Where(rows, p) != [] {
      var i := WhereFirst(rows, p);
    }
    if i :| 0 <= i < |rows| && p(rows[i]) {
      WhereMember(rows, p, rows[i]);
    }
  }
}
