/** Strings as JavaScript holds them, their ordering, and sorting by an order. */
module Prelude {

  datatype Option<+T> = None | Some(value: T)

  datatype Result<+T, +E> = Ok(value: T) | Err(error: E)

  /** One UTF-16 code unit. A JavaScript string is any sequence of them, lone surrogates included. */
  type CodeUnit = u: int | 0 <= u < 0x10000

  type Str = seq<CodeUnit>

  /** A source literal as code units. */
  function Lit(s: string): Str {
    seq(|s|, i requires 0 <= i < |s| => s[i] as int % 0x10000)
  }

  lemma Assoc<T>(a: seq<T>, b: seq<T>, c: seq<T>)
    ensures (a + b) + c == a + (b + c)
  {
  }

  // ---------- `trim` ----------

  /** The code units JavaScript counts as white space or line ends. */
  predicate IsBlank(u: int) {
    9 <= u <= 13 || u == 32 || u == 0xA0 || u == 0x1680 || 0x2000 <= u <= 0x200A
    || u == 0x2028 || u == 0x2029 || u == 0x202F || u == 0x205F || u == 0x3000 || u == 0xFEFF
  }

  function TrimStart<T>(s: seq<T>, space: T -> bool): seq<T> {
    if s != [] && space(s[0]) then TrimStart(s[1..], space) else s
  }

  function TrimEnd<T>(s: seq<T>, space: T -> bool): seq<T> {
    if s != [] && space(s[|s| - 1]) then TrimEnd(s[..|s| - 1], space) else s
  }

  function Trim<T>(s: seq<T>, space: T -> bool): seq<T> { TrimEnd(TrimStart(s, space), space) }

  // ---------- the order of `<` on strings ----------

  predicate LexLe(a: Str, b: Str) {
    a == [] || (b != [] && (a[0] < b[0] || (a[0] == b[0] && LexLe(a[1..], b[1..]))))
  }

  lemma {:induction false} LexLeTotal(a: Str, b: Str)
    ensures LexLe(a, b) || LexLe(b, a)
    ensures LexLe(a, b) && LexLe(b, a) ==> a == b
    decreases |a|
  {
    if a != [] && b != [] && a[0] == b[0] {
      LexLeTotal(a[1..], b[1..]);
      assert a == [a[0]] + a[1..] && b == [b[0]] + b[1..];
    }
  }

  lemma {:induction false} LexLeTransitive(a: Str, b: Str, c: Str)
    requires LexLe(a, b) && LexLe(b, c)
    ensures LexLe(a, c)
    decreases |a|
  {
    if a != [] && b != [] && c != [] && a[0] == b[0] == c[0] {
      LexLeTransitive(a[1..], b[1..], c[1..]);
    }
  }

  lemma LexLeIsOrder()
    ensures TotalPreorder(LexLe)
  {
    forall a: Str, b: Str { LexLeTotal(a, b); }
    forall a: Str, b: Str, c: Str | LexLe(a, b) && LexLe(b, c) { LexLeTransitive(a, b, c); }
  }

  // ---------- integers ----------

  const MAX_SAFE_INTEGER := 0x1F_FFFF_FFFF_FFFF

  predicate SafeInteger(n: int) { -MAX_SAFE_INTEGER <= n <= MAX_SAFE_INTEGER }

  /** An integer a double holds exactly, with all its neighbours. */
  type SafeInt = n: int | -MAX_SAFE_INTEGER <= n <= MAX_SAFE_INTEGER

  /** A time, and a time with a budget added to it. */
  type Moment = n: int | -2 * MAX_SAFE_INTEGER <= n <= 2 * MAX_SAFE_INTEGER

  // ---------- sorting ----------

  ghost predicate TotalPreorder<T(!new)>(le: (T, T) -> bool) {
    && (forall a: T, b: T :: le(a, b) || le(b, a))
    && (forall a: T, b: T, c: T :: le(a, b) && le(b, c) ==> le(a, c))
  }

  ghost predicate Sorted<T(!new)>(le: (T, T) -> bool, xs: seq<T>) {
    forall i, j | 0 <= i < j < |xs| :: le(xs[i], xs[j])
  }

  function Insert<T>(le: (T, T) -> bool, x: T, xs: seq<T>): seq<T> {
    if xs == [] || le(x, xs[0]) then [x] + xs else [xs[0]] + Insert(le, x, xs[1..])
  }

  function Sort<T>(le: (T, T) -> bool, xs: seq<T>): seq<T> {
    if xs == [] then [] else Insert(le, xs[0], Sort(le, xs[1..]))
  }

  lemma {:induction false} InsertKeeps<T(!new)>(le: (T, T) -> bool, x: T, xs: seq<T>)
    ensures multiset(Insert(le, x, xs)) == multiset{x} + multiset(xs)
    ensures TotalPreorder(le) && Sorted(le, xs) ==> Sorted(le, Insert(le, x, xs))
    decreases |xs|
  {
    if xs != [] && !le(x, xs[0]) {
      var rest := Insert(le, x, xs[1..]);
      InsertKeeps(le, x, xs[1..]);
      assert xs == [xs[0]] + xs[1..];
      if TotalPreorder(le) && Sorted(le, xs) {
        InsertBehind(le, x, xs, rest);
      }
    }
  }

  lemma InsertBehind<T(!new)>(le: (T, T) -> bool, x: T, xs: seq<T>, rest: seq<T>)
    requires TotalPreorder(le) && Sorted(le, xs) && xs != [] && le(xs[0], x) && Sorted(le, rest)
    requires multiset(rest) == multiset{x} + multiset(xs[1..])
    ensures Sorted(le, [xs[0]] + rest)
  {
    forall j | 0 <= j < |rest| ensures le(xs[0], rest[j]) {
      assert rest[j] in multiset(rest);
      assert rest[j] == x || rest[j] in xs[1..];
    }
  }

  /** A sort is a sorted permutation. */
  lemma {:induction false} SortCorrect<T(!new)>(le: (T, T) -> bool, xs: seq<T>)
    ensures multiset(Sort(le, xs)) == multiset(xs)
    ensures |Sort(le, xs)| == |xs|
    ensures TotalPreorder(le) ==> Sorted(le, Sort(le, xs))
  {
    if xs != [] {
      SortCorrect(le, xs[1..]);
      InsertKeeps(le, xs[0], Sort(le, xs[1..]));
      assert xs == [xs[0]] + xs[1..];
    }
    assert |multiset(Sort(le, xs))| == |multiset(xs)|;
  }

  ghost predicate AntisymmetricOn<T(!new)>(le: (T, T) -> bool, xs: seq<T>) {
    forall i, j | 0 <= i < |xs| && 0 <= j < |xs| && le(xs[i], xs[j]) && le(xs[j], xs[i]) :: xs[i] == xs[j]
  }

  lemma SameLeast<T(!new)>(le: (T, T) -> bool, xs: seq<T>, ys: seq<T>)
    requires TotalPreorder(le) && Sorted(le, xs) && Sorted(le, ys)
    requires AntisymmetricOn(le, xs)
    requires xs != [] && ys != [] && xs[0] in ys && ys[0] in xs
    ensures xs[0] == ys[0]
  {
    var i :| 0 <= i < |xs| && xs[i] == ys[0];
    var j :| 0 <= j < |ys| && ys[j] == xs[0];
    assert le(xs[0], xs[i]) && le(ys[0], ys[j]);
  }

  lemma TailSorted<T(!new)>(le: (T, T) -> bool, xs: seq<T>)
    requires Sorted(le, xs) && xs != []
    ensures Sorted(le, xs[1..])
  {
  }

  lemma TailAntisymmetric<T(!new)>(le: (T, T) -> bool, xs: seq<T>)
    requires AntisymmetricOn(le, xs) && xs != []
    ensures AntisymmetricOn(le, xs[1..])
  {
    var tail := xs[1..];
    forall i, j | 0 <= i < |tail| && 0 <= j < |tail| && le(tail[i], tail[j]) && le(tail[j], tail[i])
      ensures tail[i] == tail[j]
    {
      assert tail[i] == xs[i + 1] && tail[j] == xs[j + 1];
    }
  }

  lemma TailMultiset<T>(xs: seq<T>)
    requires xs != []
    ensures multiset(xs[1..]) == multiset(xs) - multiset{xs[0]}
  {
    assert xs == [xs[0]] + xs[1..];
  }

  /** Two sorted arrangements of the same elements are the same sequence. */
  lemma {:induction false} SortedUnique<T(!new)>(le: (T, T) -> bool, xs: seq<T>, ys: seq<T>)
    requires TotalPreorder(le) && Sorted(le, xs) && Sorted(le, ys)
    requires AntisymmetricOn(le, xs)
    requires multiset(xs) == multiset(ys)
    ensures xs == ys
    decreases |xs|
  {
    assert |xs| == |multiset(xs)| == |multiset(ys)| == |ys|;
    if xs != [] {
      assert xs[0] in multiset(ys) && ys[0] in multiset(xs);
      SameLeast(le, xs, ys);
      TailSorted(le, xs);
      TailSorted(le, ys);
      TailAntisymmetric(le, xs);
      TailMultiset(xs);
      TailMultiset(ys);
      SortedUnique(le, xs[1..], ys[1..]);
      assert xs == [xs[0]] + xs[1..] && ys == [ys[0]] + ys[1..];
    }
  }
}
