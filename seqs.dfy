/** Row-sequence building blocks shared by both query engines: a WHERE filter,
    COUNT(*), UNION's duplicate removal, LIMIT/OFFSET windows, ORDER BY as a
    sort under a total preorder, and REPLACE as an upsert by key. */
module Seqs {

  /** Each element occurs at most once. */
  predicate NoDups<T(==)>(s: seq<T>) {
    forall x | x in s :: multiset(s)[x] == 1
  }

  /** The rows of `s` that satisfy `p`, in table order (a WHERE clause). */
  function Filter<T(!new)>(s: seq<T>, p: T -> bool): (r: seq<T>)
    ensures |r| <= |s|
    ensures forall x :: x in r <==> x in s && p(x)
    ensures forall x :: x in r ==> multiset(r)[x] == multiset(s)[x]
    ensures forall x :: x in s && !p(x) ==> x !in r
  {
    if s == [] then []
    else
      assert s == [s[0]] + s[1..];
      (if p(s[0]) then [s[0]] else []) + Filter(s[1..], p)
  }

  lemma {:induction false} FilterAppend<T(!new)>(a: seq<T>, b: seq<T>, p: T -> bool)
    ensures Filter(a + b, p) == Filter(a, p) + Filter(b, p)
  {
    if a == [] {
      assert a + b == b;
    } else {
      assert (a + b)[1..] == a[1..] + b;
      FilterAppend(a[1..], b, p);
    }
  }

  lemma {:induction false} FilterNoDups<T(!new)>(s: seq<T>, p: T -> bool)
    requires NoDups(s)
    ensures NoDups(Filter(s, p))
  {
  }

  /** COUNT(*) of the rows that satisfy `p`. */
  function Count<T(!new)>(s: seq<T>, p: T -> bool): (n: nat)
    ensures n <= |s|
    ensures n == 0 <==> forall x :: x in s ==> !p(x)
  {
    var r := Filter(s, p);
    assert r != [] ==> r[0] in r;
    |r|
  }

  /** UNION's duplicate removal: the first occurrence of every row, in order. */
  function Dedup<T(!new, ==)>(s: seq<T>): (r: seq<T>)
    ensures NoDups(r)
    ensures forall x :: x in r <==> x in s
    ensures |r| <= |s|
  {
    if s == [] then []
    else
      var d := Dedup(s[..|s| - 1]);
      var last := s[|s| - 1];
      assert s == s[..|s| - 1] + [last];
      if last in d then d else d + [last]
  }

  lemma {:induction false} NoDupsDedup<T(!new)>(s: seq<T>)
    requires NoDups(s)
    ensures Dedup(s) == s
  {
    if s != [] {
      var init, last := s[..|s| - 1], s[|s| - 1];
      assert s == init + [last];
      assert multiset(s) == multiset(init) + multiset{last};
      forall x | x in init ensures multiset(init)[x] == 1 {
        assert x in s;
      }
      NoDupsDedup(init);
      assert multiset(s)[last] == multiset(init)[last] + 1;
      assert last in s;
      assert multiset(init)[last] == 0;
    }
  }

  /** The rows at positions `lo .. hi` of `s` keep multiplicities no larger than in `s`. */
  lemma SliceMultiset<T(!new)>(s: seq<T>, lo: nat, hi: nat)
    requires lo <= hi <= |s|
    ensures multiset(s[lo..hi]) <= multiset(s)
  {
    assert s == s[..lo] + s[lo..hi] + s[hi..];
  }

  function Min(a: int, b: int): int { if a <= b then a else b }

  /** The first row a LIMIT/OFFSET clause keeps: SQLite treats a negative
      OFFSET as zero. */
  function WindowStart(offset: int): nat {
    if offset < 0 then 0 else offset
  }

  /** `LIMIT limit OFFSET offset` applied to an ordered result. */
  function Window<T(!new)>(rows: seq<T>, limit: nat, offset: int): (r: seq<T>)
    ensures |r| <= limit
    ensures |r| == if WindowStart(offset) >= |rows| then 0 else Min(limit, |rows| - WindowStart(offset))
    ensures forall k :: 0 <= k < |r| ==> r[k] == rows[WindowStart(offset) + k]
    ensures multiset(r) <= multiset(rows)
  {
    var lo := WindowStart(offset);
    if lo >= |rows| then []
    else
      var hi := lo + Min(limit, |rows| - lo);
      SliceMultiset(rows, lo, hi);
      rows[lo..hi]
  }

  lemma WindowNoDups<T(!new)>(rows: seq<T>, limit: nat, offset: int)
    requires NoDups(rows)
    ensures NoDups(Window(rows, limit, offset))
  {
    var r := Window(rows, limit, offset);
    forall x | x in r ensures multiset(r)[x] == 1 {
      assert multiset(r)[x] <= multiset(rows)[x];
    }
  }

  /** LIMIT/OFFSET keeps only rows of the result it cuts. */
  lemma WindowWithin<T(!new)>(rows: seq<T>, limit: nat, offset: int)
    ensures forall x :: x in Window(rows, limit, offset) ==> x in rows
  {
    var r := Window(rows, limit, offset);
    forall x | x in r ensures x in rows {
      assert x in multiset(r);
    }
  }

  /** Some element of `init + [last]` satisfies `p` iff `last` does or some
      element of `init` does. */
  lemma ExistsSnoc<T(!new)>(init: seq<T>, last: T, p: T -> bool)
    ensures (exists k | 0 <= k < |init + [last]| :: p((init + [last])[k])) <==>
              p(last) || exists k | 0 <= k < |init| :: p(init[k])
  {
    var xs := init + [last];
    if exists k | 0 <= k < |xs| :: p(xs[k]) {
      var k :| 0 <= k < |xs| && p(xs[k]);
      if k < |init| {
        assert xs[k] == init[k];
      }
    }
    if exists k | 0 <= k < |init| :: p(init[k]) {
      var k :| 0 <= k < |init| && p(init[k]);
      assert xs[k] == init[k];
    }
    assert xs[|init|] == last;
  }

  /** Without duplicates, different positions hold different rows. */
  lemma NoDupsIndices<T(!new)>(s: seq<T>)
    requires NoDups(s)
    ensures forall i, j :: 0 <= i < j < |s| ==> s[i] != s[j]
  {
    forall i, j | 0 <= i < j < |s| ensures s[i] != s[j] {
      assert s[j] in s;
      assert s == s[..j] + [s[j]] + s[j + 1..];
      assert multiset(s)[s[j]] == multiset(s[..j])[s[j]] + 1 + multiset(s[j + 1..])[s[j]];
      assert s[i] in s[..j];
    }
  }

  /** Different rows at different positions means no duplicates. */
  lemma {:induction false} DistinctNoDups<T(!new)>(s: seq<T>)
    requires forall i, j :: 0 <= i < j < |s| ==> s[i] != s[j]
    ensures NoDups(s)
  {
    if s != [] {
      var rest := s[1..];
      DistinctNoDups(rest);
      assert s == [s[0]] + rest;
      assert s[0] !in rest by {
        forall k | 0 <= k < |rest| ensures rest[k] != s[0] {
          assert rest[k] == s[k + 1];
        }
      }
      forall x | x in s ensures multiset(s)[x] == 1 {
        assert multiset(s) == multiset{s[0]} + multiset(rest);
      }
    }
  }

  /** A total preorder: the relation an ORDER BY clause sorts by. */
  ghost predicate TotalPreorder<T(!new)>(le: (T, T) -> bool) {
    && (forall a, b :: le(a, b) || le(b, a))
    && (forall a, b, c :: le(a, b) && le(b, c) ==> le(a, c))
  }

  predicate Sorted<T(!new)>(s: seq<T>, le: (T, T) -> bool) {
    forall i, j :: 0 <= i < j < |s| ==> le(s[i], s[j])
  }

  /** LIMIT/OFFSET keeps the order it cuts from. */
  lemma WindowSorted<T(!new)>(rows: seq<T>, limit: nat, offset: int, le: (T, T) -> bool)
    requires Sorted(rows, le)
    ensures Sorted(Window(rows, limit, offset), le)
  {
    var r, lo := Window(rows, limit, offset), WindowStart(offset);
    forall i, j | 0 <= i < j < |r| ensures le(r[i], r[j]) {
      assert r[i] == rows[lo + i] && r[j] == rows[lo + j];
    }
  }

  /** Places `x` before the first row it may precede. */
  function Insert<T(!new)>(x: T, s: seq<T>, le: (T, T) -> bool): (r: seq<T>)
    ensures multiset(r) == multiset(s) + multiset{x}
    ensures |r| == |s| + 1
  {
    if s == [] || le(x, s[0]) then [x] + s
    else
      assert s == [s[0]] + s[1..];
      [s[0]] + Insert(x, s[1..], le)
  }

  /** ORDER BY: a permutation of the rows, sorted by `le` (proved in SortSorted).
      Rows that `le` ranks equal may come out in any order in the source; the
      model fixes one. */
  function Sort<T(!new)>(s: seq<T>, le: (T, T) -> bool): (r: seq<T>)
    ensures multiset(r) == multiset(s)
    ensures |r| == |s|
  {
    if s == [] then []
    else
      assert s == [s[0]] + s[1..];
      Insert(s[0], Sort(s[1..], le), le)
  }

  lemma {:induction false} InsertSorted<T(!new)>(x: T, s: seq<T>, le: (T, T) -> bool)
    requires TotalPreorder(le)
    requires Sorted(s, le)
    ensures Sorted(Insert(x, s, le), le)
  {
    if s != [] && !le(x, s[0]) {
      var rest := Insert(x, s[1..], le);
      InsertSorted(x, s[1..], le);
      assert le(s[0], x);
      forall y | y in rest ensures le(s[0], y) {
        assert y in multiset(rest);
        if y != x {
          assert y in multiset(s[1..]);
        }
      }
      SortedCons(s[0], rest, le);
    }
  }

  /** A sorted sequence stays sorted under a head that precedes all of it. */
  lemma SortedCons<T(!new)>(h: T, rest: seq<T>, le: (T, T) -> bool)
    requires Sorted(rest, le)
    requires forall y :: y in rest ==> le(h, y)
    ensures Sorted([h] + rest, le)
  {
    var r := [h] + rest;
    forall i, j | 0 <= i < j < |r| ensures le(r[i], r[j]) {
      if i == 0 {
        assert r[j] in rest;
      } else {
        assert r[i] == rest[i - 1] && r[j] == rest[j - 1];
      }
    }
  }

  lemma {:induction false} SortSorted<T(!new)>(s: seq<T>, le: (T, T) -> bool)
    requires TotalPreorder(le)
    ensures Sorted(Sort(s, le), le)
  {
    if s != [] {
      SortSorted(s[1..], le);
      InsertSorted(s[0], Sort(s[1..], le), le);
    }
  }

  lemma SortNoDups<T(!new)>(s: seq<T>, le: (T, T) -> bool)
    requires NoDups(s)
    ensures NoDups(Sort(s, le))
  {
    var r := Sort(s, le);
    forall x | x in r ensures multiset(r)[x] == 1 {
      assert x in multiset(s);
    }
  }

  /** The rows of `table` whose key differs from `k`. */
  function Without<T(!new), K(==)>(table: seq<T>, key: T -> K, k: K): (r: seq<T>)
    ensures forall x :: x in r <==> x in table && key(x) != k
  {
    if table == [] then []
    else (if key(table[0]) != k then [table[0]] else []) + Without(table[1..], key, k)
  }

  lemma {:induction false} WithoutAppend<T(!new), K>(a: seq<T>, b: seq<T>, key: T -> K, k: K)
    ensures Without(a + b, key, k) == Without(a, key, k) + Without(b, key, k)
  {
    if a == [] {
      assert a + b == b;
    } else {
      assert (a + b)[1..] == a[1..] + b;
      WithoutAppend(a[1..], b, key, k);
    }
  }

  lemma {:induction false} WithoutNone<T(!new), K>(table: seq<T>, key: T -> K, k: K)
    requires forall x :: x in table ==> key(x) != k
    ensures Without(table, key, k) == table
  {
    if table != [] {
      WithoutNone(table[1..], key, k);
    }
  }

  /** REPLACE INTO: delete every row whose key equals the new row's, then
      insert the new row. */
  function Replace<T(!new), K(==)>(table: seq<T>, key: T -> K, row: T): (r: seq<T>)
    ensures row in r
    ensures forall x :: x in r && key(x) == key(row) ==> x == row
    ensures forall x :: key(x) != key(row) ==> (x in r <==> x in table)
  {
    Without(table, key, key(row)) + [row]
  }

  /** A second REPLACE on the same key overwrites the first completely. */
  lemma {:induction false} ReplaceTwice<T(!new), K>(table: seq<T>, key: T -> K, a: T, b: T)
    requires key(a) == key(b)
    ensures Replace(Replace(table, key, a), key, b) == Replace(table, key, b)
  {
    var k := key(a);
    var rest := Without(table, key, k);
    WithoutAppend(rest, [a], key, k);
    WithoutNone(rest, key, k);
    WithoutSingle(a, key);
    assert Without(rest + [a], key, k) == rest;
  }

  lemma WithoutSingle<T(!new), K>(a: T, key: T -> K)
    ensures Without([a], key, key(a)) == []
  {
    assert [a][1..] == [];
  }

  /** After a REPLACE exactly one row carries the key. */
  lemma {:induction false} ReplaceKeyCount<T(!new), K>(table: seq<T>, key: T -> K, row: T)
    ensures Count(Replace(table, key, row), x => key(x) == key(row)) == 1
  {
    var k := key(row);
    var p := x => key(x) == k;
    FilterAppend(Without(table, key, k), [row], p);
    assert Count(Without(table, key, k), p) == 0;
    assert Filter([row], p) == [row];
  }

  /** Keys are unique: the table already satisfies its PRIMARY KEY. */
  predicate UniqueKeys<T(!new), K(==)>(table: seq<T>, key: T -> K) {
    forall i, j :: 0 <= i < j < |table| ==> key(table[i]) != key(table[j])
  }

  lemma {:induction false} ReplaceUniqueKeys<T(!new), K>(table: seq<T>, key: T -> K, row: T)
    requires UniqueKeys(table, key)
    ensures UniqueKeys(Replace(table, key, row), key)
  {
    WithoutUniqueKeys(table, key, key(row));
    var w := Without(table, key, key(row));
    var r := w + [row];
    forall i, j | 0 <= i < j < |r| ensures key(r[i]) != key(r[j]) {
      if j == |w| {
        assert r[i] in w;
      } else {
        assert r[i] == w[i] && r[j] == w[j];
      }
    }
  }

  lemma {:induction false} WithoutUniqueKeys<T(!new), K>(table: seq<T>, key: T -> K, k: K)
    requires UniqueKeys(table, key)
    ensures UniqueKeys(Without(table, key, k), key)
  {
    if table != [] {
      WithoutUniqueKeys(table[1..], key, k);
      var rest := Without(table[1..], key, k);
      var r := Without(table, key, k);
      if key(table[0]) != k {
        forall j | 0 < j < |r| ensures key(r[0]) != key(r[j]) {
          assert r[j] in rest;
          var m :| 0 <= m < |table[1..]| && table[1..][m] == r[j];
          assert table[m + 1] == r[j];
        }
        forall i, j | 0 <= i < j < |r| ensures key(r[i]) != key(r[j]) {
          if i > 0 {
            assert r[i] == rest[i - 1] && r[j] == rest[j - 1];
          }
        }
      }
    }
  }

  /** WHERE field = v, in table order. */
  function Where<T(!new), K(==)>(table: seq<T>, field: T -> K, v: K): (r: seq<T>)
    ensures forall x :: x in r <==> x in table && field(x) == v
    ensures |r| <= |table|
  {
    if table == [] then []
    else (if field(table[0]) == v then [table[0]] else []) + Where(table[1..], field, v)
  }

  lemma {:induction false} WhereAppend<T(!new), K>(a: seq<T>, b: seq<T>, field: T -> K, v: K)
    ensures Where(a + b, field, v) == Where(a, field, v) + Where(b, field, v)
  {
    if a == [] {
      assert a + b == b;
    } else {
      assert (a + b)[1..] == a[1..] + b;
      WhereAppend(a[1..], b, field, v);
    }
  }

  lemma UniqueKeysTail<T(!new), K>(table: seq<T>, key: T -> K)
    requires table != [] && UniqueKeys(table, key)
    ensures UniqueKeys(table[1..], key)
    ensures forall x :: x in table[1..] ==> key(x) != key(table[0])
  {
    var u := table[1..];
    forall i, j | 0 <= i < j < |u| ensures key(u[i]) != key(u[j]) {
      assert u[i] == table[i + 1] && u[j] == table[j + 1];
    }
    forall x | x in u ensures key(x) != key(table[0]) {
      var i :| 0 <= i < |u| && u[i] == x;
      assert x == table[i + 1];
    }
  }

  /** Some row of `table` carries key `k`. */
  predicate HasKey<T, K(==)>(table: seq<T>, key: T -> K, k: K) {
    exists i :: 0 <= i < |table| && key(table[i]) == k
  }

  /** Past a first row with another key, the key is present in the table
      exactly when it is present in the rest. */
  lemma HasKeyTail<T, K>(table: seq<T>, key: T -> K, k: K)
    requires table != [] && key(table[0]) != k
    ensures HasKey(table, key, k) <==> HasKey(table[1..], key, k)
  {
    var u := table[1..];
    if HasKey(table, key, k) {
      var i :| 0 <= i < |table| && key(table[i]) == k;
      assert i > 0 && key(u[i - 1]) == k;
    }
    if HasKey(u, key, k) {
      var i :| 0 <= i < |u| && key(u[i]) == k;
      assert key(table[i + 1]) == k;
    }
  }

  /** The values `tag` takes on the rows with `field(x) == v`. */
  ghost function TagsWhere<T(!new), F, G(!new)>(table: seq<T>, field: T -> F, v: F, tag: T -> G): set<G> {
    set x | x in table && field(x) == v :: tag(x)
  }

  /** When the primary key is determined by `field` and `tag` together, the
      rows with `field(x) == v` are as many as the distinct tags they carry. */
  lemma {:induction false} WhereCountsTags<T(!new), K, F, G(!new)>(table: seq<T>, key: T -> K, field: T -> F, v: F, tag: T -> G)
    requires UniqueKeys(table, key)
    requires forall x, y :: field(x) == field(y) && tag(x) == tag(y) ==> key(x) == key(y)
    ensures |Where(table, field, v)| == |TagsWhere(table, field, v, tag)|
  {
    if table == [] {
      assert TagsWhere(table, field, v, tag) == {};
    } else {
      var h, u := table[0], table[1..];
      UniqueKeysTail(table, key);
      WhereCountsTags(u, key, field, v, tag);
      var rest := TagsWhere(u, field, v, tag);
      assert forall x :: x in table <==> x == h || x in u;
      if field(h) == v {
        assert tag(h) !in rest;
        assert TagsWhere(table, field, v, tag) == {tag(h)} + rest;
      } else {
        assert TagsWhere(table, field, v, tag) == rest;
      }
    }
  }

  lemma {:induction false} WhereNone<T(!new), K>(table: seq<T>, field: T -> K, v: K)
    requires forall x :: x in table ==> field(x) != v
    ensures Where(table, field, v) == []
  {
    if table != [] {
      WhereNone(table[1..], field, v);
    }
  }

  /** Deleting the row with key `k` lowers a per-value count by one exactly
      when that row exists and carries the value; `field` must be a function
      of the key. */
  lemma {:induction false} WhereWithout<T(!new), K, F>(table: seq<T>, key: T -> K, k: K, field: T -> F, proj: K -> F, v: F)
    requires UniqueKeys(table, key)
    requires forall x :: field(x) == proj(key(x))
    ensures |Where(Without(table, key, k), field, v)|
         == |Where(table, field, v)| - (if v == proj(k) && HasKey(table, key, k) then 1 else 0)
  {
    if table != [] {
      var h, u := table[0], table[1..];
      UniqueKeysTail(table, key);
      WhereWithout(u, key, k, field, proj, v);
      var hw := if field(h) == v then [h] else [];
      assert Where(table, field, v) == hw + Where(u, field, v);
      if key(h) == k {
        assert HasKey(table, key, k);
        assert !HasKey(u, key, k) by {
          forall i | 0 <= i < |u| ensures key(u[i]) != k {
            assert u[i] in u;
          }
        }
        assert Without(table, key, k) == Without(u, key, k);
        assert field(h) == proj(k);
      } else {
        assert Without(table, key, k) == [h] + Without(u, key, k);
        WhereAppend([h], Without(u, key, k), field, v);
        assert Where([h], field, v) == hw;
        HasKeyTail(table, key, k);
      }
    }
  }

  /** REPLACE seen through a per-value count: the count for the new row's
      value grows by one unless the key was already present, and every other
      count is unchanged. */
  lemma WhereAfterReplace<T(!new), K, F>(table: seq<T>, key: T -> K, row: T, field: T -> F, proj: K -> F)
    requires UniqueKeys(table, key)
    requires forall x :: field(x) == proj(key(x))
    ensures |Where(Replace(table, key, row), field, field(row))|
         == |Where(table, field, field(row))| + (if HasKey(table, key, key(row)) then 0 else 1)
    ensures forall v :: v != field(row) ==> |Where(Replace(table, key, row), field, v)| == |Where(table, field, v)|
  {
    var k := key(row);
    WhereAppend(Without(table, key, k), [row], field, field(row));
    WhereWithout(table, key, k, field, proj, field(row));
    forall v | v != field(row)
      ensures |Where(Replace(table, key, row), field, v)| == |Where(table, field, v)|
    {
      WhereAppend(Without(table, key, k), [row], field, v);
      WhereWithout(table, key, k, field, proj, v);
    }
  }

  /** Under unique keys, a key that is present selects exactly one row. */
  lemma {:induction false} WhereUniqueKey<T(!new), K>(table: seq<T>, key: T -> K, k: K)
    requires UniqueKeys(table, key)
    requires HasKey(table, key, k)
    ensures |Where(table, key, k)| == 1
  {
    var h, u := table[0], table[1..];
    UniqueKeysTail(table, key);
    assert table == [h] + u;
    if key(h) == k {
      WhereNone(u, key, k);
    } else {
      var i :| 0 <= i < |table| && key(table[i]) == k;
      assert key(u[i - 1]) == k;
      WhereUniqueKey(u, key, k);
    }
  }
}
