/** Sequence operations shared by the query layer and the client views:
    filtering (SQL WHERE, Array.prototype.filter), windows (OFFSET/LIMIT,
    Array.prototype.slice), first match (LIMIT 1) and ordering (ORDER BY). */
module Seqs {
  import opened Wrappers

  /** The elements of `s` that satisfy `p`, in their original order. */
  function Filter<T(!new)>(s: seq<T>, p: T -> bool): (r: seq<T>)
    ensures |r| <= |s|
    ensures forall x :: x in r <==> x in s && p(x)
  {
    if s == [] then []
    else if p(s[0]) then [s[0]] + Filter(s[1..], p)
    else Filter(s[1..], p)
  }

  /** `r` can be obtained from `s` by dropping elements, without reordering. */
  ghost predicate IsSubsequence<T>(r: seq<T>, s: seq<T>)
    decreases |s|
  {
    if r == [] then true
    else if s == [] then false
    else if r[0] == s[0] then IsSubsequence(r[1..], s[1..])
    else IsSubsequence(r, s[1..])
  }

  lemma {:induction false} FilterIsSubsequence<T(!new)>(s: seq<T>, p: T -> bool)
    ensures IsSubsequence(Filter(s, p), s)
  {
    if s != [] {
      FilterIsSubsequence(s[1..], p);
      var r := Filter(s, p);
      if p(s[0]) {
        assert r[1..] == Filter(s[1..], p);
      } else if r != [] {
        assert r[0] in Filter(s[1..], p);
        assert r[0] != s[0];
      }
    }
  }

  /** Keeping every element changes nothing. */
  lemma {:induction false} FilterAll<T(!new)>(s: seq<T>, p: T -> bool)
    requires forall x :: x in s ==> p(x)
    ensures Filter(s, p) == s
  {
    if s != [] {
      assert s[0] in s;
      forall x | x in s[1..] ensures p(x) { assert x in s; }
      FilterAll(s[1..], p);
    }
  }

  /** Keeping no element leaves nothing. */
  lemma {:induction false} FilterNone<T(!new)>(s: seq<T>, p: T -> bool)
    requires forall x :: x in s ==> !p(x)
    ensures Filter(s, p) == []
  {
    if s != [] {
      assert s[0] in s;
      forall x | x in s[1..] ensures !p(x) { assert x in s; }
      FilterNone(s[1..], p);
    }
  }

  /** Filtering distributes over concatenation. */
  lemma {:induction false} FilterAppend<T(!new)>(a: seq<T>, b: seq<T>, p: T -> bool)
    ensures Filter(a + b, p) == Filter(a, p) + Filter(b, p)
  {
    if a != [] {
      assert (a + b)[1..] == a[1..] + b;
      FilterAppend(a[1..], b, p);
    } else {
      assert a + b == b;
    }
  }

  /** The positions of `s` whose element satisfies `p`: an independent count of the matches. */
  ghost function PositionsWhere<T>(s: seq<T>, p: T -> bool): set<int> {
    set i | 0 <= i < |s| && p(s[i])
  }

  /** Appending one element adds its position exactly when it matches. */
  lemma PositionsWhereSnoc<T>(s: seq<T>, x: T, p: T -> bool)
    ensures PositionsWhere(s + [x], p) == PositionsWhere(s, p) + (if p(x) then {|s|} else {})
  {
    var a, b := PositionsWhere(s + [x], p), PositionsWhere(s, p) + (if p(x) then {|s|} else {});
    forall i | i in a ensures i in b {
      if i < |s| { assert (s + [x])[i] == s[i]; }
    }
    forall i | i in b ensures i in a {
      if i < |s| { assert (s + [x])[i] == s[i]; }
    }
  }

  /** A filter keeps exactly one element per matching position. */
  lemma {:induction false} FilterCountsPositions<T(!new)>(s: seq<T>, p: T -> bool)
    ensures |Filter(s, p)| == |PositionsWhere(s, p)|
    decreases |s|
  {
    if s != [] {
      var init, x := s[..|s| - 1], s[|s| - 1];
      assert s == init + [x];
      FilterCountsPositions(init, p);
      FilterAppend(init, [x], p);
      assert [x][1..] == [];
      PositionsWhereSnoc(init, x, p);
      assert |s| - 1 !in PositionsWhere(init, p);
    }
  }

  /** Either of two predicates. */
  function Either<T>(p: T -> bool, q: T -> bool): T -> bool {
    x => p(x) || q(x)
  }

  /** Two predicates that never hold together split the count of their union. */
  lemma {:induction false} FilterDisjointCounts<T(!new)>(s: seq<T>, p: T -> bool, q: T -> bool)
    requires forall x :: x in s ==> !(p(x) && q(x))
    ensures |Filter(s, p)| + |Filter(s, q)| == |Filter(s, Either(p, q))|
  {
    if s != [] {
      forall x | x in s[1..] ensures !(p(x) && q(x)) { assert x in s; }
      FilterDisjointCounts(s[1..], p, q);
      assert s[0] in s;
    }
  }

  /** The elements of `s` from position `offset` on, at most `limit` of them:
      SQL's OFFSET followed by LIMIT. */
  function Window<T>(s: seq<T>, offset: nat, limit: nat): (r: seq<T>)
    ensures |r| == if offset >= |s| then 0 else Min(limit, |s| - offset)
    ensures forall i :: 0 <= i < |r| ==> r[i] == s[offset + i]
    ensures forall x :: x in r ==> x in s
    ensures offset == 0 && limit >= |s| ==> r == s
  {
    if offset >= |s| then []
    else if |s| - offset <= limit then s[offset..]
    else s[offset..offset + limit]
  }

  function Min(a: int, b: int): int { if a <= b then a else b }

  function Max(a: int, b: int): int { if a <= b then b else a }

  /** The first element that satisfies `p`, as a query with LIMIT 1 returns it. */
  function First<T(!new)>(s: seq<T>, p: T -> bool): (r: Option<T>)
    ensures r.Some? ==> r.value in s && p(r.value)
    ensures r.None? <==> forall x :: x in s ==> !p(x)
  {
    var rows := Filter(s, p);
    if rows == [] then None
    else assert rows[0] in rows; Some(rows[0])
  }

  /** The first element satisfying `p` is the only one when `p` picks out a unique key. */
  lemma FirstOfSingleton<T(!new)>(s: seq<T>, p: T -> bool, x: T)
    requires x in s && p(x)
    requires forall y :: y in s && p(y) ==> y == x
    ensures First(s, p) == Some(x)
  {
  }

  // ----- ordering -----

  /** `le` is a total preorder: every pair is comparable and the order is transitive. */
  ghost predicate TotalPreorder<T(!new)>(le: (T, T) -> bool) {
    && (forall a, b :: le(a, b) || le(b, a))
    && (forall a, b, c :: le(a, b) && le(b, c) ==> le(a, c))
  }

  ghost predicate Sorted<T>(s: seq<T>, le: (T, T) -> bool) {
    forall i, j :: 0 <= i < j < |s| ==> le(s[i], s[j])
  }

  /** Inserts `x` before the first element it is `le` to. */
  function Insert<T>(x: T, s: seq<T>, le: (T, T) -> bool): (r: seq<T>)
    ensures multiset(r) == multiset(s) + multiset{x}
  {
    if s == [] then [x]
    else if le(x, s[0]) then [x] + s
    else
      assert s == [s[0]] + s[1..];
      [s[0]] + Insert(x, s[1..], le)
  }

  /** Insertion sort: the order a query's ORDER BY clause yields. */
  function SortBy<T>(s: seq<T>, le: (T, T) -> bool): (r: seq<T>)
    ensures multiset(r) == multiset(s)
  {
    if s == [] then []
    else
      assert s == [s[0]] + s[1..];
      Insert(s[0], SortBy(s[1..], le), le)
  }

  /** Sorting keeps exactly the same elements. */
  lemma SortByMembers<T(!new)>(s: seq<T>, le: (T, T) -> bool)
    ensures |SortBy(s, le)| == |s|
    ensures forall x :: x in SortBy(s, le) <==> x in s
  {
    var r := SortBy(s, le);
    assert |r| == |multiset(r)| == |multiset(s)| == |s|;
    forall x ensures x in r <==> x in s {
      assert x in r <==> x in multiset(r);
      assert x in s <==> x in multiset(s);
    }
  }

  lemma {:induction false} InsertSorted<T(!new)>(x: T, s: seq<T>, le: (T, T) -> bool)
    requires TotalPreorder(le) && Sorted(s, le)
    ensures Sorted(Insert(x, s, le), le)
  {
    if s != [] && !le(x, s[0]) {
      var rest := Insert(x, s[1..], le);
      InsertSorted(x, s[1..], le);
      forall y | y in rest ensures le(s[0], y) {
        assert y in multiset(rest);
        if y != x {
          assert y in multiset(s[1..]);
          assert y in s[1..];
        }
      }
      var r := [s[0]] + rest;
      forall i, j | 0 <= i < j < |r| ensures le(r[i], r[j]) {
        if i == 0 {
          assert r[j] == rest[j - 1];
          assert rest[j - 1] in rest;
        } else {
          assert r[i] == rest[i - 1] && r[j] == rest[j - 1];
        }
      }
    } else if s != [] {
      var r := [x] + s;
      forall i, j | 0 <= i < j < |r| ensures le(r[i], r[j]) {
        if i == 0 && j > 1 {
          assert le(x, s[0]) && le(s[0], s[j - 1]);
        }
      }
    }
  }

  lemma {:induction false} SortBySorted<T(!new)>(s: seq<T>, le: (T, T) -> bool)
    requires TotalPreorder(le)
    ensures Sorted(SortBy(s, le), le)
  {
    if s != [] {
      SortBySorted(s[1..], le);
      InsertSorted(s[0], SortBy(s[1..], le), le);
    }
  }

  // ----- unique keys -----

  /** The keys of the elements of `s`. */
  ghost function Keys<T(!new)>(s: seq<T>, key: T -> int): set<int> {
    set x | x in s :: key(x)
  }

  /** No two elements of `s` share a key (a primary-key or unique constraint). */
  predicate UniqueBy<T>(s: seq<T>, key: T -> int) {
    forall i, j :: 0 <= i < j < |s| ==> key(s[i]) != key(s[j])
  }

  lemma UniqueByMembers<T>(s: seq<T>, key: T -> int, x: T, y: T)
    requires UniqueBy(s, key) && x in s && y in s && key(x) == key(y)
    ensures x == y
  {
    var i :| 0 <= i < |s| && s[i] == x;
    var j :| 0 <= j < |s| && s[j] == y;
    assert i == j;
  }

  lemma {:induction false} FilterUniqueBy<T(!new)>(s: seq<T>, p: T -> bool, key: T -> int)
    requires UniqueBy(s, key)
    ensures UniqueBy(Filter(s, p), key)
  {
    if s != [] {
      assert UniqueBy(s[1..], key);
      FilterUniqueBy(s[1..], p, key);
      var rest := Filter(s[1..], p);
      if p(s[0]) {
        forall y | y in rest ensures key(y) != key(s[0]) {
          assert y in s[1..];
          var j :| 0 <= j < |s[1..]| && s[1..][j] == y;
          assert s[j + 1] == y;
        }
        var r := [s[0]] + rest;
        forall i, j | 0 <= i < j < |r| ensures key(r[i]) != key(r[j]) {
          assert r[j] == rest[j - 1] && rest[j - 1] in rest;
          if i > 0 { assert r[i] == rest[i - 1]; }
        }
      }
    }
  }

  lemma UniqueByAppend<T(!new)>(s: seq<T>, x: T, key: T -> int)
    requires UniqueBy(s, key) && key(x) !in Keys(s, key)
    ensures UniqueBy(s + [x], key)
  {
    var r := s + [x];
    forall i, j | 0 <= i < j < |r| ensures key(r[i]) != key(r[j]) {
      if j == |s| {
        assert r[i] in s;
      }
    }
  }

  /** A key-unique sequence holds each element at most once. */
  lemma {:induction false} UniqueByMultiplicity<T>(s: seq<T>, key: T -> int, x: T)
    requires UniqueBy(s, key)
    ensures multiset(s)[x] <= 1
  {
    if s != [] {
      assert UniqueBy(s[1..], key);
      UniqueByMultiplicity(s[1..], key, x);
      assert s == [s[0]] + s[1..];
      forall j | 0 <= j < |s[1..]| ensures s[1..][j] != s[0] {
        assert key(s[j + 1]) != key(s[0]);
      }
      assert s[0] !in multiset(s[1..]);
    }
  }

  /** An element at two positions occurs at least twice. */
  lemma TwoPositions<T>(s: seq<T>, i: int, j: int)
    requires 0 <= i < j < |s| && s[i] == s[j]
    ensures multiset(s)[s[i]] >= 2
  {
    assert s == s[..j] + s[j..];
    assert s[i] in s[..j] && s[j] in s[j..];
  }

  /** Reordering keeps keys unique. */
  lemma UniqueByPermutation<T>(s: seq<T>, r: seq<T>, key: T -> int)
    requires UniqueBy(s, key) && multiset(r) == multiset(s)
    ensures UniqueBy(r, key)
  {
    forall i, j | 0 <= i < j < |r| ensures key(r[i]) != key(r[j]) {
      assert r[i] in multiset(s) && r[j] in multiset(s);
      if key(r[i]) == key(r[j]) {
        UniqueByMembers(s, key, r[i], r[j]);
        TwoPositions(r, i, j);
        UniqueByMultiplicity(s, key, r[i]);
        assert false;
      }
    }
  }

  /** A window of a sorted sequence is sorted. */
  lemma WindowSorted<T>(s: seq<T>, offset: nat, limit: nat, le: (T, T) -> bool)
    requires Sorted(s, le)
    ensures Sorted(Window(s, offset, limit), le)
  {
    var r := Window(s, offset, limit);
    forall i, j | 0 <= i < j < |r| ensures le(r[i], r[j]) {
      assert r[i] == s[offset + i] && r[j] == s[offset + j];
    }
  }

  /** A window of a key-unique sequence is key-unique. */
  lemma WindowUniqueBy<T>(s: seq<T>, offset: nat, limit: nat, key: T -> int)
    requires UniqueBy(s, key)
    ensures UniqueBy(Window(s, offset, limit), key)
  {
    var r := Window(s, offset, limit);
    forall i, j | 0 <= i < j < |r| ensures key(r[i]) != key(r[j]) {
      assert r[i] == s[offset + i] && r[j] == s[offset + j];
    }
  }

  lemma UniqueByPrepend<T>(s: seq<T>, x: T, key: T -> int)
    requires UniqueBy(s, key) && forall y :: y in s ==> key(y) != key(x)
    ensures UniqueBy([x] + s, key)
  {
    var r := [x] + s;
    forall i, j | 0 <= i < j < |r| ensures key(r[i]) != key(r[j]) {
      assert r[j] == s[j - 1] && s[j - 1] in s;
      if i > 0 { assert r[i] == s[i - 1]; }
    }
  }

  /** A subset is no larger than its superset. */
  lemma SubsetCard<T>(a: set<T>, b: set<T>)
    requires a <= b
    ensures |a| <= |b|
  {
    assert b == a + (b - a);
  }
}
