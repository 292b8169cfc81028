/** What the controllers ask of the document store beyond lookup by id:
    the records of a collection in natural (insertion) order, sorting by a
    compound descending key (`.sort({ a: -1, b: -1 })`) and `.limit(n)`. */
module Query {
  import opened Common

  /** `m` is the smallest element of `s`. */
  predicate IsMinOf(m: Id, s: set<Id>)
  {
    m in s && forall x :: x in s ==> m <= x
  }

  lemma {:induction false} MinExists(s: set<Id>)
    requires s != {}
    ensures exists m :: IsMinOf(m, s)
    decreases s
  {
    var y :| y in s;
    if s == {y} {
      assert IsMinOf(y, s);
    } else {
      var rest := s - {y};
      MinExists(rest);
      var m :| IsMinOf(m, rest);
      var least := if y < m then y else m;
      forall x | x in s ensures least <= x {
        if x != y { assert x in rest; }
      }
      assert IsMinOf(least, s);
    }
  }

  /** The smallest id of a non-empty set. */
  function MinId(s: set<Id>): (m: Id)
    requires s != {}
    ensures m in s && forall x :: x in s ==> m <= x
  {
    MinExists(s);
    var m :| IsMinOf(m, s);
    m
  }

  /** The ids of a set in ascending order. */
  function SortedIds(s: set<Id>): (r: seq<Id>)
    ensures forall i :: 0 <= i < |r| ==> r[i] in s
    ensures forall x :: x in s ==> x in r
    ensures forall i, j {:trigger r[i], r[j]} :: 0 <= i < j < |r| ==> r[i] < r[j]
    decreases s
  {
    if s == {} then []
    else
      var m := MinId(s);
      var rest := SortedIds(s - {m});
      [m] + rest
  }

  /** There are as many sorted ids as ids. */
  lemma {:induction false} SortedIdsLength(s: set<Id>)
    ensures |SortedIds(s)| == |s|
    decreases s
  {
    if s != {} {
      var m := MinId(s);
      SortedIdsLength(s - {m});
    }
  }

  /** The records of a collection in natural order: the record of the
      i-th smallest id at place i. */
  function Records<T>(m: map<Id, T>): (r: seq<T>)
    ensures |r| == |SortedIds(m.Keys)| == |m|
    ensures forall i :: 0 <= i < |r| ==> r[i] == m[SortedIds(m.Keys)[i]]
  {
    var ids := SortedIds(m.Keys);
    SortedIdsLength(m.Keys);
    seq(|ids|, i requires 0 <= i < |ids| => m[ids[i]])
  }

  /** Every stored record is among the records of its collection. */
  lemma RecordsCover<T>(m: map<Id, T>, k: Id)
    requires k in m
    ensures m[k] in Records(m)
  {
    var ids := SortedIds(m.Keys);
    var i :| 0 <= i < |ids| && ids[i] == k;
    assert Records(m)[i] == m[k];
  }

  /** The records of a collection are exactly its stored values. */
  lemma RecordsExact<T>(m: map<Id, T>)
    ensures forall x :: x in Records(m) <==> x in m.Values
  {
    forall x | x in m.Values ensures x in Records(m) {
      var k :| k in m && m[k] == x;
      RecordsCover(m, k);
    }
  }

  /** Sorting the records that pass a filter keeps exactly the stored
      values that pass it. */
  lemma SortedFilterExact<T>(m: map<Id, T>, p: T -> bool, key: T -> SortKey)
    ensures forall x :: x in SortDesc(Filter(Records(m), p), key) <==> x in m.Values && p(x)
  {
    var all := Records(m);
    var kept := Filter(all, p);
    var r := SortDesc(kept, key);
    RecordsExact(m);
    assert forall x :: x in r <==> x in multiset(kept);
    forall x | x in m.Values && p(x) ensures x in kept {
      var i :| 0 <= i < |all| && all[i] == x;
    }
  }

  /** A compound sort key: `major` first, then `minor`. */
  datatype SortKey = SortKey(major: int, minor: int)

  /** `a` may come before `b` in a descending sort on both fields. */
  predicate KeyGe(a: SortKey, b: SortKey)
  {
    a.major > b.major || (a.major == b.major && a.minor >= b.minor)
  }

  ghost predicate SortedDesc<T>(s: seq<T>, key: T -> SortKey)
  {
    forall i, j :: 0 <= i < j < |s| ==> KeyGe(key(s[i]), key(s[j]))
  }

  /** Puts `x` into a sorted sequence in front of the first element whose key
      it is not below. */
  function Insert<T(==)>(x: T, s: seq<T>, key: T -> SortKey): (r: seq<T>)
    requires SortedDesc(s, key)
    ensures SortedDesc(r, key)
    ensures |r| == |s| + 1
    ensures multiset(r) == multiset(s) + multiset{x}
    ensures forall i :: 0 <= i < |r| ==> r[i] == x || r[i] in s
  {
    if s == [] then [x]
    else if KeyGe(key(x), key(s[0])) then
      SortedCons(x, s, key);
      [x] + s
    else
      var rest := Insert(x, s[1..], key);
      assert s == [s[0]] + s[1..];
      forall j | 0 <= j < |rest| ensures KeyGe(key(s[0]), key(rest[j])) {
        if rest[j] != x {
          var k :| 0 <= k < |s[1..]| && s[1..][k] == rest[j];
          assert s[k + 1] == rest[j];
        }
      }
      SortedCons(s[0], rest, key);
      [s[0]] + rest
  }

  /** An element no smaller than every element of a sorted sequence can go
      in front of it. */
  lemma SortedCons<T>(x: T, s: seq<T>, key: T -> SortKey)
    requires SortedDesc(s, key)
    requires forall j :: 0 <= j < |s| ==> KeyGe(key(x), key(s[j]))
    ensures SortedDesc([x] + s, key)
  {
    var r := [x] + s;
    forall i, j | 0 <= i < j < |r| ensures KeyGe(key(r[i]), key(r[j])) {
      assert r[j] == s[j - 1];
      if i > 0 {
        assert r[i] == s[i - 1];
      }
    }
  }

  /** `.sort({ ... })` by a descending compound key: a sorted permutation. */
  function SortDesc<T(==)>(s: seq<T>, key: T -> SortKey): (r: seq<T>)
    ensures SortedDesc(r, key)
    ensures |r| == |s|
    ensures multiset(r) == multiset(s)
  {
    if s == [] then []
    else
      assert s == [s[0]] + s[1..];
      Insert(s[0], SortDesc(s[1..], key), key)
  }

  /** `.limit(n)`. */
  function Take<T>(s: seq<T>, n: nat): (r: seq<T>)
    ensures |r| == if |s| <= n then |s| else n
    ensures r == s[..|r|]
  {
    if |s| <= n then s else s[..n]
  }

  /** The limit of a sorted sequence is sorted. */
  lemma TakeSorted<T>(s: seq<T>, key: T -> SortKey, n: nat)
    requires SortedDesc(s, key)
    ensures SortedDesc(Take(s, n), key)
  {
    var r := Take(s, n);
    forall i, j | 0 <= i < j < |r| ensures KeyGe(key(r[i]), key(r[j])) {
      assert r[i] == s[i] && r[j] == s[j];
    }
  }

  /** The limit of a sorted sequence holds its largest elements: whatever
      the limit leaves out has a key no larger than anything it keeps. */
  lemma {:induction false} TakeOfSortedIsTop<T>(s: seq<T>, key: T -> SortKey, n: nat)
    requires SortedDesc(s, key)
    ensures forall x, i :: x in multiset(s) - multiset(Take(s, n)) && 0 <= i < |Take(s, n)| ==>
              KeyGe(key(Take(s, n)[i]), key(x))
  {
    var top := Take(s, n);
    var k := |top|;
    assert s == top + s[k..];
    assert multiset(s) == multiset(top) + multiset(s[k..]);
    forall x, i | x in multiset(s) - multiset(top) && 0 <= i < k
      ensures KeyGe(key(top[i]), key(x))
    {
      assert x in multiset(s[k..]);
      var j :| 0 <= j < |s[k..]| && s[k..][j] == x;
      assert s[k + j] == x;
    }
  }

  /** `.sort(...).limit(n)` keeps elements of `s` and none of the elements
      it drops has a key above an element it keeps. */
  lemma TopOfSortDesc<T>(s: seq<T>, key: T -> SortKey, n: nat)
    ensures multiset(Take(SortDesc(s, key), n)) <= multiset(s)
    ensures forall x, i :: (x in multiset(s) - multiset(Take(SortDesc(s, key), n))
              && 0 <= i < |Take(SortDesc(s, key), n)|) ==> KeyGe(key(Take(SortDesc(s, key), n)[i]), key(x))
  {
    var ranked := SortDesc(s, key);
    var top := Take(ranked, n);
    assert ranked == top + ranked[|top|..];
    assert multiset(ranked) == multiset(top) + multiset(ranked[|top|..]);
    TakeOfSortedIsTop(ranked, key, n);
  }

  /** `$sum` of a per-record quantity. */
  function SumBy<T>(s: seq<T>, f: T -> int): int
  {
    if s == [] then 0 else f(s[0]) + SumBy(s[1..], f)
  }

  lemma {:induction false} SumByAppend<T>(a: seq<T>, b: seq<T>, f: T -> int)
    ensures SumBy(a + b, f) == SumBy(a, f) + SumBy(b, f)
  {
    if a == [] {
      assert a + b == b;
    } else {
      assert (a + b)[1..] == a[1..] + b;
      SumByAppend(a[1..], b, f);
    }
  }

  /** A sum does not depend on the order of the records. */
  lemma {:induction false} SumByPermutation<T>(a: seq<T>, b: seq<T>, f: T -> int)
    requires multiset(a) == multiset(b)
    ensures SumBy(a, f) == SumBy(b, f)
    decreases |a|
  {
    if a == [] {
      assert |b| == |multiset(b)| == 0;
    } else {
      var x := a[0];
      assert x in multiset(b);
      var i :| 0 <= i < |b| && b[i] == x;
      var b' := b[..i] + b[i + 1..];
      assert b == b[..i] + [x] + b[i + 1..];
      assert multiset(b') == multiset(b) - multiset{x};
      assert a == [x] + a[1..];
      SumByPermutation(a[1..], b', f);
      SumByAppend(b[..i] + [x], b[i + 1..], f);
      SumByAppend(b[..i], [x], f);
      SumByAppend(b[..i], b[i + 1..], f);
    }
  }
}
