/** A stable sort parameterised by a "less or equal" relation. It stands for
    JavaScript's `Array.prototype.sort` (stable since ES2019) and for an SQL
    `ORDER BY` whose ties keep table order. */
module Sorting {

  ghost predicate TotalPreorder<T(!new)>(le: (T, T) -> bool) {
    && (forall x, y :: le(x, y) || le(y, x))
    && (forall x, y, z :: le(x, y) && le(y, z) ==> le(x, z))
  }

  ghost predicate SortedBy<T>(s: seq<T>, le: (T, T) -> bool) {
    forall i, j :: 0 <= i < j < |s| ==> le(s[i], s[j])
  }

  /** Puts `x` in front of the first element it is less or equal to. */
  function Insert<T>(x: T, s: seq<T>, le: (T, T) -> bool): (r: seq<T>)
    ensures multiset(r) == multiset(s) + multiset{x}
    ensures |r| == |s| + 1
  {
    if s == [] then [x]
    else if le(x, s[0]) then [x] + s
    else
      assert s == [s[0]] + s[1..];
      [s[0]] + Insert(x, s[1..], le)
  }

  /** Insertion sort; an element is never moved past an element it is equal
      to, so equal elements keep their input order. */
  function SortBy<T>(s: seq<T>, le: (T, T) -> bool): (r: seq<T>)
    ensures multiset(r) == multiset(s)
    ensures |r| == |s|
  {
    if s == [] then []
    else
      assert s == [s[0]] + s[1..];
      Insert(s[0], SortBy(s[1..], le), le)
  }

  lemma {:induction false} InsertSorted<T(!new)>(x: T, s: seq<T>, le: (T, T) -> bool)
    requires TotalPreorder(le)
    requires SortedBy(s, le)
    ensures SortedBy(Insert(x, s, le), le)
  {
    if s != [] && !le(x, s[0]) {
      InsertSorted(x, s[1..], le);
      var r := Insert(x, s[1..], le);
      assert le(s[0], x);
      forall k | 0 <= k < |r| ensures le(s[0], r[k]) {
        assert r[k] in multiset(r);
        assert r[k] == x || r[k] in multiset(s[1..]);
        if r[k] != x {
          var m :| 0 <= m < |s[1..]| && s[1..][m] == r[k];
          assert s[m + 1] == r[k];
        }
      }
    }
  }

  /** The result of `SortBy` is sorted and a permutation of the input. */
  lemma {:induction false} SortBySorted<T(!new)>(s: seq<T>, le: (T, T) -> bool)
    requires TotalPreorder(le)
    ensures SortedBy(SortBy(s, le), le)
    ensures multiset(SortBy(s, le)) == multiset(s)
  {
    if s != [] {
      SortBySorted(s[1..], le);
      InsertSorted(s[0], SortBy(s[1..], le), le);
    }
  }

  /** An input already in order comes back unchanged. */
  lemma {:induction false} SortByOfSorted<T>(s: seq<T>, le: (T, T) -> bool)
    requires SortedBy(s, le)
    ensures SortBy(s, le) == s
  {
    if s != [] {
      SortByOfSorted(s[1..], le);
      assert s == [s[0]] + s[1..];
    }
  }

  /** The elements of `s` that `le` cannot tell apart from `v`, in order. */
  function Ties<T>(s: seq<T>, le: (T, T) -> bool, v: T): seq<T> {
    if s == [] then []
    else (if le(s[0], v) && le(v, s[0]) then [s[0]] else []) + Ties(s[1..], le, v)
  }

  lemma TiesCons<T>(a: T, r: seq<T>, le: (T, T) -> bool, v: T)
    ensures Ties([a] + r, le, v) == (if le(a, v) && le(v, a) then [a] else []) + Ties(r, le, v)
  {
    assert ([a] + r)[1..] == r;
  }

  /** An element that `x` does not precede is never tied with `x`'s ties. */
  lemma NotTiedBoth<T(!new)>(x: T, y: T, le: (T, T) -> bool, v: T)
    requires TotalPreorder(le) && !le(x, y)
    ensures !(le(x, v) && le(v, y))
  {
  }

  /** Inserting `x` puts it in front of every element tied with it. */
  lemma {:induction false} InsertTies<T(!new)>(x: T, s: seq<T>, le: (T, T) -> bool, v: T)
    requires TotalPreorder(le)
    ensures Ties(Insert(x, s, le), le, v) == (if le(x, v) && le(v, x) then [x] else []) + Ties(s, le, v)
  {
    if s == [] {
      TiesCons(x, [], le, v);
    } else if le(x, s[0]) {
      TiesCons(x, s, le, v);
    } else {
      var r := Insert(x, s[1..], le);
      assert Insert(x, s, le) == [s[0]] + r;
      TiesCons(s[0], r, le, v);
      InsertTies(x, s[1..], le, v);
      assert s == [s[0]] + s[1..];
      TiesCons(s[0], s[1..], le, v);
      NotTiedBoth(x, s[0], le, v);
    }
  }

  /** Stability: tied elements come out in their input order, so rows an
      `ORDER BY` leaves tied keep table order. */
  lemma {:induction false} SortByStable<T(!new)>(s: seq<T>, le: (T, T) -> bool, v: T)
    requires TotalPreorder(le)
    ensures Ties(SortBy(s, le), le, v) == Ties(s, le, v)
  {
    if s != [] {
      SortByStable(s[1..], le, v);
      InsertTies(s[0], SortBy(s[1..], le), le, v);
    }
  }

  /** No two elements share a key. */
  ghost predicate DistinctKeys<T, K>(s: seq<T>, key: T -> K) {
    forall i, j :: 0 <= i < j < |s| ==> key(s[i]) != key(s[j])
  }

  lemma {:induction false} InsertDistinctKeys<T, K>(x: T, s: seq<T>, le: (T, T) -> bool, key: T -> K)
    requires DistinctKeys(s, key)
    requires forall y :: y in s ==> key(y) != key(x)
    ensures DistinctKeys(Insert(x, s, le), key)
  {
    if s != [] && !le(x, s[0]) {
      var t := s[1..];
      InsertDistinctKeys(x, t, le, key);
      var r := Insert(x, t, le);
      forall k | 0 <= k < |r| ensures key(s[0]) != key(r[k]) {
        assert r[k] in multiset(r);
        if r[k] != x {
          assert r[k] in multiset(t);
          var m :| 0 <= m < |t| && t[m] == r[k];
          assert s[m + 1] == r[k];
        }
      }
      assert Insert(x, s, le) == [s[0]] + r;
    }
  }

  /** Sorting keeps the keys of the elements pairwise different. */
  lemma {:induction false} SortByDistinctKeys<T, K>(s: seq<T>, le: (T, T) -> bool, key: T -> K)
    requires DistinctKeys(s, key)
    ensures DistinctKeys(SortBy(s, le), key)
  {
    if s != [] {
      var t := s[1..];
      SortByDistinctKeys(t, le, key);
      forall y | y in SortBy(t, le) ensures key(y) != key(s[0]) {
        assert y in multiset(SortBy(t, le));
        var m :| 0 <= m < |t| && t[m] == y;
        assert s[m + 1] == y;
      }
      InsertDistinctKeys(s[0], SortBy(t, le), le, key);
    }
  }

  function MapSeq<T>(s: seq<T>, f: T -> T): (r: seq<T>)
    ensures |r| == |s|
  {
    seq(|s|, k requires 0 <= k < |s| => f(s[k]))
  }

  lemma MapSeqAppend<T>(a: seq<T>, b: seq<T>, f: T -> T)
    ensures MapSeq(a + b, f) == MapSeq(a, f) + MapSeq(b, f)
  {
  }

  lemma MapSeqCons<T>(y: T, s: seq<T>, f: T -> T)
    ensures MapSeq([y] + s, f) == [f(y)] + MapSeq(s, f)
  {
  }

  lemma {:induction false} InsertMap<T>(x: T, s: seq<T>, le: (T, T) -> bool, f: T -> T)
    requires forall a, b :: le(f(a), f(b)) == le(a, b)
    ensures Insert(f(x), MapSeq(s, f), le) == MapSeq(Insert(x, s, le), f)
  {
    if s == [] {
      MapSeqCons(x, [], f);
    } else {
      var m := MapSeq(s, f);
      assert s == [s[0]] + s[1..];
      MapSeqCons(s[0], s[1..], f);
      assert m[0] == f(s[0]) && m[1..] == MapSeq(s[1..], f);
      if le(x, s[0]) {
        MapSeqCons(x, s, f);
      } else {
        InsertMap(x, s[1..], le, f);
        MapSeqCons(s[0], Insert(x, s[1..], le), f);
      }
    }
  }

  /** Sorting commutes with a change of the elements that keeps the order
      between them. */
  lemma {:induction false} SortByMap<T>(s: seq<T>, le: (T, T) -> bool, f: T -> T)
    requires forall a, b :: le(f(a), f(b)) == le(a, b)
    ensures SortBy(MapSeq(s, f), le) == MapSeq(SortBy(s, le), f)
  {
    if s != [] {
      SortByMap(s[1..], le, f);
      assert MapSeq(s, f)[1..] == MapSeq(s[1..], f);
      InsertMap(s[0], SortBy(s[1..], le), le, f);
    }
  }
}
