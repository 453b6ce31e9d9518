/** Grouping a list by a key into an insertion-ordered dictionary, the
    pattern `if k not in d: d[k] = []; d[k].append(x)` followed by
    `d.items()`. Python dictionaries iterate in insertion order, so the
    groups come out in order of each key's first appearance. */
module Grouping {
  import opened Common

  /** The distinct keys of `xs`, in order of first appearance. */
  function KeysInOrder<T, K(==)>(xs: seq<T>, key: T -> K): (ks: seq<K>)
    ensures Distinct(ks)
    ensures forall i :: 0 <= i < |xs| ==> key(xs[i]) in ks
    ensures forall j :: 0 <= j < |ks| ==> exists i :: 0 <= i < |xs| && key(xs[i]) == ks[j]
  {
    if xs == [] then []
    else
      var init := xs[..|xs| - 1];
      var ks := KeysInOrder(init, key);
      var k := key(xs[|xs| - 1]);
      assert forall i :: 0 <= i < |init| ==> xs[i] == init[i];
      if k in ks then ks else ks + [k]
  }

  /** The elements of `xs` whose key is `k`, in their order in `xs`. */
  function MembersOf<T, K(==)>(xs: seq<T>, key: T -> K, k: K): (ms: seq<T>)
  {
    if xs == [] then []
    else MembersOf(xs[..|xs| - 1], key, k) + (if key(xs[|xs| - 1]) == k then [xs[|xs| - 1]] else [])
  }

  /** A group holds exactly the elements with its key. */
  lemma {:induction false} MembersOfSpec<T, K>(xs: seq<T>, key: T -> K, k: K)
    ensures forall m :: m in MembersOf(xs, key, k) <==> m in xs && key(m) == k
  {
    if xs != [] {
      var init := xs[..|xs| - 1];
      assert xs == init + [xs[|xs| - 1]];
      MembersOfSpec(init, key, k);
    }
  }

  /** The groups as `d.items()` lists them. */
  function Grouped<T, K(==)>(xs: seq<T>, key: T -> K): seq<(K, seq<T>)> {
    var ks := KeysInOrder(xs, key);
    seq(|ks|, j requires 0 <= j < |ks| => (ks[j], MembersOf(xs, key, ks[j])))
  }

  lemma KeysStep<T, K>(xs: seq<T>, key: T -> K, i: nat)
    requires i < |xs|
    ensures KeysInOrder(xs[..i + 1], key) ==
      var ks := KeysInOrder(xs[..i], key);
      if key(xs[i]) in ks then ks else ks + [key(xs[i])]
  {
    assert xs[..i + 1][..i] == xs[..i];
  }

  lemma MembersStep<T, K>(xs: seq<T>, key: T -> K, i: nat, k: K)
    requires i < |xs|
    ensures MembersOf(xs[..i + 1], key, k) ==
      MembersOf(xs[..i], key, k) + (if key(xs[i]) == k then [xs[i]] else [])
  {
    assert xs[..i + 1][..i] == xs[..i];
  }

  lemma {:induction false} MembersAbsent<T, K>(xs: seq<T>, key: T -> K, k: K)
    requires k !in KeysInOrder(xs, key)
    ensures MembersOf(xs, key, k) == []
  {
    if xs != [] {
      var init := xs[..|xs| - 1];
      assert k !in KeysInOrder(init, key);
      MembersAbsent(init, key, k);
    }
  }

  /** Appending `xs[i]` to its key's list turns the groups of `xs[..i]`
      into those of `xs[..i + 1]`. */
  lemma AppendStep<T, K>(xs: seq<T>, key: T -> K, i: nat, dict: map<K, seq<T>>)
    requires i < |xs| && key(xs[i]) in dict
    requires forall k :: k in dict ==> dict[k] == MembersOf(xs[..i], key, k)
    ensures var d := dict[key(xs[i]) := dict[key(xs[i])] + [xs[i]]];
      forall k :: k in d ==> d[k] == MembersOf(xs[..i + 1], key, k)
  {
    var d := dict[key(xs[i]) := dict[key(xs[i])] + [xs[i]]];
    forall k | k in d ensures d[k] == MembersOf(xs[..i + 1], key, k) {
      MembersStep(xs, key, i, k);
    }
  }

  /** The loop that fills the dictionary and reads it back. */
  method GroupInOrder<T, K(==)>(xs: seq<T>, key: T -> K) returns (groups: seq<(K, seq<T>)>)
    ensures groups == Grouped(xs, key)
  {
    var order, dict := FillGroups(xs, key);
    groups := seq(|order|, j requires 0 <= j < |order| => (order[j], dict[order[j]]));
  }

  /** The dictionary after every element has been appended to its key's
      list, with its keys in insertion order. */
  method FillGroups<T, K(==)>(xs: seq<T>, key: T -> K) returns (order: seq<K>, dict: map<K, seq<T>>)
    ensures order == KeysInOrder(xs, key)
    ensures forall k :: k in dict <==> k in order
    ensures forall k :: k in dict ==> dict[k] == MembersOf(xs, key, k)
  {
    order, dict := [], map[];
    for i := 0 to |xs|
      invariant order == KeysInOrder(xs[..i], key)
      invariant forall k :: k in dict <==> k in order
      invariant forall k :: k in dict ==> dict[k] == MembersOf(xs[..i], key, k)
    {
      var k := key(xs[i]);
      KeysStep(xs, key, i);
      if k !in dict {
        MembersAbsent(xs[..i], key, k);
        dict := dict[k := []];
        order := order + [k];
      }
      AppendStep(xs, key, i, dict);
      dict := dict[k := dict[k] + [xs[i]]];
    }
    assert xs[..|xs|] == xs;
  }

  /** When `xs` is ordered by its keys (for instance `ORDER BY date DESC`),
      so are the groups. */
  lemma {:induction false} KeysFollowOrder<T, K>(xs: seq<T>, key: T -> K, before: (K, K) -> bool)
    requires forall i, j :: 0 <= i < j < |xs| ==> before(key(xs[i]), key(xs[j]))
    ensures forall i, j :: 0 <= i < j < |KeysInOrder(xs, key)| ==>
      before(KeysInOrder(xs, key)[i], KeysInOrder(xs, key)[j])
  {
    if xs != [] {
      var init := xs[..|xs| - 1];
      assert forall i :: 0 <= i < |init| ==> xs[i] == init[i];
      KeysFollowOrder(init, key, before);
      var ks := KeysInOrder(init, key);
      var k := key(xs[|xs| - 1]);
      if k !in ks {
        forall i | 0 <= i < |ks| ensures before(ks[i], k) {
          var m :| 0 <= m < |init| && key(init[m]) == ks[i];
        }
      }
    }
  }

  /** Nothing is dropped or duplicated: the group sizes add up to `|xs|`. */
  function TotalSize<K, T>(gs: seq<(K, seq<T>)>): nat {
    if gs == [] then 0 else TotalSize(gs[..|gs| - 1]) + |gs[|gs| - 1].1|
  }

  function CountKey<T, K(==)>(xs: seq<T>, key: T -> K, k: K): nat {
    if xs == [] then 0
    else CountKey(xs[..|xs| - 1], key, k) + (if key(xs[|xs| - 1]) == k then 1 else 0)
  }

  lemma {:induction false} MembersCount<T, K>(xs: seq<T>, key: T -> K, k: K)
    ensures |MembersOf(xs, key, k)| == CountKey(xs, key, k)
  {
    if xs != [] {
      MembersCount(xs[..|xs| - 1], key, k);
    }
  }

  /** Sum of `CountKey` over the distinct keys of `xs`. */
  function CountAll<T, K(==)>(xs: seq<T>, key: T -> K, ks: seq<K>): nat {
    if ks == [] then 0 else CountAll(xs, key, ks[..|ks| - 1]) + CountKey(xs, key, ks[|ks| - 1])
  }

  lemma {:induction false} CountAllAbsent<T, K>(xs: seq<T>, key: T -> K, ks: seq<K>, x: T)
    requires key(x) !in ks
    ensures CountAll(xs + [x], key, ks) == CountAll(xs, key, ks)
  {
    if ks != [] {
      CountAllAbsent(xs, key, ks[..|ks| - 1], x);
      assert (xs + [x])[..|xs|] == xs;
    }
  }

  lemma {:induction false} CountAllPresent<T, K>(xs: seq<T>, key: T -> K, ks: seq<K>, x: T)
    requires key(x) in ks && Distinct(ks)
    ensures CountAll(xs + [x], key, ks) == CountAll(xs, key, ks) + 1
  {
    var n := |ks| - 1;
    assert (xs + [x])[..|xs|] == xs;
    if ks[n] == key(x) {
      assert key(x) !in ks[..n];
      CountAllAbsent(xs, key, ks[..n], x);
    } else {
      assert key(x) in ks[..n];
      CountAllPresent(xs, key, ks[..n], x);
    }
  }

  lemma {:induction false} CountKeyAbsent<T, K>(xs: seq<T>, key: T -> K, k: K)
    requires k !in KeysInOrder(xs, key)
    ensures CountKey(xs, key, k) == 0
  {
    if xs != [] {
      var init := xs[..|xs| - 1];
      assert k !in KeysInOrder(init, key);
      CountKeyAbsent(init, key, k);
    }
  }

  lemma {:induction false} CountAllKeys<T, K>(xs: seq<T>, key: T -> K)
    ensures CountAll(xs, key, KeysInOrder(xs, key)) == |xs|
  {
    if xs != [] {
      var init := xs[..|xs| - 1];
      var x := xs[|xs| - 1];
      assert xs == init + [x];
      CountAllKeys(init, key);
      var ks := KeysInOrder(init, key);
      if key(x) in ks {
        CountAllPresent(init, key, ks, x);
      } else {
        CountAllAbsent(init, key, ks, x);
        CountKeyAbsent(init, key, key(x));
        assert KeysInOrder(xs, key) == ks + [key(x)];
        assert (ks + [key(x)])[..|ks|] == ks;
        assert CountKey(xs, key, key(x)) == CountKey(init, key, key(x)) + 1;
      }
    }
  }

  lemma {:induction false} TotalSizeIsCount<T, K>(xs: seq<T>, key: T -> K, n: nat)
    requires n <= |KeysInOrder(xs, key)|
    ensures TotalSize(Grouped(xs, key)[..n]) == CountAll(xs, key, KeysInOrder(xs, key)[..n])
  {
    if n > 0 {
      var ks := KeysInOrder(xs, key);
      TotalSizeIsCount(xs, key, n - 1);
      assert Grouped(xs, key)[..n][..n - 1] == Grouped(xs, key)[..n - 1];
      assert ks[..n][..n - 1] == ks[..n - 1];
      MembersCount(xs, key, ks[n - 1]);
    }
  }

  /** The groups hold `|xs|` elements in all: no row is lost. */
  lemma GroupedSize<T, K>(xs: seq<T>, key: T -> K)
    ensures TotalSize(Grouped(xs, key)) == |xs|
  {
    var ks := KeysInOrder(xs, key);
    TotalSizeIsCount(xs, key, |ks|);
    assert Grouped(xs, key)[..|ks|] == Grouped(xs, key);
    assert ks[..|ks|] == ks;
    CountAllKeys(xs, key);
  }
}
