/**
 * A `GROUP BY` with a count, as the ORM's `values(key).annotate(total =
 * Count(key))` produces it, and the `order_by('-total')` that may follow.
 *
 * The database returns groups in an unspecified order; here a group appears
 * where its key first occurs, and ordering by total keeps that order among
 * equal totals.
 */
module Tally {
  import opened Seqs

  /** The number of times `k` occurs in `ks`. */
  function Occurrences<K(==)>(ks: seq<K>, k: K): (n: nat)
    ensures n <= |ks|
  {
    if ks == [] then 0
    else Occurrences(ks[..|ks| - 1], k) + (if ks[|ks| - 1] == k then 1 else 0)
  }

  predicate Distinct<K(==)>(ks: seq<K>) {
    forall i, j :: 0 <= i < j < |ks| ==> ks[i] != ks[j]
  }

  /** The total of the group with key `k`, or 0 when there is none. */
  function TotalOf<K(==)>(t: seq<(K, nat)>, k: K): nat {
    if t == [] then 0 else if t[0].0 == k then t[0].1 else TotalOf(t[1..], k)
  }

  /** The sum of the group totals. */
  function Sum<K>(t: seq<(K, nat)>): nat {
    if t == [] then 0 else t[0].1 + Sum(t[1..])
  }

  /** Counts one more `k`: its group's total grows by one, or a new group with total 1 is appended. */
  function Bump<K(==)>(t: seq<(K, nat)>, k: K): (r: seq<(K, nat)>)
    ensures |r| == |t| || |r| == |t| + 1
  {
    if t == [] then [(k, 1)]
    else if t[0].0 == k then [(k, t[0].1 + 1)] + t[1..]
    else [t[0]] + Bump(t[1..], k)
  }

  /** The groups of `ks`: one per distinct key, in order of first occurrence, each with its count. */
  function GroupCount<K(==)>(ks: seq<K>): seq<(K, nat)> {
    if ks == [] then [] else Bump(GroupCount(ks[..|ks| - 1]), ks[|ks| - 1])
  }

  lemma KeysCons<K>(x: (K, nat), t: seq<(K, nat)>)
    ensures Keys([x] + t) == [x.0] + Keys(t)
  {
    assert Keys([x] + t) == [x.0] + Keys(t);
  }

  /** Bumping adds `k` to the keys when it is new and keeps them otherwise. */
  lemma {:induction false} BumpKeys<K>(t: seq<(K, nat)>, k: K)
    ensures Keys(Bump(t, k)) == if k in Keys(t) then Keys(t) else Keys(t) + [k]
  {
    if t != [] {
      KeysCons(t[0], t[1..]);
      assert t == [t[0]] + t[1..];
      if t[0].0 == k {
        KeysCons((k, t[0].1 + 1), t[1..]);
      } else {
        BumpKeys(t[1..], k);
        KeysCons(t[0], Bump(t[1..], k));
      }
    }
  }

  lemma {:induction false} BumpTotal<K>(t: seq<(K, nat)>, k: K, j: K)
    ensures TotalOf(Bump(t, k), j) == TotalOf(t, j) + (if j == k && k !in Keys(t) then 1 else 0)
                                      + (if j == k && k in Keys(t) then 1 else 0)
  {
    if t != [] {
      KeysCons(t[0], t[1..]);
      assert t == [t[0]] + t[1..];
      if t[0].0 != k {
        BumpTotal(t[1..], k, j);
      }
    }
  }

  lemma {:induction false} BumpSum<K>(t: seq<(K, nat)>, k: K)
    ensures Sum(Bump(t, k)) == Sum(t) + 1
  {
    if t != [] && t[0].0 != k {
      BumpSum(t[1..], k);
    }
  }

  lemma {:induction false} BumpPositive<K>(t: seq<(K, nat)>, k: K)
    requires forall i :: 0 <= i < |t| ==> t[i].1 > 0
    ensures forall i :: 0 <= i < |Bump(t, k)| ==> Bump(t, k)[i].1 > 0
  {
    if t != [] && t[0].0 != k {
      BumpPositive(t[1..], k);
      var r := Bump(t, k);
      assert forall i :: 1 <= i < |r| ==> r[i] == Bump(t[1..], k)[i - 1];
    }
  }

  /** In groups with distinct keys, the total at a position is the total of its key. */
  lemma {:induction false} TotalAt<K>(t: seq<(K, nat)>, i: nat)
    requires Distinct(Keys(t)) && i < |t|
    ensures TotalOf(t, t[i].0) == t[i].1
  {
    if i > 0 {
      assert Keys(t)[0] != Keys(t)[i];
      assert Distinct(Keys(t[1..])) by {
        forall a, b | 0 <= a < b < |t| - 1 ensures Keys(t[1..])[a] != Keys(t[1..])[b] {
          assert Keys(t)[a + 1] != Keys(t)[b + 1];
        }
      }
      TotalAt(t[1..], i - 1);
    }
  }

  /**
   * The grouping is complete and exact: its keys are distinct and are
   * exactly the values occurring, every group's total is its key's number of
   * occurrences and is positive, and the totals add up to the input's length.
   */
  lemma {:induction false} GroupCountCorrect<K>(ks: seq<K>)
    ensures var t := GroupCount(ks);
            && Distinct(Keys(t))
            && (forall k :: k in Keys(t) <==> k in ks)
            && (forall k :: TotalOf(t, k) == Occurrences(ks, k))
            && (forall i :: 0 <= i < |t| ==> t[i].1 > 0)
            && Sum(t) == |ks|
  {
    if ks != [] {
      var init := ks[..|ks| - 1];
      var last := ks[|ks| - 1];
      var t0 := GroupCount(init);
      GroupCountCorrect(init);
      assert ks == init + [last];
      BumpKeys(t0, last);
      BumpSum(t0, last);
      BumpPositive(t0, last);
      forall k ensures TotalOf(GroupCount(ks), k) == Occurrences(ks, k) {
        BumpTotal(t0, last, k);
      }
      var keys := Keys(GroupCount(ks));
      if last !in Keys(t0) {
        forall i, j | 0 <= i < j < |keys| ensures keys[i] != keys[j] {
          if j == |keys| - 1 {
            assert keys[i] == Keys(t0)[i];
          } else {
            assert keys[i] == Keys(t0)[i] && keys[j] == Keys(t0)[j];
          }
        }
      }
    }
  }

  /** Each group's total is the number of occurrences of its key. */
  lemma GroupTotals<K>(ks: seq<K>, i: nat)
    requires i < |GroupCount(ks)|
    ensures GroupCount(ks)[i].1 == Occurrences(ks, GroupCount(ks)[i].0)
  {
    GroupCountCorrect(ks);
    TotalAt(GroupCount(ks), i);
    assert TotalOf(GroupCount(ks), GroupCount(ks)[i].0) == Occurrences(ks, GroupCount(ks)[i].0);
  }

  // ------------------------------------------------------ ordering by total

  /** Totals never increase along the list. */
  predicate NonIncreasing<K>(s: seq<(K, nat)>) {
    forall i, j :: 0 <= i < j < |s| ==> s[i].1 >= s[j].1
  }

  /** Puts `x` before the first group whose total it reaches. */
  function InsertByTotal<K>(x: (K, nat), s: seq<(K, nat)>): (r: seq<(K, nat)>)
    ensures |r| == |s| + 1
  {
    if s == [] then [x]
    else if x.1 >= s[0].1 then [x] + s
    else [s[0]] + InsertByTotal(x, s[1..])
  }

  /** `order_by('-total')`: insertion sort on decreasing totals. */
  function OrderByTotal<K>(t: seq<(K, nat)>): (s: seq<(K, nat)>)
    ensures |s| == |t|
  {
    if t == [] then [] else InsertByTotal(t[0], OrderByTotal(t[1..]))
  }

  lemma {:induction false} InsertMembers<K>(x: (K, nat), s: seq<(K, nat)>, e: (K, nat))
    ensures e in InsertByTotal(x, s) <==> e == x || e in s
  {
    if s != [] && x.1 < s[0].1 {
      InsertMembers(x, s[1..], e);
      assert s == [s[0]] + s[1..];
    }
  }

  lemma {:induction false} InsertKeepsOrder<K>(x: (K, nat), s: seq<(K, nat)>)
    requires NonIncreasing(s)
    ensures NonIncreasing(InsertByTotal(x, s))
  {
    if s != [] && x.1 < s[0].1 {
      var rest := InsertByTotal(x, s[1..]);
      InsertKeepsOrder(x, s[1..]);
      var r := [s[0]] + rest;
      forall i, j | 0 <= i < j < |r| ensures r[i].1 >= r[j].1 {
        if i == 0 {
          assert r[j] in rest;
          InsertMembers(x, s[1..], r[j]);
          if r[j] != x {
            var k :| 0 <= k < |s[1..]| && s[1..][k] == r[j];
            assert s[k + 1] == r[j];
          }
        } else {
          assert r[i] == rest[i - 1] && r[j] == rest[j - 1];
        }
      }
    }
  }

  /** Ordering by total sorts and rearranges: the same groups, totals non-increasing. */
  lemma {:induction false} InsertMultiset<K>(x: (K, nat), s: seq<(K, nat)>)
    ensures multiset(InsertByTotal(x, s)) == multiset(s) + multiset{x}
  {
    if s != [] && x.1 < s[0].1 {
      InsertMultiset(x, s[1..]);
      assert s == [s[0]] + s[1..];
    }
  }

  /** Ordering by total sorts and rearranges: the same groups, totals non-increasing. */
  lemma {:induction false} OrderByTotalCorrect<K>(t: seq<(K, nat)>)
    ensures NonIncreasing(OrderByTotal(t))
    ensures multiset(OrderByTotal(t)) == multiset(t)
  {
    if t != [] {
      OrderByTotalCorrect(t[1..]);
      InsertKeepsOrder(t[0], OrderByTotal(t[1..]));
      InsertMultiset(t[0], OrderByTotal(t[1..]));
      assert t == [t[0]] + t[1..];
    }
  }

  /** Where a group of the input ends up once ordered. */
  lemma OrderedIndex<K>(t: seq<(K, nat)>, j: nat) returns (p: nat)
    requires j < |t|
    ensures p < |t| && OrderByTotal(t)[p] == t[j]
  {
    OrderByTotalCorrect(t);
    assert t[j] in multiset(t);
    assert t[j] in OrderByTotal(t);
    p :| 0 <= p < |t| && OrderByTotal(t)[p] == t[j];
  }

  lemma {:induction false} InsertKeys<K>(x: (K, nat), s: seq<(K, nat)>, k: K)
    ensures k in Keys(InsertByTotal(x, s)) <==> k == x.0 || k in Keys(s)
  {
    if s == [] {
      assert Keys([x]) == [x.0];
    } else if x.1 >= s[0].1 {
      KeysCons(x, s);
    } else {
      InsertKeys(x, s[1..], k);
      KeysCons(s[0], InsertByTotal(x, s[1..]));
      KeysCons(s[0], s[1..]);
      assert s == [s[0]] + s[1..];
    }
  }

  lemma DistinctCons<K>(a: K, s: seq<K>)
    ensures Distinct([a] + s) <==> a !in s && Distinct(s)
  {
    var r := [a] + s;
    if a !in s && Distinct(s) {
      forall i, j | 0 <= i < j < |r| ensures r[i] != r[j] {
        if i == 0 {
          assert r[j] == s[j - 1];
        } else {
          assert r[i] == s[i - 1] && r[j] == s[j - 1];
        }
      }
    }
    if Distinct(r) {
      forall i, j | 0 <= i < j < |s| ensures s[i] != s[j] {
        assert r[i + 1] != r[j + 1];
      }
      forall j | 0 <= j < |s| ensures s[j] != a {
        assert r[0] != r[j + 1];
      }
    }
  }

  lemma {:induction false} InsertDistinct<K>(x: (K, nat), s: seq<(K, nat)>)
    requires Distinct(Keys(s)) && x.0 !in Keys(s)
    ensures Distinct(Keys(InsertByTotal(x, s)))
  {
    if s == [] {
    } else if x.1 >= s[0].1 {
      KeysCons(x, s);
      DistinctCons(x.0, Keys(s));
    } else {
      KeysCons(s[0], s[1..]);
      assert s == [s[0]] + s[1..];
      DistinctCons(s[0].0, Keys(s[1..]));
      InsertDistinct(x, s[1..]);
      InsertKeys(x, s[1..], s[0].0);
      KeysCons(s[0], InsertByTotal(x, s[1..]));
      DistinctCons(s[0].0, Keys(InsertByTotal(x, s[1..])));
    }
  }

  /** Ordering by total keeps the keys distinct. */
  lemma {:induction false} OrderByTotalDistinct<K>(t: seq<(K, nat)>)
    requires Distinct(Keys(t))
    ensures Distinct(Keys(OrderByTotal(t)))
    ensures forall k :: k in Keys(OrderByTotal(t)) <==> k in Keys(t)
  {
    if t != [] {
      KeysCons(t[0], t[1..]);
      assert t == [t[0]] + t[1..];
      DistinctCons(t[0].0, Keys(t[1..]));
      OrderByTotalDistinct(t[1..]);
      InsertDistinct(t[0], OrderByTotal(t[1..]));
      forall k ensures k in Keys(OrderByTotal(t)) <==> k in Keys(t) {
        InsertKeys(t[0], OrderByTotal(t[1..]), k);
      }
    }
  }

  /** `order_by('-total')[:n]`: the first `n` groups once ordered by total. */
  function Top<K>(t: seq<(K, nat)>, n: nat): (r: seq<(K, nat)>)
    ensures |r| == if |t| < n then |t| else n
  {
    var s := OrderByTotal(t);
    s[..if |s| < n then |s| else n]
  }

  /** Every ordered group comes from the input. */
  lemma OrderedFrom<K>(t: seq<(K, nat)>, i: nat)
    requires i < |OrderByTotal(t)|
    ensures OrderByTotal(t)[i] in t
  {
    OrderByTotalCorrect(t);
    assert OrderByTotal(t)[i] in multiset(OrderByTotal(t));
  }

  /** The top groups are groups of the input, with distinct keys and non-increasing totals. */
  lemma TopShape<K>(t: seq<(K, nat)>, n: nat)
    requires Distinct(Keys(t))
    ensures NonIncreasing(Top(t, n)) && Distinct(Keys(Top(t, n)))
    ensures forall i :: 0 <= i < |Top(t, n)| ==> Top(t, n)[i] in t
  {
    var s := OrderByTotal(t);
    var r := Top(t, n);
    OrderByTotalCorrect(t);
    OrderByTotalDistinct(t);
    assert forall i :: 0 <= i < |r| ==> r[i] == s[i];
    forall i, j | 0 <= i < j < |Keys(r)| ensures Keys(r)[i] != Keys(r)[j] {
      assert Keys(s)[i] != Keys(s)[j];
    }
    forall i | 0 <= i < |r| ensures r[i] in t {
      assert r[i] == s[i];
      OrderedFrom(t, i);
    }
  }

  /** A group left out of the top has a total no larger than any group listed, and the list is full. */
  lemma TopLeftOut<K>(t: seq<(K, nat)>, n: nat, k: K)
    requires Distinct(Keys(t))
    requires k in Keys(t) && k !in Keys(Top(t, n))
    ensures |Top(t, n)| == n
    ensures forall i :: 0 <= i < n ==> Top(t, n)[i].1 >= TotalOf(t, k)
  {
    var s := OrderByTotal(t);
    var r := Top(t, n);
    OrderByTotalCorrect(t);
    var j :| 0 <= j < |Keys(t)| && Keys(t)[j] == k;
    TotalAt(t, j);
    var p := OrderedIndex(t, j);
    assert forall i :: 0 <= i < |r| ==> r[i] == s[i];
  }
}
