/** `GroupBy(key)` followed by a per-group sum, and the choice of the group
    with the largest sum, over records reduced to (key, weight) pairs. Group
    order is the order in which keys first appear, as LINQ yields groups. */
module Grouping {
  import Sequences

  /** The key of every pair, in order. */
  function Keys<K>(ps: seq<(K, int)>): (ks: seq<K>)
    ensures |ks| == |ps|
    ensures forall i :: 0 <= i < |ps| ==> ks[i] == ps[i].0
  {
    if |ps| == 0 then [] else [ps[0].0] + Keys(ps[1..])
  }

  /** The sum of all weights. */
  function SumWeights<K>(ps: seq<(K, int)>): int
  {
    if |ps| == 0 then 0 else ps[0].1 + SumWeights(ps[1..])
  }

  /** The sum of the weights of exactly the pairs whose key is `k`. */
  function Total<K(==)>(ps: seq<(K, int)>, k: K): int
  {
    if |ps| == 0 then 0
    else (if ps[0].0 == k then ps[0].1 else 0) + Total(ps[1..], k)
  }

  /** One (key, total) pair per key of `ks`, in the order of `ks`. */
  function GroupsOf<K(==)>(ks: seq<K>, ps: seq<(K, int)>): (gs: seq<(K, int)>)
    ensures |gs| == |ks|
    ensures forall i :: 0 <= i < |ks| ==> gs[i] == (ks[i], Total(ps, ks[i]))
  {
    if |ks| == 0 then []
    else [(ks[0], Total(ps, ks[0]))] + GroupsOf(ks[1..], ps)
  }

  /** The groups of `ps`: each key once, in order of first appearance, with
      the total weight of its pairs. */
  function Groups<K(==)>(ps: seq<(K, int)>): seq<(K, int)>
  {
    GroupsOf(Sequences.Distinct(Keys(ps)), ps)
  }

  /** The total of each key of `ks`, in the order of `ks`: the weights a
      stable sort of `GroupsOf(ks, ps)` by total compares. */
  function TotalsOf<K(==)>(ks: seq<K>, ps: seq<(K, int)>): (w: seq<int>)
    ensures |w| == |ks|
    ensures forall a :: 0 <= a < |ks| ==> w[a] == Total(ps, ks[a])
  {
    if |ks| == 0 then [] else [Total(ps, ks[0])] + TotalsOf(ks[1..], ps)
  }

  /** Totals split over concatenation. */
  lemma {:induction false} TotalAppend<K>(ps: seq<(K, int)>, qs: seq<(K, int)>, k: K)
    ensures Total(ps + qs, k) == Total(ps, k) + Total(qs, k)
  {
    if |ps| > 0 {
      TotalAppend(ps[1..], qs, k);
      assert (ps + qs)[1..] == ps[1..] + qs;
    } else {
      assert ps + qs == qs;
    }
  }

  /** Key `k` occurs, no key has a larger total, and every key that first
      appears before `k` does has a strictly smaller total. */
  predicate IsTopGroup<K(==)>(ps: seq<(K, int)>, k: K) {
    && k in Keys(ps)
    && (forall j :: 0 <= j < |ps| ==> Total(ps, ps[j].0) <= Total(ps, k))
    && (forall j :: 0 <= j < Sequences.FirstIndex(Keys(ps), k) ==> Total(ps, ps[j].0) < Total(ps, k))
  }

  /** The key of the first group, in group order, whose total is largest:
      what a stable descending sort of the groups by total puts first. Its
      total is at least that of every key present, and every key that first
      appears before it has a strictly smaller total. */
  function TopGroup<K(==)>(ps: seq<(K, int)>): (k: K)
    requires |ps| > 0
    ensures IsTopGroup(ps, k)
  {
    var keys := Keys(ps);
    var ks := Sequences.Distinct(keys);
    assert keys[0] in ks;
    var w := TotalsOf(ks, ps);
    var i := Sequences.FirstArgMax(w);
    TopGroupFacts(ps, keys, ks, w, i);
    ks[i]
  }

  /** The chosen key and its total form one of the groups of `ps`, so the
      choice ranks exactly the groups `Groups` lists. */
  lemma TopGroupIsAGroup<K>(ps: seq<(K, int)>)
    requires |ps| > 0
    ensures (TopGroup(ps), Total(ps, TopGroup(ps))) in Groups(ps)
  {
    var k := TopGroup(ps);
    var ks := Sequences.Distinct(Keys(ps));
    var j := Sequences.FirstIndex(Keys(ps), k);
    assert ps[j].0 == k;
    var a := Sequences.FirstIndex(ks, k);
    assert Groups(ps)[a] == (k, Total(ps, k));
  }

  /** `TotalsOf` lists the totals of the groups `GroupsOf` builds. */
  lemma TotalsOfGroups<K>(ks: seq<K>, ps: seq<(K, int)>)
    ensures |TotalsOf(ks, ps)| == |GroupsOf(ks, ps)|
    ensures forall a :: 0 <= a < |ks| ==> GroupsOf(ks, ps)[a] == (ks[a], TotalsOf(ks, ps)[a])
  {
  }

  /** The reasoning behind `TopGroup`: the first maximum `i` among the
      group totals `w` of the distinct keys `ks` is a maximum among all keys
      and beats every key that first appears earlier. */
  lemma TopGroupFacts<K>(ps: seq<(K, int)>, keys: seq<K>, ks: seq<K>, w: seq<int>, i: nat)
    requires |keys| == |ps| && forall j :: 0 <= j < |ps| ==> keys[j] == ps[j].0
    requires ks == Sequences.Distinct(keys)
    requires |w| == |ks| && forall a :: 0 <= a < |ks| ==> w[a] == Total(ps, ks[a])
    requires i < |ks|
    requires forall a :: 0 <= a < |w| ==> w[a] <= w[i]
    requires forall a :: 0 <= a < i ==> w[a] < w[i]
    ensures ks[i] in keys
    ensures forall j :: 0 <= j < |ps| ==> Total(ps, ps[j].0) <= Total(ps, ks[i])
    ensures forall j :: 0 <= j < Sequences.FirstIndex(keys, ks[i]) ==> Total(ps, ps[j].0) < Total(ps, ks[i])
  {
    forall j | 0 <= j < |ps|
      ensures Total(ps, ps[j].0) <= Total(ps, ks[i])
      ensures j < Sequences.FirstIndex(keys, ks[i]) ==> Total(ps, ps[j].0) < Total(ps, ks[i])
    {
      Sequences.FirstMaxAmongDistinct(keys, w, i, j);
      var a := Sequences.FirstIndex(ks, keys[j]);
      assert w[a] == Total(ps, ps[j].0);
    }
  }

  /** Adding one pair in front adds its weight to exactly one group, the
      one of its key, if that key is listed. */
  lemma {:induction false} GroupsOfFront<K>(ks: seq<K>, ps: seq<(K, int)>)
    requires Sequences.NoDuplicates(ks)
    requires |ps| > 0
    ensures SumWeights(GroupsOf(ks, ps)) ==
      SumWeights(GroupsOf(ks, ps[1..])) + (if ps[0].0 in ks then ps[0].1 else 0)
  {
    if |ks| > 0 {
      assert Sequences.NoDuplicates(ks[1..]);
      GroupsOfFront(ks[1..], ps);
      assert GroupsOf(ks, ps)[1..] == GroupsOf(ks[1..], ps);
      assert GroupsOf(ks, ps[1..])[1..] == GroupsOf(ks[1..], ps[1..]);
      assert ks == [ks[0]] + ks[1..];
      assert ps[0].0 == ks[0] ==> ps[0].0 !in ks[1..];
    }
  }

  /** Summing the totals of groups whose keys are distinct and cover every
      key gives the sum of all weights. */
  lemma {:induction false} GroupsOfCover<K>(ks: seq<K>, ps: seq<(K, int)>)
    requires Sequences.NoDuplicates(ks)
    requires forall j :: 0 <= j < |ps| ==> ps[j].0 in ks
    ensures SumWeights(GroupsOf(ks, ps)) == SumWeights(ps)
  {
    if |ps| == 0 {
      GroupsOfEmpty(ks, ps);
    } else {
      GroupsOfFront(ks, ps);
      GroupsOfCover(ks, ps[1..]);
    }
  }

  /** With no pairs, every group total is zero. */
  lemma {:induction false} GroupsOfEmpty<K>(ks: seq<K>, ps: seq<(K, int)>)
    requires |ps| == 0
    ensures SumWeights(GroupsOf(ks, ps)) == 0
  {
    if |ks| > 0 {
      GroupsOfEmpty(ks[1..], ps);
      assert GroupsOf(ks, ps)[1..] == GroupsOf(ks[1..], ps);
    }
  }

  /** Grouping loses and duplicates nothing: the group totals add up to the
      sum of all weights. */
  lemma GroupsPreserveSum<K>(ps: seq<(K, int)>)
    ensures SumWeights(Groups(ps)) == SumWeights(ps)
  {
    var ks := Sequences.Distinct(Keys(ps));
    assert forall j :: 0 <= j < |ps| ==> Keys(ps)[j] in ks;
    GroupsOfCover(ks, ps);
  }

  /** Every element paired with weight one, so that a group total is an
      element count. */
  function UnitPairs<K>(xs: seq<K>): (ps: seq<(K, int)>)
    ensures |ps| == |xs|
    ensures forall i :: 0 <= i < |xs| ==> ps[i] == (xs[i], 1)
  {
    seq(|xs|, i requires 0 <= i < |xs| => (xs[i], 1))
  }

  /** The keys of the unit pairs are the elements themselves. */
  lemma UnitKeys<K>(xs: seq<K>)
    ensures Keys(UnitPairs(xs)) == xs
  {
    assert forall i :: 0 <= i < |xs| ==> Keys(UnitPairs(xs))[i] == xs[i];
  }

  /** With unit weights, the total of a key is the number of its occurrences. */
  lemma {:induction false} UnitTotalIsCount<K>(xs: seq<K>, k: K)
    ensures Total(UnitPairs(xs), k) == multiset(xs)[k]
  {
    if |xs| > 0 {
      UnitTotalIsCount(xs[1..], k);
      assert UnitPairs(xs)[1..] == UnitPairs(xs[1..]);
      assert xs == [xs[0]] + xs[1..];
    }
  }
}
