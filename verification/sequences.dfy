/** Sequence utilities standing in for the LINQ and string operators the
    program uses: `Distinct`, "first element of a stable descending sort",
    and `string.Split` on a single-character separator. */
module Sequences {

  /** True when no value occurs twice in `s`. */
  predicate NoDuplicates<T(==)>(s: seq<T>) {
    forall a, b :: 0 <= a < b < |s| ==> s[a] != s[b]
  }

  /** The position of the first occurrence of `x` in `s`. */
  function FirstIndex<T(==)>(s: seq<T>, x: T): (i: nat)
    requires x in s
    ensures i < |s| && s[i] == x
    ensures forall j :: 0 <= j < i ==> s[j] != x
  {
    if s[0] == x then 0 else 1 + FirstIndex(s[1..], x)
  }

  /** The first occurrence is the only occurrence with no earlier one. */
  lemma FirstIndexUnique<T>(s: seq<T>, x: T, i: nat)
    requires i < |s| && s[i] == x
    requires forall j :: 0 <= j < i ==> s[j] != x
    ensures FirstIndex(s, x) == i
  {
  }

  /** Extending a sequence does not move the first occurrence of a value
      that was already present. */
  lemma FirstIndexOfAppend<T>(p: seq<T>, x: T)
    ensures forall y :: y in p ==> FirstIndex(p + [x], y) == FirstIndex(p, y)
  {
    forall y | y in p
      ensures FirstIndex(p + [x], y) == FirstIndex(p, y)
    {
      var i := FirstIndex(p, y);
      assert forall j :: 0 <= j < i ==> (p + [x])[j] == p[j];
      FirstIndexUnique(p + [x], y, i);
    }
  }

  /** `r` lists the values of `s` once each, in order of first appearance. */
  predicate DistinctOf<T(==)>(s: seq<T>, r: seq<T>) {
    && |r| <= |s|
    && (forall i :: 0 <= i < |r| ==> r[i] in s)
    && (forall i :: 0 <= i < |s| ==> s[i] in r)
    && NoDuplicates(r)
    && (forall a, b :: 0 <= a < b < |r| ==> FirstIndex(s, r[a]) < FirstIndex(s, r[b]))
  }

  /** The values of `s` in order of first appearance, each once: the order
      in which LINQ's `Distinct` and `GroupBy` yield them. */
  function Distinct<T(==)>(s: seq<T>): (r: seq<T>)
    ensures |r| <= |s|
    ensures forall i :: 0 <= i < |r| ==> r[i] in s
    ensures forall i :: 0 <= i < |s| ==> s[i] in r
    ensures NoDuplicates(r)
    ensures forall a, b :: 0 <= a < b < |r| ==> FirstIndex(s, r[a]) < FirstIndex(s, r[b])
  {
    if |s| == 0 then []
    else
      var p, x := s[..|s| - 1], s[|s| - 1];
      var d := Distinct(p);
      assert s == p + [x];
      if x in d then
        DistinctStepSeen(p, x, d);
        d
      else
        DistinctStepNew(p, x, d);
        d + [x]
  }

  /** A last element seen before adds nothing. */
  lemma DistinctStepSeen<T>(p: seq<T>, x: T, d: seq<T>)
    requires DistinctOf(p, d) && x in d
    ensures DistinctOf(p + [x], d)
  {
    FirstIndexOfAppend(p, x);
    assert forall i :: 0 <= i < |d| ==> d[i] in p;
    assert forall i :: 0 <= i < |p| ==> (p + [x])[i] == p[i];
  }

  /** A last element not seen before is appended. */
  lemma DistinctStepNew<T>(p: seq<T>, x: T, d: seq<T>)
    requires DistinctOf(p, d) && x !in d
    ensures DistinctOf(p + [x], d + [x])
  {
    var s, r := p + [x], d + [x];
    assert x !in p;
    FirstIndexOfAppend(p, x);
    assert forall j :: 0 <= j < |p| ==> s[j] == p[j];
    FirstIndexUnique(s, x, |p|);
    assert forall i :: 0 <= i < |d| ==> r[i] == d[i] && d[i] in p;
  }

  /** A set of values with a distinct-value sequence has exactly as many
      elements as that sequence. */
  lemma {:induction false} NoDuplicatesCardinality<T>(r: seq<T>)
    requires NoDuplicates(r)
    ensures |set i | 0 <= i < |r| :: r[i]| == |r|
  {
    if |r| > 0 {
      var p := r[..|r| - 1];
      var x := r[|r| - 1];
      NoDuplicatesCardinality(p);
      var sp := set i | 0 <= i < |p| :: p[i];
      var sr := set i | 0 <= i < |r| :: r[i];
      assert sr == sp + {x} by {
        forall y | y in sr ensures y in sp + {x} {
          var i :| 0 <= i < |r| && r[i] == y;
          if i < |p| { assert p[i] == y; }
        }
        forall y | y in sp ensures y in sr {
          var i :| 0 <= i < |p| && p[i] == y;
          assert r[i] == y;
        }
      }
      assert x !in sp;
    }
  }

  /** The number of distinct values of `s` is the size of its value set, so
      it depends only on which values occur and not on their order or
      multiplicity. */
  lemma DistinctCountIsCardinality<T>(s: seq<T>)
    ensures |Distinct(s)| == |set i | 0 <= i < |s| :: s[i]|
  {
    var r := Distinct(s);
    NoDuplicatesCardinality(r);
    var sr := set i | 0 <= i < |r| :: r[i];
    var ss := set i | 0 <= i < |s| :: s[i];
    assert sr == ss by {
      forall y | y in sr ensures y in ss {
        var i :| 0 <= i < |r| && r[i] == y;
        var j := FirstIndex(s, y);
      }
      forall y | y in ss ensures y in sr {
        var i :| 0 <= i < |s| && s[i] == y;
        var j := FirstIndex(r, y);
      }
    }
  }

  /** Reordering a sequence (or changing how often values repeat) leaves the
      number of distinct values unchanged. */
  lemma DistinctCountPermutation<T>(s: seq<T>, t: seq<T>)
    requires multiset(s) == multiset(t)
    ensures |Distinct(s)| == |Distinct(t)|
  {
    DistinctCountIsCardinality(s);
    DistinctCountIsCardinality(t);
    var ss := set i | 0 <= i < |s| :: s[i];
    var st := set i | 0 <= i < |t| :: t[i];
    assert ss == st by {
      forall y | y in ss ensures y in st {
        var i :| 0 <= i < |s| && s[i] == y;
        assert y in multiset(t);
        var j :| 0 <= j < |t| && t[j] == y;
      }
      forall y | y in st ensures y in ss {
        var i :| 0 <= i < |t| && t[i] == y;
        assert y in multiset(s);
        var j :| 0 <= j < |s| && s[j] == y;
      }
    }
  }

  /** In a sequence without duplicates every element occurs once. */
  lemma {:induction false} NoDuplicatesOccurOnce<T>(s: seq<T>, x: T)
    requires NoDuplicates(s) && x in s
    ensures multiset(s)[x] == 1
  {
    assert s == [s[0]] + s[1..];
    if s[0] == x {
      assert x !in s[1..];
    } else {
      NoDuplicatesOccurOnce(s[1..], x);
    }
  }

  /** The position of the first maximum of `xs`: the element a stable
      descending sort puts first. */
  function FirstArgMax(xs: seq<int>): (i: nat)
    requires |xs| > 0
    ensures i < |xs|
    ensures forall j :: 0 <= j < |xs| ==> xs[j] <= xs[i]
    ensures forall j :: 0 <= j < i ==> xs[j] < xs[i]
  {
    if |xs| == 1 then 0
    else
      var k := FirstArgMax(xs[..|xs| - 1]);
      if xs[|xs| - 1] > xs[k] then |xs| - 1 else k
  }

  /** The contract of `FirstArgMax` determines its result: a maximum with
      no earlier maximum is the one it picks. */
  lemma FirstArgMaxUnique(xs: seq<int>, i: nat)
    requires i < |xs|
    requires forall j :: 0 <= j < |xs| ==> xs[j] <= xs[i]
    requires forall j :: 0 <= j < i ==> xs[j] < xs[i]
    ensures FirstArgMax(xs) == i
  {
  }

  /** Weights `w` attached to the distinct values of `s` (in `Distinct`
      order), with `i` their first maximum: the value of any element `s[j]`
      weighs no more, and strictly less when `s[j]` comes before the first
      occurrence of the winning value. */
  lemma FirstMaxAmongDistinct<T>(s: seq<T>, w: seq<int>, i: nat, j: nat)
    requires |w| == |Distinct(s)|
    requires i < |w| && j < |s|
    requires forall a :: 0 <= a < |w| ==> w[a] <= w[i]
    requires forall a :: 0 <= a < i ==> w[a] < w[i]
    ensures s[j] in Distinct(s)
    ensures j < FirstIndex(s, Distinct(s)[i]) ==> w[FirstIndex(Distinct(s), s[j])] < w[i]
  {
    var r := Distinct(s);
    if j < FirstIndex(s, r[i]) {
      assert FirstIndex(s, s[j]) <= j;
    }
  }

  /** `parts` joined with `sep` between consecutive parts, as `string.Join`. */
  function Join(parts: seq<string>, sep: char): string
  {
    if |parts| == 0 then ""
    else if |parts| == 1 then parts[0]
    else parts[0] + [sep] + Join(parts[1..], sep)
  }

  /** `s` cut at every occurrence of `sep`, as `string.Split` with a
      one-character separator and no options: empty parts are kept and
      there is always at least one part, and more than one exactly when the
      separator occurs. */
  function Split(s: string, sep: char): (parts: seq<string>)
    ensures |parts| >= 1
    ensures sep in s <==> |parts| > 1
  {
    if |s| == 0 then [""]
    else
      var rest := Split(s[1..], sep);
      assert sep in s <==> s[0] == sep || sep in s[1..] by {
        assert s == [s[0]] + s[1..];
      }
      if s[0] == sep then [""] + rest
      else [[s[0]] + rest[0]] + rest[1..]
  }

  /** No part contains the separator. */
  lemma {:induction false} SplitPartsFree(s: string, sep: char)
    ensures forall i :: 0 <= i < |Split(s, sep)| ==> sep !in Split(s, sep)[i]
  {
    if |s| > 0 {
      var rest := Split(s[1..], sep);
      var parts := Split(s, sep);
      SplitPartsFree(s[1..], sep);
      if s[0] == sep {
        assert parts == [""] + rest;
      } else {
        SplitFirstPart(s, sep);
        assert forall i :: 1 <= i < |parts| ==> parts[i] == rest[i];
      }
    }
  }

  /** Joining the parts with the separator gives back the text that was
      split. */
  lemma {:induction false} SplitJoinBack(s: string, sep: char)
    ensures Join(Split(s, sep), sep) == s
  {
    if |s| > 0 {
      var rest := Split(s[1..], sep);
      var parts := Split(s, sep);
      SplitJoinBack(s[1..], sep);
      assert s == [s[0]] + s[1..];
      if s[0] == sep {
        assert parts == [""] + rest;
        assert parts[1..] == rest;
      } else if |rest| == 1 {
        assert parts == [[s[0]] + rest[0]];
      } else {
        assert parts[0] == [s[0]] + rest[0];
        assert parts[1..] == rest[1..];
        assert Join(rest, sep) == rest[0] + [sep] + Join(rest[1..], sep);
        assert Join(parts, sep) == parts[0] + [sep] + Join(parts[1..], sep);
      }
    }
  }

  /** The first part is the prefix of `s` up to the first separator, or
      all of `s` when there is none. */
  lemma {:induction false} SplitFirstPart(s: string, sep: char)
    ensures Split(s, sep)[0] <= s
    ensures sep !in Split(s, sep)[0]
    ensures |Split(s, sep)[0]| == |s| || s[|Split(s, sep)[0]|] == sep
  {
    if |s| > 0 && s[0] != sep {
      SplitFirstPart(s[1..], sep);
      var p := Split(s[1..], sep)[0];
      assert Split(s, sep)[0] == [s[0]] + p;
      assert s == [s[0]] + s[1..];
    }
  }

  /** A part free of the separator ends at the first separator. */
  lemma {:induction false} SplitAfterPart(a: string, sep: char, t: string)
    requires sep !in a
    ensures Split(a + [sep] + t, sep) == [a] + Split(t, sep)
  {
    if |a| == 0 {
      assert (a + [sep] + t)[1..] == t;
    } else {
      SplitAfterPart(a[1..], sep, t);
      assert (a + [sep] + t)[1..] == a[1..] + [sep] + t;
      assert [a[0]] + a[1..] == a;
    }
  }

  /** A string free of the separator is a single part. */
  lemma {:induction false} SplitWhole(a: string, sep: char)
    requires sep !in a
    ensures Split(a, sep) == [a]
  {
    if |a| > 0 {
      SplitWhole(a[1..], sep);
      assert [a[0]] + a[1..] == a;
    }
  }

  /** `Split` undoes `Join` whenever no part contains the separator. */
  lemma {:induction false} SplitJoin(parts: seq<string>, sep: char)
    requires |parts| >= 1
    requires forall i :: 0 <= i < |parts| ==> sep !in parts[i]
    ensures Split(Join(parts, sep), sep) == parts
  {
    if |parts| == 1 {
      SplitWhole(parts[0], sep);
    } else {
      SplitJoin(parts[1..], sep);
      SplitAfterPart(parts[0], sep, Join(parts[1..], sep));
    }
  }
}
