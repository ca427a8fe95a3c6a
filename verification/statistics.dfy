/** The four statistics the program reports over the normalised records,
    and the whole pipeline from received records to statistics. */
module Statistics {
  import opened Wrappers
  import Sequences
  import Grouping
  import opened Monarchs

  /** Years reigned: end year minus start year. */
  function Reign(m: Monarch): int {
    m.endYear - m.startYear
  }

  function Names(ms: seq<Monarch>): (ns: seq<string>)
    ensures |ns| == |ms|
    ensures forall i :: 0 <= i < |ms| ==> ns[i] == ms[i].name
  {
    seq(|ms|, i requires 0 <= i < |ms| => ms[i].name)
  }

  /** How many different names occur (exact string equality). The count
      is the size of the set of names, so it is at most the number of
      records and at least one when there is a record. */
  function NumberOfMonarchs(ms: seq<Monarch>): (n: nat)
    ensures n == |set i | 0 <= i < |ms| :: ms[i].name|
    ensures n <= |ms|
    ensures |ms| > 0 ==> n >= 1
  {
    var names := Names(ms);
    Sequences.DistinctCountIsCardinality(names);
    assert (set i | 0 <= i < |names| :: names[i]) == (set i | 0 <= i < |ms| :: ms[i].name);
    assert |ms| > 0 ==> names[0] in Sequences.Distinct(names);
    |Sequences.Distinct(names)|
  }

  /** The number of monarchs does not depend on the order of the records. */
  lemma NumberOfMonarchsPermutation(ms: seq<Monarch>, ms': seq<Monarch>)
    requires multiset(ms) == multiset(ms')
    ensures NumberOfMonarchs(ms) == NumberOfMonarchs(ms')
  {
    var s := set i | 0 <= i < |ms| :: ms[i].name;
    var s' := set i | 0 <= i < |ms'| :: ms'[i].name;
    forall y | y in s ensures y in s' {
      var i :| 0 <= i < |ms| && ms[i].name == y;
      assert ms[i] in multiset(ms');
      var j :| 0 <= j < |ms'| && ms'[j] == ms[i];
    }
    forall y | y in s' ensures y in s {
      var i :| 0 <= i < |ms'| && ms'[i].name == y;
      assert ms'[i] in multiset(ms);
      var j :| 0 <= j < |ms| && ms[j] == ms'[i];
    }
    assert s == s';
  }

  /** The reign of every record, in order. */
  function Reigns(ms: seq<Monarch>): (rs: seq<int>)
    ensures |rs| == |ms|
    ensures forall i :: 0 <= i < |ms| ==> rs[i] == Reign(ms[i])
  {
    seq(|ms|, i requires 0 <= i < |ms| => Reign(ms[i]))
  }

  /** Record `i` reigned at least as long as every record and strictly
      longer than every earlier record: the record a stable descending sort
      by reign puts first. */
  predicate IsFirstLongest(ms: seq<Monarch>, i: nat) {
    && i < |ms|
    && (forall j :: 0 <= j < |ms| ==> Reign(ms[j]) <= Reign(ms[i]))
    && (forall j :: 0 <= j < i ==> Reign(ms[j]) < Reign(ms[i]))
  }

  /** `name` is the name of the first record with the longest reign. */
  predicate IsLongestRulingMonarch(ms: seq<Monarch>, name: string) {
    exists i :: 0 <= i < |ms| && IsFirstLongest(ms, i) && ms[i].name == name
  }

  /** The name of the longest-reigning monarch, the first such record in
      input order; there is none to pick without records. */
  function LongestRulingMonarch(ms: seq<Monarch>): (r: Result<string, Error>)
    ensures r.Success? <==> |ms| > 0
    ensures r.Failure? ==> r.error == EmptyDataset
    ensures r.Success? ==> IsLongestRulingMonarch(ms, r.value)
  {
    if |ms| == 0 then Failure(EmptyDataset)
    else
      var i := Sequences.FirstArgMax(Reigns(ms));
      assert IsFirstLongest(ms, i);
      Success(ms[i].name)
  }

  /** At most one record is the first longest, so the reported name is
      determined by the records alone. */
  lemma FirstLongestUnique(ms: seq<Monarch>, i: nat, i': nat)
    requires IsFirstLongest(ms, i) && IsFirstLongest(ms, i')
    ensures i == i'
  {
    assert Reign(ms[i]) == Reign(ms[i']);
  }

  /** Each record reduced to (house, reign). */
  function HousePairs(ms: seq<Monarch>): (ps: seq<(string, int)>)
    ensures |ps| == |ms|
    ensures forall i :: 0 <= i < |ms| ==> ps[i] == (ms[i].house, Reign(ms[i]))
  {
    seq(|ms|, i requires 0 <= i < |ms| => (ms[i].house, Reign(ms[i])))
  }

  /** The houses of the records, in order. */
  function Houses(ms: seq<Monarch>): (hs: seq<string>)
    ensures |hs| == |ms|
    ensures forall i :: 0 <= i < |ms| ==> hs[i] == ms[i].house
  {
    seq(|ms|, i requires 0 <= i < |ms| => ms[i].house)
  }

  /** The years reigned by the members of house `h`, summed. */
  function HouseTotal(ms: seq<Monarch>, h: string): int {
    Grouping.Total(HousePairs(ms), h)
  }

  /** The sum of all reigns. */
  function ReignSum(ms: seq<Monarch>): int {
    if |ms| == 0 then 0 else Reign(ms[0]) + ReignSum(ms[1..])
  }

  /** House `h` occurs, no house has a larger total, and every house whose
      first member comes before `h`'s first member has a strictly smaller
      total. */
  predicate IsLongestRulingHouse(ms: seq<Monarch>, h: string) {
    && h in Houses(ms)
    && (forall j :: 0 <= j < |ms| ==> HouseTotal(ms, ms[j].house) <= HouseTotal(ms, h))
    && (forall j :: 0 <= j < Sequences.FirstIndex(Houses(ms), h) ==>
          HouseTotal(ms, ms[j].house) < HouseTotal(ms, h))
  }

  /** The house whose members reigned longest in total; among equal totals,
      the house whose first member comes first. No records, no house. */
  function LongestRulingHouse(ms: seq<Monarch>): (r: Result<string, Error>)
    ensures r.Success? <==> |ms| > 0
    ensures r.Failure? ==> r.error == EmptyDataset
    ensures r.Success? ==> IsLongestRulingHouse(ms, r.value)
  {
    if |ms| == 0 then Failure(EmptyDataset)
    else
      var ps := HousePairs(ms);
      var h := Grouping.TopGroup(ps);
      TopHouse(ms, ps, h);
      Success(h)
  }

  /** The top group of the (house, reign) pairs is the longest-ruling
      house. */
  lemma TopHouse(ms: seq<Monarch>, ps: seq<(string, int)>, h: string)
    requires ps == HousePairs(ms)
    requires Grouping.IsTopGroup(ps, h)
    ensures IsLongestRulingHouse(ms, h)
  {
    HouseKeys(ms);
  }

  /** The keys of the (house, reign) pairs are the houses. */
  lemma HouseKeys(ms: seq<Monarch>)
    ensures Grouping.Keys(HousePairs(ms)) == Houses(ms)
  {
    assert forall i :: 0 <= i < |ms| ==> Grouping.Keys(HousePairs(ms))[i] == Houses(ms)[i];
  }

  /** At most one house is the longest-ruling one, so the reported house
      is determined by the records alone. */
  lemma LongestRulingHouseUnique(ms: seq<Monarch>, h: string, h': string)
    requires IsLongestRulingHouse(ms, h) && IsLongestRulingHouse(ms, h')
    ensures h == h'
  {
    var a := Sequences.FirstIndex(Houses(ms), h);
    var b := Sequences.FirstIndex(Houses(ms), h');
    assert ms[a].house == h && ms[b].house == h';
    assert HouseTotal(ms, h) == HouseTotal(ms, h');
  }

  /** A house's total is the sum of the reigns of exactly its members: the
      records of a concatenation contribute separately, and a single record
      contributes its reign to its own house and nothing to any other. */
  lemma HouseTotalOfRecords(ms: seq<Monarch>, ms': seq<Monarch>, m: Monarch, h: string)
    ensures HouseTotal(ms + ms', h) == HouseTotal(ms, h) + HouseTotal(ms', h)
    ensures HouseTotal([m], h) == if m.house == h then Reign(m) else 0
  {
    assert HousePairs(ms + ms') == HousePairs(ms) + HousePairs(ms');
    Grouping.TotalAppend(HousePairs(ms), HousePairs(ms'), h);
    var ps := HousePairs([m]);
    assert ps[0] == (m.house, Reign(m)) && ps[1..] == [];
    assert Grouping.Total(ps, h) == (if ps[0].0 == h then ps[0].1 else 0) + Grouping.Total(ps[1..], h);
  }

  /** The house totals account for every reign exactly once. */
  lemma HouseTotalsCoverAllReigns(ms: seq<Monarch>)
    ensures Grouping.SumWeights(Grouping.Groups(HousePairs(ms))) == ReignSum(ms)
  {
    Grouping.GroupsPreserveSum(HousePairs(ms));
    HousePairsSum(ms);
  }

  lemma {:induction false} HousePairsSum(ms: seq<Monarch>)
    ensures Grouping.SumWeights(HousePairs(ms)) == ReignSum(ms)
  {
    if |ms| > 0 {
      HousePairsSum(ms[1..]);
      assert HousePairs(ms)[1..] == HousePairs(ms[1..]);
    }
  }

  /** The first name: the text before the first space, or the whole name
      when it has no space. */
  function FirstName(name: string): (f: string)
    ensures f <= name
    ensures ' ' !in f
    ensures |f| == |name| || name[|f|] == ' '
  {
    Sequences.SplitFirstPart(name, ' ');
    Sequences.Split(name, ' ')[0]
  }

  /** A name with no space is its own first name. */
  lemma FirstNameWhole(name: string)
    requires ' ' !in name
    ensures FirstName(name) == name
  {
    Sequences.SplitWhole(name, ' ');
  }

  /** The first name ends at the first space, whatever follows it. */
  lemma FirstNameBeforeSpace(first: string, rest: string)
    requires ' ' !in first
    ensures FirstName(first + " " + rest) == first
  {
    Sequences.SplitAfterPart(first, ' ', rest);
  }

  /** The first names of the records, in order. */
  function FirstNames(ms: seq<Monarch>): (fs: seq<string>)
    ensures |fs| == |ms|
    ensures forall i :: 0 <= i < |ms| ==> fs[i] == FirstName(ms[i].name)
  {
    seq(|ms|, i requires 0 <= i < |ms| => FirstName(ms[i].name))
  }

  /** How many records carry first name `f`. */
  function NameCount(ms: seq<Monarch>, f: string): nat {
    multiset(FirstNames(ms))[f]
  }

  /** First name `f` occurs, no first name is carried by more records, and
      every first name occurring before `f` first does is carried by
      strictly fewer. */
  predicate IsMostCommonFirstName(ms: seq<Monarch>, f: string) {
    && f in FirstNames(ms)
    && (forall j :: 0 <= j < |ms| ==> NameCount(ms, FirstName(ms[j].name)) <= NameCount(ms, f))
    && (forall j :: 0 <= j < Sequences.FirstIndex(FirstNames(ms), f) ==>
          NameCount(ms, FirstName(ms[j].name)) < NameCount(ms, f))
  }

  /** The first name carried by the most records; among equal counts, the
      one that occurs first. No records, no name. */
  function MostCommonFirstName(ms: seq<Monarch>): (r: Result<string, Error>)
    ensures r.Success? <==> |ms| > 0
    ensures r.Failure? ==> r.error == EmptyDataset
    ensures r.Success? ==> IsMostCommonFirstName(ms, r.value)
  {
    if |ms| == 0 then Failure(EmptyDataset)
    else
      var ps := Grouping.UnitPairs(FirstNames(ms));
      var f := Grouping.TopGroup(ps);
      TopFirstName(ms, ps, f);
      Success(f)
  }

  /** The top group of the first names with unit weights is a first name
      with the largest count, and no first name occurring before it is as
      common. */
  lemma TopFirstName(ms: seq<Monarch>, ps: seq<(string, int)>, f: string)
    requires ps == Grouping.UnitPairs(FirstNames(ms))
    requires Grouping.IsTopGroup(ps, f)
    ensures IsMostCommonFirstName(ms, f)
  {
    var fs := FirstNames(ms);
    Grouping.UnitKeys(fs);
    Grouping.UnitTotalIsCount(fs, f);
    forall j | 0 <= j < |ms|
      ensures Grouping.Total(ps, ps[j].0) == NameCount(ms, FirstName(ms[j].name))
    {
      Grouping.UnitTotalIsCount(fs, fs[j]);
    }
  }

  /** At most one first name is the most common one, so the reported
      first name is determined by the records alone. */
  lemma MostCommonFirstNameUnique(ms: seq<Monarch>, f: string, f': string)
    requires IsMostCommonFirstName(ms, f) && IsMostCommonFirstName(ms, f')
    ensures f == f'
  {
    var a := Sequences.FirstIndex(FirstNames(ms), f);
    var b := Sequences.FirstIndex(FirstNames(ms), f');
    assert FirstName(ms[a].name) == f && FirstName(ms[b].name) == f';
    assert NameCount(ms, f) == NameCount(ms, f');
  }

  /** When no two records share a first name, every count is one and the
      first record's first name wins the tie. */
  lemma MostCommonFirstNameAllDistinct(ms: seq<Monarch>)
    requires |ms| > 0
    requires Sequences.NoDuplicates(FirstNames(ms))
    ensures MostCommonFirstName(ms) == Success(FirstName(ms[0].name))
  {
    var fs := FirstNames(ms);
    var r := MostCommonFirstName(ms).value;
    Sequences.NoDuplicatesOccurOnce(fs, r);
    Sequences.NoDuplicatesOccurOnce(fs, fs[0]);
  }

  /** The four reported values, in the order they are printed. */
  datatype Report = Report(
    numberOfMonarchs: nat,
    longestRulingMonarch: string,
    longestRulingHouse: string,
    mostCommonFirstName: string)

  /** The four statistics over the normalised records; each one that
      picks a maximum fails on an empty sequence, the first of them at the
      longest-ruling monarch. */
  function Summarise(ms: seq<Monarch>): (r: Result<Report, Error>)
    ensures r.Success? <==> |ms| > 0
    ensures r.Failure? ==> r.error == EmptyDataset
    ensures r.Success? ==>
      && IsLongestRulingMonarch(ms, r.value.longestRulingMonarch)
      && IsLongestRulingHouse(ms, r.value.longestRulingHouse)
      && IsMostCommonFirstName(ms, r.value.mostCommonFirstName)
    ensures r.Success? ==>
      && r.value.numberOfMonarchs == |set i | 0 <= i < |ms| :: ms[i].name|
      && (exists i :: 0 <= i < |ms| && ms[i].name == r.value.longestRulingMonarch)
      && (exists i :: 0 <= i < |ms| && ms[i].house == r.value.longestRulingHouse)
      && (exists i :: 0 <= i < |ms| && FirstName(ms[i].name) == r.value.mostCommonFirstName)
  {
    var longest :- LongestRulingMonarch(ms);
    var house := LongestRulingHouse(ms).value;
    var firstName := MostCommonFirstName(ms).value;
    ReportedFromRecords(ms, longest, house, firstName);
    Success(Report(NumberOfMonarchs(ms), longest, house, firstName))
  }

  /** The three reported names each belong to some record. */
  lemma ReportedFromRecords(ms: seq<Monarch>, longest: string, house: string, firstName: string)
    requires IsLongestRulingMonarch(ms, longest)
    requires IsLongestRulingHouse(ms, house)
    requires IsMostCommonFirstName(ms, firstName)
    ensures exists i :: 0 <= i < |ms| && ms[i].name == longest
    ensures exists i :: 0 <= i < |ms| && ms[i].house == house
    ensures exists i :: 0 <= i < |ms| && FirstName(ms[i].name) == firstName
  {
    var a := Sequences.FirstIndex(Houses(ms), house);
    var b := Sequences.FirstIndex(FirstNames(ms), firstName);
    assert ms[a].house == house;
    assert FirstName(ms[b].name) == firstName;
  }

  /** The whole computation over the received records. Normalisation runs
      first over every record, so a malformed year anywhere is reported (the
      first one in input order) before an empty dataset could be. */
  function Compute(dtos: seq<MonarchDto>, currentYear: int): (r: Result<Report, Error>)
    ensures r.Success? <==>
      |dtos| > 0 && forall i :: 0 <= i < |dtos| ==> FromDto(dtos[i], currentYear).Success?
    ensures r.Failure? && r.error == EmptyDataset <==> |dtos| == 0
    ensures r.Success? ==>
      && Normalise(dtos, currentYear).Success?
      && var ms := Normalise(dtos, currentYear).value;
      && IsLongestRulingMonarch(ms, r.value.longestRulingMonarch)
      && IsLongestRulingHouse(ms, r.value.longestRulingHouse)
      && IsMostCommonFirstName(ms, r.value.mostCommonFirstName)
    ensures r.Failure? && |dtos| > 0 ==>
      exists i :: 0 <= i < |dtos| && FromDto(dtos[i], currentYear) == Failure(r.error) &&
        forall j :: 0 <= j < i ==> FromDto(dtos[j], currentYear).Success?
    ensures r.Success? ==>
      && r.value.numberOfMonarchs == |set i | 0 <= i < |dtos| :: dtos[i].nm|
      && (exists i :: 0 <= i < |dtos| && dtos[i].nm == r.value.longestRulingMonarch)
      && (exists i :: 0 <= i < |dtos| && dtos[i].hse == r.value.longestRulingHouse)
      && (exists i :: 0 <= i < |dtos| && FirstName(dtos[i].nm) == r.value.mostCommonFirstName)
  {
    var ms :- Normalise(dtos, currentYear);
    NormalisedFields(dtos, currentYear, ms);
    var r := Summarise(ms);
    if r.Success? then
      ReportFacts(dtos, currentYear, ms, r.value);
      r
    else r
  }

  /** Once every record normalises, the run reports the statistics of the
      normalised records. */
  lemma ComputeNormalised(dtos: seq<MonarchDto>, currentYear: int, ms: seq<Monarch>)
    requires Normalise(dtos, currentYear) == Success(ms)
    ensures Compute(dtos, currentYear) == Summarise(ms)
  {
  }

  /** What the report says about the normalised records, restated in
      terms of the received ones. */
  lemma ReportFacts(dtos: seq<MonarchDto>, currentYear: int, ms: seq<Monarch>, v: Report)
    requires Normalise(dtos, currentYear) == Success(ms)
    requires v.numberOfMonarchs == |set i | 0 <= i < |ms| :: ms[i].name|
    requires exists i :: 0 <= i < |ms| && ms[i].name == v.longestRulingMonarch
    requires exists i :: 0 <= i < |ms| && ms[i].house == v.longestRulingHouse
    requires exists i :: 0 <= i < |ms| && FirstName(ms[i].name) == v.mostCommonFirstName
    ensures v.numberOfMonarchs == |set i | 0 <= i < |dtos| :: dtos[i].nm|
    ensures exists i :: 0 <= i < |dtos| && dtos[i].nm == v.longestRulingMonarch
    ensures exists i :: 0 <= i < |dtos| && dtos[i].hse == v.longestRulingHouse
    ensures exists i :: 0 <= i < |dtos| && FirstName(dtos[i].nm) == v.mostCommonFirstName
  {
    NormalisedFields(dtos, currentYear, ms);
    var a :| 0 <= a < |ms| && ms[a].name == v.longestRulingMonarch;
    var b :| 0 <= b < |ms| && ms[b].house == v.longestRulingHouse;
    var c :| 0 <= c < |ms| && FirstName(ms[c].name) == v.mostCommonFirstName;
    assert dtos[a].nm == v.longestRulingMonarch;
    assert dtos[b].hse == v.longestRulingHouse;
    assert FirstName(dtos[c].nm) == v.mostCommonFirstName;
  }

  /** The normalised records keep the names and houses of the received
      ones, record by record. */
  lemma NormalisedFields(dtos: seq<MonarchDto>, currentYear: int, ms: seq<Monarch>)
    requires Normalise(dtos, currentYear) == Success(ms)
    ensures |ms| == |dtos|
    ensures (set i | 0 <= i < |ms| :: ms[i].name) == (set i | 0 <= i < |dtos| :: dtos[i].nm)
    ensures forall i :: 0 <= i < |ms| ==> ms[i].name == dtos[i].nm && ms[i].house == dtos[i].hse
  {
    assert forall i :: 0 <= i < |ms| ==> ms[i].name == dtos[i].nm;
  }
}
