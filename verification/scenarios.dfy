/** Worked inputs for the conversion and the statistics. */
module Scenarios {
  import opened Wrappers
  import opened Monarchs
  import Numerals
  import Sequences
  import Statistics

  /** A non-numeric year is a parse error naming the text. */
  lemma MalformedYear(currentYear: int)
    ensures FromDto(MonarchDto(1, "Ann", "X", "H1", "abc"), currentYear) == Failure(ParseError("abc"))
  {
    FromDtoSingleYear(MonarchDto(1, "Ann", "X", "H1", "abc"), currentYear);
    assert !Numerals.IsDigit("abc"[0]);
  }

  /** Nothing checks that a reign ends after it starts: a reversed range
      is accepted as written and gives a negative reign. */
  lemma ReversedRange(dto: MonarchDto, currentYear: int)
    requires dto.yrs == "1040-1010"
    ensures FromDto(dto, currentYear) == Success(Monarch(dto.id, dto.nm, dto.cty, dto.hse, 1040, 1010))
  {
    Year("1040", 1040);
    Year("1010", 1010);
    assert dto.yrs == "1040" + "-" + "1010";
    FromDtoShowRange(dto, currentYear, 1040, 1010);
  }

  /** An open range ends in the current year. */
  lemma OpenRange(dto: MonarchDto, currentYear: int)
    requires dto.yrs == "1952-"
    ensures FromDto(dto, currentYear) == Success(Monarch(dto.id, dto.nm, dto.cty, dto.hse, 1952, currentYear))
  {
    Year("1952", 1952);
    assert dto.yrs == "1952" + "-";
    FromDtoShowOpen(dto, currentYear, 1952);
  }

  /** Text after a second `-` is ignored, even when it is not a year. */
  lemma ExtraParts(dto: MonarchDto, currentYear: int)
    requires dto.yrs == "1000-1010-x"
    ensures FromDto(dto, currentYear) == Success(Monarch(dto.id, dto.nm, dto.cty, dto.hse, 1000, 1010))
  {
    Year("1000", 1000);
    Year("1010", 1010);
    var a, b, c := "1000", "1010", "x";
    assert Sequences.Join([b, c], '-') == b + ['-'] + c;
    assert [a, b, c][1..] == [b, c];
    assert Sequences.Join([a, b, c], '-') == a + ['-'] + (b + ['-'] + c);
    assert dto.yrs == a + ['-'] + (b + ['-'] + c);
    assert [a, b] + [c] == [a, b, c];
    FromDtoRange(dto, currentYear, a, b, [c]);
  }

  /** No records: normalisation succeeds and the first maximum fails. */
  lemma EmptyInput(currentYear: int)
    ensures Statistics.Compute([], currentYear) == Failure(EmptyDataset)
  {
  }

  lemma Year(s: string, n: nat)
    requires s == Numerals.Show(n)
    ensures Numerals.IsNumeral(s) && Numerals.Value(s) == n
  {
    Numerals.ParseShow(n);
  }

  lemma AnnDto(dto: MonarchDto, currentYear: int)
    requires dto == MonarchDto(1, "Ann", "X", "H1", "1000-1010")
    ensures FromDto(dto, currentYear) == Success(Example()[0])
  {
    Year("1000", 1000);
    Year("1010", 1010);
    assert dto.yrs == "1000" + "-" + "1010";
    FromDtoShowRange(dto, currentYear, 1000, 1010);
  }

  lemma BobDto(dto: MonarchDto, currentYear: int)
    requires dto == MonarchDto(2, "Bob Smith", "Y", "H1", "1010-1040")
    ensures FromDto(dto, currentYear) == Success(Example()[1])
  {
    Year("1010", 1010);
    Year("1040", 1040);
    assert dto.yrs == "1010" + "-" + "1040";
    FromDtoShowRange(dto, currentYear, 1010, 1040);
  }

  lemma CarlDto(dto: MonarchDto, currentYear: int)
    requires dto == MonarchDto(3, "Carl", "Z", "H2", "1040")
    ensures FromDto(dto, currentYear) == Success(Example()[2])
  {
    Year("1040", 1040);
    FromDtoShowYear(dto, currentYear, 1040);
  }

  /** The three records of the worked example, normalised. */
  function Example(): seq<Monarch> {
    [ Monarch(1, "Ann", "X", "H1", 1000, 1010),
      Monarch(2, "Bob Smith", "Y", "H1", 1010, 1040),
      Monarch(3, "Carl", "Z", "H2", 1040, 1040) ]
  }

  /** Bob Smith's 30 years beat Ann's 10 and Carl's 0. */
  lemma ExampleLongestMonarch(ms: seq<Monarch>)
    requires ms == Example()
    ensures Statistics.LongestRulingMonarch(ms) == Success("Bob Smith")
  {
    assert Statistics.IsFirstLongest(ms, 1);
    var r := Statistics.LongestRulingMonarch(ms);
    var i: nat :| Statistics.IsFirstLongest(ms, i) && ms[i].name == r.value;
    Statistics.FirstLongestUnique(ms, i, 1);
  }

  /** House H1 totals 10 + 30 years against H2's 0. */
  lemma ExampleLongestHouse(ms: seq<Monarch>)
    requires ms == Example()
    ensures Statistics.LongestRulingHouse(ms) == Success("H1")
  {
    var r := Statistics.LongestRulingHouse(ms);
    ExampleHouseTotal(ms, "H1");
    ExampleHouseTotal(ms, r.value);
    assert Statistics.HouseTotal(ms, ms[0].house) <= Statistics.HouseTotal(ms, r.value);
  }

  lemma ExampleHouseTotal(ms: seq<Monarch>, h: string)
    requires ms == Example()
    ensures Statistics.HouseTotal(ms, h) == if h == "H1" then 40 else 0
  {
    assert ms == [ms[0]] + [ms[1]] + [ms[2]];
    Statistics.HouseTotalOfRecords([ms[0]] + [ms[1]], [ms[2]], ms[2], h);
    Statistics.HouseTotalOfRecords([ms[0]], [ms[1]], ms[1], h);
    Statistics.HouseTotalOfRecords([], [ms[0]], ms[0], h);
  }

  /** Every first name occurs once, so the first one, Ann, wins. */
  lemma ExampleMostCommonFirstName(ms: seq<Monarch>)
    requires ms == Example()
    ensures Statistics.MostCommonFirstName(ms) == Success("Ann")
  {
    ExampleFirstNames(ms);
    ThreeDifferent(Statistics.FirstNames(ms));
    Statistics.MostCommonFirstNameAllDistinct(ms);
  }

  lemma ExampleFirstNames(ms: seq<Monarch>)
    requires ms == Example()
    ensures var fs := Statistics.FirstNames(ms);
      |fs| == 3 && fs[0] == "Ann" && fs[1] == "Bob" && fs[2] == "Carl"
  {
    FirstNameAnn();
    FirstNameBob();
    FirstNameCarl();
  }

  lemma ThreeDifferent(fs: seq<string>)
    requires |fs| == 3 && fs[0] == "Ann" && fs[1] == "Bob" && fs[2] == "Carl"
    ensures Sequences.NoDuplicates(fs)
  {
    assert fs[0][0] != fs[1][0] && fs[1][0] != fs[2][0] && fs[0][0] != fs[2][0];
  }

  lemma FirstNameAnn()
    ensures Statistics.FirstName("Ann") == "Ann"
  {
    Statistics.FirstNameWhole("Ann");
  }

  lemma FirstNameBob()
    ensures Statistics.FirstName("Bob Smith") == "Bob"
  {
    Statistics.FirstNameBeforeSpace("Bob", "Smith");
    assert "Bob" + " " + "Smith" == "Bob Smith";
  }

  lemma FirstNameCarl()
    ensures Statistics.FirstName("Carl") == "Carl"
  {
    Statistics.FirstNameWhole("Carl");
  }

  /** The whole computation on the worked example. */
  lemma ThreeRecords(dtos: seq<MonarchDto>, currentYear: int)
    requires dtos == [
        MonarchDto(1, "Ann", "X", "H1", "1000-1010"),
        MonarchDto(2, "Bob Smith", "Y", "H1", "1010-1040"),
        MonarchDto(3, "Carl", "Z", "H2", "1040")
      ]
    ensures Statistics.Compute(dtos, currentYear) == Success(Statistics.Report(3, "Bob Smith", "H1", "Ann"))
  {
    AnnDto(dtos[0], currentYear);
    BobDto(dtos[1], currentYear);
    CarlDto(dtos[2], currentYear);
    ExampleNormalise(dtos, currentYear);
    ExampleCompute(dtos, currentYear);
  }

  lemma ExampleCompute(dtos: seq<MonarchDto>, currentYear: int)
    requires Normalise(dtos, currentYear) == Success(Example())
    ensures Statistics.Compute(dtos, currentYear) == Success(Statistics.Report(3, "Bob Smith", "H1", "Ann"))
  {
    Statistics.ComputeNormalised(dtos, currentYear, Example());
    ExampleSummary();
  }

  lemma ExampleNormalise(dtos: seq<MonarchDto>, currentYear: int)
    requires |dtos| == 3
    requires FromDto(dtos[0], currentYear) == Success(Example()[0])
    requires FromDto(dtos[1], currentYear) == Success(Example()[1])
    requires FromDto(dtos[2], currentYear) == Success(Example()[2])
    ensures Normalise(dtos, currentYear) == Success(Example())
  {
    var r := Normalise(dtos, currentYear);
    var ex := Example();
    assert forall i :: 0 <= i < 3 ==> FromDto(dtos[i], currentYear) == Success(ex[i]);
    assert r.Success?;
    assert |r.value| == 3;
    assert forall i :: 0 <= i < 3 ==> FromDto(dtos[i], currentYear) == Success(r.value[i]);
    assert r.value == ex;
  }

  lemma ExampleSummary()
    ensures Statistics.Summarise(Example()) == Success(Statistics.Report(3, "Bob Smith", "H1", "Ann"))
  {
    ExampleLongestMonarch(Example());
    ExampleLongestHouse(Example());
    ExampleMostCommonFirstName(Example());
    ExampleNumberOfMonarchs();
  }

  /** Three different names. */
  lemma ExampleNumberOfMonarchs()
    ensures Statistics.NumberOfMonarchs(Example()) == 3
  {
    var ms := Example();
    var names := set i | 0 <= i < |ms| :: ms[i].name;
    assert names == {"Ann", "Bob Smith", "Carl"} by {
      assert ms[0].name == "Ann" && ms[1].name == "Bob Smith" && ms[2].name == "Carl";
    }
    assert |{"Ann", "Bob Smith", "Carl"}| == 3;
  }
}
