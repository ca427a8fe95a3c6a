/** The monarch records: the wire shape, the normalised shape, and the
    conversion between them that turns the `yrs` text into a reign. */
module Monarchs {
  import opened Wrappers
  import Numerals
  import Sequences

  /** One record as received: `yrs` is a year, `"<start>-<end>"` or
      `"<start>-"` (still reigning). */
  datatype MonarchDto = MonarchDto(id: int, nm: string, cty: string, hse: string, yrs: string)

  /** One record with its reign normalised to a pair of years. */
  datatype Monarch = Monarch(id: int, name: string, city: string, house: string, startYear: int, endYear: int)

  /** Why a run produces no statistics: a year field that is not a number
      (carrying the offending text), or no records to pick a maximum from. */
  datatype Error = ParseError(text: string) | EmptyDataset

  /** The year a text denotes, or a parse error naming the text. */
  function ParseYear(s: string): Result<int, Error>
  {
    match Numerals.Parse(s)
    case Some(n) => Success(n)
    case None => Failure(ParseError(s))
  }

  /** The normalised record for `dto`; `currentYear` is the calendar year
      at the time of the run, which closes an open-ended reign. A text with
      no `-` is a single year; otherwise it is cut at every `-`, the first
      part is the start year and the second the end year (the current year
      when that part is empty), and further parts are ignored. */
  function FromDto(dto: MonarchDto, currentYear: int): (r: Result<Monarch, Error>)
    ensures r.Success? ==>
      && r.value.id == dto.id
      && r.value.name == dto.nm
      && r.value.city == dto.cty
      && r.value.house == dto.hse
    ensures r.Failure? ==> r.error.ParseError? && !Numerals.IsNumeral(r.error.text)
  {
    if '-' !in dto.yrs then
      var year :- ParseYear(dto.yrs);
      Success(Monarch(dto.id, dto.nm, dto.cty, dto.hse, year, year))
    else
      var dates := Sequences.Split(dto.yrs, '-');
      var startYear :- ParseYear(dates[0]);
      var endYear :- if dates[1] == "" then Success(currentYear) else ParseYear(dates[1]);
      Success(Monarch(dto.id, dto.nm, dto.cty, dto.hse, startYear, endYear))
  }

  /** A year text without `-` gives a one-year reign starting and ending in
      the year it denotes, and is a parse error when it is not a numeral. */
  lemma FromDtoSingleYear(dto: MonarchDto, currentYear: int)
    requires '-' !in dto.yrs
    ensures FromDto(dto, currentYear) ==
      if Numerals.IsNumeral(dto.yrs) then
        var y := Numerals.Value(dto.yrs);
        Success(Monarch(dto.id, dto.nm, dto.cty, dto.hse, y, y))
      else Failure(ParseError(dto.yrs))
  {
  }

  /** A year text made of `-`-free parts `first`, `second`, `more...` joined
      by `-`: the start year is the number `first` denotes, the end year the
      number `second` denotes or `currentYear` when `second` is empty, and
      `more` plays no part. The first part that is not a numeral is the
      error, `first` before `second`. */
  lemma FromDtoRange(dto: MonarchDto, currentYear: int, first: string, second: string, more: seq<string>)
    requires '-' !in first && '-' !in second
    requires forall i :: 0 <= i < |more| ==> '-' !in more[i]
    requires dto.yrs == Sequences.Join([first, second] + more, '-')
    ensures FromDto(dto, currentYear) ==
      if !Numerals.IsNumeral(first) then Failure(ParseError(first))
      else if second == "" then
        Success(Monarch(dto.id, dto.nm, dto.cty, dto.hse, Numerals.Value(first), currentYear))
      else if !Numerals.IsNumeral(second) then Failure(ParseError(second))
      else
        Success(Monarch(dto.id, dto.nm, dto.cty, dto.hse, Numerals.Value(first), Numerals.Value(second)))
  {
    var parts := [first, second] + more;
    assert parts[1..] == [second] + more;
    assert '-' in dto.yrs;
    Sequences.SplitJoin(parts, '-');
  }

  /** Every year text containing `-` has the shape `FromDtoRange` covers,
      so together with `FromDtoSingleYear` it describes every input. */
  lemma RangeShape(yrs: string)
    requires '-' in yrs
    ensures exists first, second, more ::
      && '-' !in first && '-' !in second
      && (forall i :: 0 <= i < |more| ==> '-' !in more[i])
      && yrs == Sequences.Join([first, second] + more, '-')
  {
    var parts := Sequences.Split(yrs, '-');
    Sequences.SplitPartsFree(yrs, '-');
    Sequences.SplitJoinBack(yrs, '-');
    assert parts == [parts[0], parts[1]] + parts[2..];
    assert forall i :: 0 <= i < |parts[2..]| ==> parts[2..][i] == parts[i + 2];
  }

  /** A year text that starts with `-` (a negative-looking year) has an
      empty start part, which does not parse. */
  lemma FromDtoLeadingDash(dto: MonarchDto, currentYear: int)
    requires |dto.yrs| > 0 && dto.yrs[0] == '-'
    ensures FromDto(dto, currentYear) == Failure(ParseError(""))
  {
    Sequences.SplitAfterPart("", '-', dto.yrs[1..]);
    assert "" + ['-'] + dto.yrs[1..] == dto.yrs;
  }

  /** A numeral contains no `-`. */
  lemma NumeralHasNoDash(s: string)
    requires Numerals.IsNumeral(s)
    ensures '-' !in s
  {
  }

  /** Writing a reign as `"<start>-<end>"` and converting it gives the
      reign back. */
  lemma FromDtoShowRange(dto: MonarchDto, currentYear: int, startYear: nat, endYear: nat)
    requires dto.yrs == Numerals.Show(startYear) + "-" + Numerals.Show(endYear)
    ensures FromDto(dto, currentYear) == Success(Monarch(dto.id, dto.nm, dto.cty, dto.hse, startYear, endYear))
  {
    var a, b := Numerals.Show(startYear), Numerals.Show(endYear);
    Numerals.ParseShow(startYear);
    Numerals.ParseShow(endYear);
    NumeralHasNoDash(a);
    NumeralHasNoDash(b);
    assert Sequences.Join([a, b], '-') == a + ['-'] + Sequences.Join([b], '-');
    assert [a, b] + [] == [a, b];
    FromDtoRange(dto, currentYear, a, b, []);
  }

  /** Writing a reign that has not ended as `"<start>-"` and converting it
      gives a reign from that year to the current year. */
  lemma FromDtoShowOpen(dto: MonarchDto, currentYear: int, startYear: nat)
    requires dto.yrs == Numerals.Show(startYear) + "-"
    ensures FromDto(dto, currentYear) == Success(Monarch(dto.id, dto.nm, dto.cty, dto.hse, startYear, currentYear))
  {
    var a := Numerals.Show(startYear);
    Numerals.ParseShow(startYear);
    NumeralHasNoDash(a);
    assert Sequences.Join([a, ""], '-') == a + ['-'] + Sequences.Join([""], '-');
    assert [a, ""] + [] == [a, ""];
    FromDtoRange(dto, currentYear, a, "", []);
  }

  /** Writing a one-year reign as its year and converting it gives the
      reign back. */
  lemma FromDtoShowYear(dto: MonarchDto, currentYear: int, year: nat)
    requires dto.yrs == Numerals.Show(year)
    ensures FromDto(dto, currentYear) == Success(Monarch(dto.id, dto.nm, dto.cty, dto.hse, year, year))
  {
    Numerals.ParseShow(year);
    NumeralHasNoDash(dto.yrs);
    FromDtoSingleYear(dto, currentYear);
  }

  /** Every record normalised, or the error of the first record that
      fails, in input order. */
  function Normalise(dtos: seq<MonarchDto>, currentYear: int): (r: Result<seq<Monarch>, Error>)
    ensures r.Success? <==> forall i :: 0 <= i < |dtos| ==> FromDto(dtos[i], currentYear).Success?
    ensures r.Success? ==>
      && |r.value| == |dtos|
      && forall i :: 0 <= i < |dtos| ==> FromDto(dtos[i], currentYear) == Success(r.value[i])
    ensures r.Failure? ==>
      exists i :: 0 <= i < |dtos| && FromDto(dtos[i], currentYear) == Failure(r.error) &&
        forall j :: 0 <= j < i ==> FromDto(dtos[j], currentYear).Success?
  {
    if |dtos| == 0 then Success([])
    else
      var m :- FromDto(dtos[0], currentYear);
      var rest :- Normalise(dtos[1..], currentYear);
      Success([m] + rest)
  }
}
