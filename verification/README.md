# The Kings — a Dafny model of the monarch statistics

The program reads a list of historical monarchs (id, name, city, house and a
year range such as `"1066-1087"`, `"1952-"` or `"1040"`), normalises each
record's year range to a start and an end year, and reports four statistics:

- the number of distinct monarch names;
- the longest-ruling monarch;
- the longest-ruling house, by total years reigned;
- the most common first name.

This project models that transformation as pure Dafny functions over
sequences and proves what each step computes.

Modules:

- `Wrappers` (`wrappers.dfy`): `Option` and `Result`, usable with `:-`.
- `Sequences` (`sequences.dfy`): the LINQ and string operators the program
  relies on.
  - `Distinct` yields values in order of first appearance.
  - `FirstArgMax` is "first element after a stable descending sort".
  - `Split` and `Join` model `string.Split` / `string.Join` on one character.
- `Numerals` (`numerals.dfy`): decimal text, standing in for `int.Parse`.
- `Monarchs` (`monarchs.dfy`): the wire record `MonarchDto`, the normalised
  `Monarch`, the `Error` kinds, `FromDto` and `Normalise` (the `Select` over
  all records).
- `Grouping` (`grouping.dfy`): `GroupBy` followed by a per-group sum or count,
  and the choice of the first largest group.
- `Statistics` (`statistics.dfy`): the four statistics and `Compute`, the whole
  run from received records to the report.
- `Scenarios` (`scenarios.dfy`): worked inputs for the conversion and the statistics.

Tie-breaking is explicit throughout. "First in input order wins" is stated as
"no earlier record, or no key that first appears earlier, reaches the winning
value".

The calendar year is the `currentYear` parameter. It replaces the clock read
that closes an open-ended reign.

Two behaviours of the code are worth knowing:

- The year text is split on every `-`. Part 0 is the start year, part 1 the
  end year, and any later parts are ignored. So `"1000-1010-x"` is the reign
  1000 to 1010 (`Scenarios.ExtraParts`).
- Nothing checks `endYear >= startYear`. `"1040-1010"` is accepted as a
  reign that ends before it starts (`Scenarios.ReversedRange`).

## Model

| member | source | states |
|---|---|---|
| `Monarchs.FromDto` | TheKings/Program.cs:8-31 | Id, Name, City and House are copied unchanged from `Id`, `Nm`, `Cty`, `Hse`. The only failure is a parse error, and it names a text that is not a number. |
| `Monarchs.FromDtoSingleYear` | TheKings/Program.cs:12-15 | Without `-`, start and end year are both the number the whole text denotes. A text that is not a numeral is a parse error naming that text. |
| `Monarchs.FromDtoRange` | TheKings/Program.cs:16-21 | With `-`, the start year is the number before the first `-`. The end year is the number between the first and second `-`, or `currentYear` when that part is empty. Later parts are ignored. The first bad part (start before end) is the error. |
| `Monarchs.RangeShape` | TheKings/Program.cs:12-18 | Every year text containing `-` has the `-`-free-parts shape `FromDtoRange` covers, so the two lemmas together describe every input. |
| `Monarchs.FromDtoShowRange` | TheKings/Program.cs:16-21 | Writing a reign as `"<start>-<end>"` and converting the text gives the same start and end years back. |
| `Monarchs.FromDtoShowOpen` | TheKings/Program.cs:16-20 | Writing a reign as `"<start>-"` and converting it gives that start year and `currentYear` as the end. |
| `Monarchs.FromDtoShowYear` | TheKings/Program.cs:12-15 | Writing a one-year reign as its year and converting it gives a reign starting and ending in that year. |
| `Monarchs.FromDtoLeadingDash` | TheKings/Program.cs:18-19 | A text starting with `-` has an empty start part, which is a parse error. |
| `Monarchs.Normalise` | TheKings/Program.cs:70-75 | It succeeds exactly when every record converts. The result has one record per input record, in order. Otherwise the error is that of the first record that fails. |
| `Numerals.ParseShow` | TheKings/Program.cs:14 | Parsing the canonical decimal text of any natural number gives that number back. |
| `Numerals.ShowParse` | TheKings/Program.cs:14 | A numeral without superfluous leading zeros is the canonical text of the number it parses to. |
| `Sequences.Split` | TheKings/Program.cs:18 | There is at least one part, and more than one exactly when the separator occurs. |
| `Sequences.SplitPartsFree` | TheKings/Program.cs:18 | No part contains the separator. |
| `Sequences.SplitJoinBack` | TheKings/Program.cs:18 | Joining the parts with the separator rebuilds the input, so no character is lost or added. |
| `Sequences.SplitFirstPart` | TheKings/Program.cs:18-19 | Part 0 is the prefix of the input up to the first separator, or the whole input when there is none. |
| `Sequences.SplitJoin` | TheKings/Program.cs:18 | Splitting undoes joining for separator-free parts. |
| `Sequences.SplitAfterPart` | TheKings/Program.cs:18-19 | The first part ends at the first separator, whatever follows it. |
| `Sequences.Distinct` | TheKings/Program.cs:73-74 | The result has the same values as the input, with no duplicates, in order of first appearance, and is no longer than the input. |
| `Sequences.DistinctCountIsCardinality` | TheKings/Program.cs:72-75 | The number of distinct values is the size of the set of values. |
| `Sequences.DistinctCountPermutation` | TheKings/Program.cs:72-75 | Reordering the input does not change the number of distinct values. |
| `Sequences.FirstArgMax` | TheKings/Program.cs:78-79 | The chosen element is at least every element and strictly greater than every earlier one. |
| `Sequences.FirstArgMaxUnique` | TheKings/Program.cs:78-79 | Any maximum with no earlier maximum is the one `FirstArgMax` picks. |
| `Sequences.FirstMaxAmongDistinct` | TheKings/Program.cs:83-86 | A first maximum over the distinct keys beats every key that first appears earlier. |
| `Statistics.NumberOfMonarchs` | TheKings/Program.cs:72-75 | The count is the number of different names. It is at most the number of records, and at least 1 when there is a record. |
| `Statistics.NumberOfMonarchsPermutation` | TheKings/Program.cs:72-75 | The count does not depend on the order of the records. |
| `Statistics.LongestRulingMonarch` | TheKings/Program.cs:76-79 | It fails with EmptyDataset exactly on no records. Otherwise it is the name of a record whose reign is at least every reign and strictly longer than every earlier record's. |
| `Statistics.FirstLongestUnique` | TheKings/Program.cs:76-79 | At most one record is the first longest, so the reported monarch is determined. |
| `Statistics.LongestRulingHouse` | TheKings/Program.cs:81-86 | It fails with EmptyDataset exactly on no records. Otherwise it is some record's house whose total is at least every house's total. Every house that first appears earlier has a strictly smaller total. |
| `Statistics.LongestRulingHouseUnique` | TheKings/Program.cs:81-86 | At most one house meets the longest-ruling-house conditions, so the reported house is determined. |
| `Statistics.HouseTotalOfRecords` | TheKings/Program.cs:82-84 | A house total adds up over concatenated records. One record contributes its reign to its own house and nothing to any other. So a house total is the sum over exactly that house's members. |
| `Statistics.HouseTotalsCoverAllReigns` | TheKings/Program.cs:82-84 | The group totals sum to the sum of all reigns. |
| `Grouping.TopGroup` | TheKings/Program.cs:83-86 | The chosen key occurs in the input and has a total at least every key's total. Every key first appearing earlier has a strictly smaller total. |
| `Grouping.TopGroupIsAGroup` | TheKings/Program.cs:83-86 | The chosen key, with its total, is one of the groups, so the choice is made among exactly the groups that are summed. |
| `Grouping.GroupsPreserveSum` | TheKings/Program.cs:83-84 | Grouping neither loses nor duplicates weight: the group totals add up to the sum of all weights. |
| `Grouping.TotalAppend` | TheKings/Program.cs:84 | A key's total over a concatenation is the sum of its totals over the two parts. |
| `Grouping.UnitTotalIsCount` | TheKings/Program.cs:89-90 | With weight one per element, a group total is the number of occurrences of the key. |
| `Statistics.FirstName` | TheKings/Program.cs:88 | The first name is a prefix of the name with no space, ending at the end of the name or at a space. |
| `Statistics.FirstNameWhole` | TheKings/Program.cs:88 | A name without a space is its own first name. |
| `Statistics.FirstNameBeforeSpace` | TheKings/Program.cs:88 | The first name is the text before the first space, whatever follows it. |
| `Statistics.MostCommonFirstName` | TheKings/Program.cs:87-92 | It fails with EmptyDataset exactly on no records. Otherwise it is some record's first name, with an occurrence count at least every first name's. Every first name occurring before its first occurrence has a strictly smaller count. |
| `Statistics.MostCommonFirstNameUnique` | TheKings/Program.cs:87-92 | At most one first name meets the most-common conditions, so the reported first name is determined. |
| `Statistics.MostCommonFirstNameAllDistinct` | TheKings/Program.cs:87-92 | When all first names differ, the first record's first name wins the tie. |
| `Statistics.Summarise` | TheKings/Program.cs:72-92 | It fails with EmptyDataset exactly on no records. Otherwise the count is the number of different names. The reported monarch is the first longest-reigning record's name. The house is the one with the largest total, no earlier-appearing house tying it. The first name is the most common one, no earlier-occurring first name tying it. Each of them belongs to some record. |
| `Statistics.Compute` | TheKings/Program.cs:70-92 | It succeeds exactly when there are records and all convert. Empty input, and only empty input, fails with EmptyDataset. A failure on non-empty input is the error of the first failing record. On success, every record converts, and the report holds the longest-ruling monarch, the longest-ruling house and the most common first name of the converted records. The count is the number of different `Nm` values, and the reported names come from received records. |
| `Scenarios.MalformedYear` | TheKings/Program.cs:12-14 | The year text `"abc"` is a parse error naming `"abc"`. |
| `Scenarios.OpenRange` | TheKings/Program.cs:20 | `"1952-"` starts in 1952 and ends in the current year. |
| `Scenarios.ExtraParts` | TheKings/Program.cs:18-20 | `"1000-1010-x"` is the reign 1000 to 1010; the third part is ignored. |
| `Scenarios.ReversedRange` | TheKings/Program.cs:18-20 | `"1040-1010"` is accepted as a reign from 1040 to 1010. |
| `Scenarios.EmptyInput` | TheKings/Program.cs:76-79 | No records: the run fails with EmptyDataset. |
| `Scenarios.ThreeRecords` | TheKings/Program.cs:70-92 | Ann 1000-1010 and Bob Smith 1010-1040 of H1, with Carl 1040 of H2, give: 3 names, Bob Smith, H1 (40 years against 0), and Ann (all first names tie at one). |

## Left out

- The HTTP request and the status-code branch (`GetResponse` and the start and end of `Main`) are network I/O and asynchronous code.
- JSON deserialisation, including the null list for a `null` body, is a foreign library. `Compute` takes the list of `MonarchDto` records directly.
- `MonarchDto` strings are never null in the model. In the program, JSON that omits a field or gives `null` leaves it null. A null `Yrs`, or a null record in the list, makes `FromDto` throw `NullReferenceException` at `dto.Yrs.Contains('-')` (TheKings/Program.cs:12). A null `Nm` makes the first-name split at TheKings/Program.cs:88 throw. A null `Hse` forms its own null-keyed group at TheKings/Program.cs:83. The model's strings cannot be null, so none of these paths exists in it.
- Console output of the four lines is I/O. `Compute` returns the four values as a `Report`.
- Reading the clock (`DateTime.Now.Year`) is replaced by the `currentYear` parameter. The records are converted lazily and re-enumerated once per statistic, so a run that crosses New Year could see two different years. The model uses one year for the whole run.
- `Numerals.Parse` does not model what `int.Parse` accepts beyond plain digits: surrounding white space, a leading sign, and culture-specific forms. It also does not model the overflow error above 2147483647. Any text other than a non-empty run of ASCII digits is a parse error, and the number is unbounded.
- `Statistics.Reign` does not model 32-bit wrap-around in `EndYear - StartYear`, which C# evaluates unchecked. The model's arithmetic is unbounded. Real year values are far from the limit.
- `Statistics.HouseTotal` does not model the overflow error of the per-house sum. `Enumerable.Sum` adds in a checked context, so a house total beyond the 32-bit range throws `OverflowException` and ends the run. That would be a third error kind, and the model's unbounded totals never produce it.
- The exception types are not modelled. The model has two error kinds: `ParseError`, standing for a format failure in `int.Parse`, and `EmptyDataset`, standing for `First()` on an empty sequence.
