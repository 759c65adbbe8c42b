/**
 * analyze_column: the profile of one column of the table. Present cells are
 * the non-empty ones; the column is numeric when it has a present cell and
 * every present cell parses as a number, and categorical otherwise.
 *
 * Whether a cell parses (`is_numeric`, which tries Python's `float`) and the
 * number it parses to are parameters: `isNumeric` and `parse`.
 */
module ColumnAnalysis {
  import opened Wrappers
  import opened Table
  import opened Frequencies
  import opened StableSort
  import opened NumericStats

  /** How many (value, count) pairs a categorical profile lists: most_common(5). */
  const TopValueCount: nat := 5

  datatype Summary =
    | Numeric(mean: real, min: real, max: real, variance: Option<real>)
    | Categorical(uniqueValues: nat, mostCommon: seq<(string, nat)>)

  /** The result dictionary of analyze_column. */
  datatype ColumnProfile = ColumnProfile(column: string, count: nat, missing: nat, summary: Summary)

  /** The exception `row[column]` raises for a row without that column. */
  datatype KeyError = KeyError(key: string)

  /** The truth test `if row[column_name]` applies to a cell: "" is falsy. */
  function Present(cell: string): bool
  {
    cell != ""
  }

  /** Every cell is either present or the empty string. */
  lemma {:induction false} PresentPlusMissing(cells: seq<string>)
    ensures |Filter(cells, Present)| + Count(cells, "") == |cells|
  {
    if cells != [] {
      PresentPlusMissing(cells[..|cells| - 1]);
    }
  }

  /** The non-empty cells of `column`, in row order: the list `values`. */
  function PresentValues(data: seq<Row>, column: string): (values: seq<string>)
    requires HasColumn(data, column)
    ensures |values| + Count(Cells(data, column), "") == |data|
  {
    PresentPlusMissing(Cells(data, column));
    Filter(Cells(data, column), Present)
  }

  /** The present values are exactly the column's non-empty cells. */
  lemma PresentValuesMembers(data: seq<Row>, column: string)
    requires HasColumn(data, column)
    ensures forall i :: 0 <= i < |PresentValues(data, column)| ==>
      PresentValues(data, column)[i] != "" && PresentValues(data, column)[i] in Cells(data, column)
    ensures forall i :: 0 <= i < |data| && data[i][column] != "" ==> data[i][column] in PresentValues(data, column)
  {
    var cells := Cells(data, column);
    assert forall i :: 0 <= i < |data| ==> data[i][column] == cells[i];
  }

  /** The present values are the column's non-empty cells with their true
      multiplicities and in the order in which they first appear. */
  lemma PresentValuesKeepCountsAndOrder(data: seq<Row>, column: string)
    requires HasColumn(data, column)
    ensures forall v :: v != "" ==> Count(PresentValues(data, column), v) == Count(Cells(data, column), v)
    ensures forall u, v :: u in PresentValues(data, column) && v in PresentValues(data, column) ==>
      (FirstIndex(PresentValues(data, column), u) < FirstIndex(PresentValues(data, column), v) <==>
       FirstIndex(Cells(data, column), u) < FirstIndex(Cells(data, column), v))
  {
    FilterCounts(Cells(data, column), Present);
    FilterKeepsFirstOccurrenceOrder(Cells(data, column), Present);
  }

  /** The classification rule: some value is present and all present values parse. */
  predicate IsNumericColumn(values: seq<string>, isNumeric: string -> bool)
  {
    |values| > 0 && forall i :: 0 <= i < |values| ==> isNumeric(values[i])
  }

  /** The parsed numbers of the values that parse, in order: what the loop
      building `numeric_values` collects. */
  function NumericParses(values: seq<string>, isNumeric: string -> bool, parse: string -> real): seq<real>
  {
    if values == [] then []
    else
      var init := NumericParses(values[..|values| - 1], isNumeric, parse);
      var last := values[|values| - 1];
      if isNumeric(last) then init + [parse(last)] else init
  }

  /** The loop collects the parses of exactly the values `is_numeric` accepts,
      in their order. */
  lemma {:induction false} NumericParsesAreFilteredParses(values: seq<string>, isNumeric: string -> bool, parse: string -> real)
    ensures NumericParses(values, isNumeric, parse) == Parsed(Filter(values, isNumeric), parse)
  {
    if values != [] {
      var front := values[..|values| - 1];
      var last := values[|values| - 1];
      NumericParsesAreFilteredParses(front, isNumeric, parse);
      var kept := Filter(front, isNumeric);
      assert Parsed(kept + [last], parse) == Parsed(kept, parse) + [parse(last)];
    }
  }

  /** Line 54's test on the collected numbers decides the column type, and
      when it passes, every value was parsed. */
  lemma NumericRule(values: seq<string>, isNumeric: string -> bool, parse: string -> real)
    ensures var nums := NumericParses(values, isNumeric, parse);
      (IsNumericColumn(values, isNumeric) <==> |nums| > 0 && |nums| == |values|) &&
      (IsNumericColumn(values, isNumeric) ==> nums == Parsed(values, parse))
  {
    NumericParsesAreFilteredParses(values, isNumeric, parse);
    var kept := Filter(values, isNumeric);
    assert |NumericParses(values, isNumeric, parse)| == |kept|;
  }

  /** Every value parsed, in order. */
  function Parsed(values: seq<string>, parse: string -> real): seq<real>
  {
    seq(|values|, i requires 0 <= i < |values| => parse(values[i]))
  }

  /** `Counter(values).most_common(n)`: the counted values ranked by count,
      ties in order of first appearance, cut to the first `n`. */
  function MostCommon(values: seq<string>, n: nat): (top: seq<(string, nat)>)
    ensures |top| <= n
    ensures forall i :: 0 <= i < |top| ==> top[i].0 in values && top[i].1 == Count(values, top[i].0)
  {
    var tally := Tally(values);
    var sorted := SortDesc(tally, Frequency);
    SortDescMembers(tally, Frequency);
    Take(sorted, n)
  }

  function Frequency(entry: (string, nat)): nat
  {
    entry.1
  }

  /** Ties between counts are broken by where a value first appears. */
  function FirstSeen(values: seq<string>): ((string, nat)) -> int
  {
    (entry: (string, nat)) => FirstIndex(values, entry.0)
  }

  /** most_common(n) is a ranking of the Counter's entries. */
  lemma MostCommonRanksTally(values: seq<string>, n: nat)
    ensures |MostCommon(values, n)| == if n < |Distinct(values)| then n else |Distinct(values)|
    ensures Ranked(MostCommon(values, n), Frequency, FirstSeen(values))
    ensures forall e :: e in MostCommon(values, n) ==> e in Tally(values)
    ensures forall e :: e in Tally(values) && e !in MostCommon(values, n) ==>
      forall i :: 0 <= i < |MostCommon(values, n)| ==> Outranks(MostCommon(values, n)[i], e, Frequency, FirstSeen(values))
  {
    var tally := Tally(values);
    DistinctInFirstOccurrenceOrder(values);
    assert forall i, j :: 0 <= i < j < |tally| ==> FirstSeen(values)(tally[i]) < FirstSeen(values)(tally[j]);
    TopOfRanking(tally, Frequency, FirstSeen(values), n);
  }

  /** most_common(n) lists min(n, #distinct values) entries. */
  lemma MostCommonLength(values: seq<string>, n: nat)
    ensures |MostCommon(values, n)| == if n < |set v | v in values| then n else |set v | v in values|
  {
    DistinctCardinality(values);
    MostCommonRanksTally(values, n);
  }

  /** Each listed entry is a present value with its true count, and no value
      is listed twice. */
  lemma MostCommonCounts(values: seq<string>, n: nat)
    ensures forall i :: 0 <= i < |MostCommon(values, n)| ==>
      MostCommon(values, n)[i].0 in values &&
      MostCommon(values, n)[i].1 == Count(values, MostCommon(values, n)[i].0)
    ensures forall i, j :: 0 <= i < j < |MostCommon(values, n)| ==>
      MostCommon(values, n)[i].0 != MostCommon(values, n)[j].0
  {
    var top := MostCommon(values, n);
    MostCommonRanksTally(values, n);
    forall i | 0 <= i < |top|
      ensures top[i].0 in values && top[i].1 == Count(values, top[i].0)
    {
      assert top[i] in Tally(values);
    }
    forall i, j | 0 <= i < j < |top|
      ensures top[i].0 != top[j].0
    {
      assert Frequency(top[i]) > Frequency(top[j]) ||
        (Frequency(top[i]) == Frequency(top[j]) && FirstSeen(values)(top[i]) < FirstSeen(values)(top[j]));
    }
  }

  /** Counts never increase along the list, and equal counts keep the order
      in which their values first appear. */
  lemma MostCommonOrder(values: seq<string>, n: nat)
    ensures forall i, j :: 0 <= i < j < |MostCommon(values, n)| ==>
      MostCommon(values, n)[i].1 >= MostCommon(values, n)[j].1
    ensures forall i, j :: 0 <= i < j < |MostCommon(values, n)| && MostCommon(values, n)[i].1 == MostCommon(values, n)[j].1 ==>
      FirstIndex(values, MostCommon(values, n)[i].0) < FirstIndex(values, MostCommon(values, n)[j].0)
  {
    var top := MostCommon(values, n);
    MostCommonRanksTally(values, n);
    forall i, j | 0 <= i < j < |top|
      ensures top[i].1 >= top[j].1
      ensures top[i].1 == top[j].1 ==> FirstIndex(values, top[i].0) < FirstIndex(values, top[j].0)
    {
      assert Frequency(top[i]) > Frequency(top[j]) ||
        (Frequency(top[i]) == Frequency(top[j]) && FirstSeen(values)(top[i]) < FirstSeen(values)(top[j]));
    }
  }

  /** Every value left out of most_common(n) is less frequent than each listed
      one, or equally frequent and first seen later. */
  lemma MostCommonComplete(values: seq<string>, n: nat)
    ensures forall v :: v in values && (forall i :: 0 <= i < |MostCommon(values, n)| ==> MostCommon(values, n)[i].0 != v) ==>
      forall i :: 0 <= i < |MostCommon(values, n)| ==>
        Count(values, v) < MostCommon(values, n)[i].1 ||
        (Count(values, v) == MostCommon(values, n)[i].1 && FirstIndex(values, MostCommon(values, n)[i].0) < FirstIndex(values, v))
  {
    var tally := Tally(values);
    var d := Distinct(values);
    var top := MostCommon(values, n);
    MostCommonRanksTally(values, n);
    forall v | v in values && (forall i :: 0 <= i < |top| ==> top[i].0 != v)
      ensures forall i :: 0 <= i < |top| ==>
        Count(values, v) < top[i].1 ||
        (Count(values, v) == top[i].1 && FirstIndex(values, top[i].0) < FirstIndex(values, v))
    {
      var k :| 0 <= k < |values| && values[k] == v;
      assert v in d;
      var t :| 0 <= t < |d| && d[t] == v;
      assert tally[t] == (v, Count(values, v));
      assert tally[t] !in top;
    }
  }

  /** The numeric summary of the parsed values `nums`. */
  ghost predicate SummarizesNumbers(summary: Summary, nums: seq<real>)
  {
    && summary.Numeric?
    && nums != []
    && CalculateMean(nums) == Some(summary.mean)
    && summary.min in nums && summary.max in nums
    && (forall i :: 0 <= i < |nums| ==> summary.min <= nums[i] <= summary.max)
    && summary.min <= summary.mean <= summary.max
    && summary.variance == SampleVariance(nums)
    && (summary.variance.None? <==> |nums| < 2)
  }

  /** The categorical summary of the present values `values`. */
  ghost predicate SummarizesValues(summary: Summary, values: seq<string>)
  {
    && summary.Categorical?
    && summary.uniqueValues == |set v | v in values|
    && summary.mostCommon == MostCommon(values, TopValueCount)
  }

  /** The numeric branch of analyze_column: mean, min, max and std_dev. */
  function SummarizeNumeric(nums: seq<real>): (summary: Summary)
    requires nums != []
    ensures SummarizesNumbers(summary, nums)
  {
    Numeric(CalculateMean(nums).value, Min(nums), Max(nums), SampleVariance(nums))
  }

  /** The categorical branch of analyze_column: the Counter's size and its
      most_common(5). */
  function SummarizeCategorical(values: seq<string>): (summary: Summary)
    ensures SummarizesValues(summary, values)
    ensures values == [] ==> summary == Categorical(0, [])
  {
    DistinctCardinality(values);
    MostCommonLength(values, TopValueCount);
    Categorical(|Tally(values)|, MostCommon(values, TopValueCount))
  }

  /** One more value appends its parse exactly when it is numeric. */
  lemma NumericParsesSnoc(front: seq<string>, x: string, isNumeric: string -> bool, parse: string -> real)
    ensures NumericParses(front + [x], isNumeric, parse) ==
      NumericParses(front, isNumeric, parse) + (if isNumeric(x) then [parse(x)] else [])
  {
    assert (front + [x])[..|front|] == front;
  }

  /** The loop of analyze_column that appends float(val) for every value
      that passes is_numeric. */
  method CollectNumeric(values: seq<string>, isNumeric: string -> bool, parse: string -> real)
    returns (numericValues: seq<real>)
    ensures numericValues == NumericParses(values, isNumeric, parse)
  {
    numericValues := [];
    for i := 0 to |values|
      invariant numericValues == NumericParses(values[..i], isNumeric, parse)
    {
      assert values[..i + 1] == values[..i] + [values[i]];
      NumericParsesSnoc(values[..i], values[i], isNumeric, parse);
      if isNumeric(values[i]) {
        numericValues := numericValues + [parse(values[i])];
      }
    }
    assert values[..|values|] == values;
  }

  /** What analyze_column reports about the present values `values`: the
      numeric summary exactly for a numeric column, and the categorical one
      otherwise, which is empty for no values. */
  ghost predicate ProfilesValues(summary: Summary, values: seq<string>, isNumeric: string -> bool, parse: string -> real)
  {
    && (summary.Numeric? <==> IsNumericColumn(values, isNumeric))
    && (summary.Numeric? ==> SummarizesNumbers(summary, Parsed(values, parse)))
    && (summary.Categorical? ==> SummarizesValues(summary, values))
    && (values == [] ==> summary == Categorical(0, []))
  }

  /** The branch of analyze_column on `numeric_values and len(numeric_values)
      == len(values)`. */
  method Summarize(values: seq<string>, numericValues: seq<real>, isNumeric: string -> bool, parse: string -> real)
    returns (summary: Summary)
    requires numericValues == NumericParses(values, isNumeric, parse)
    ensures ProfilesValues(summary, values, isNumeric, parse)
  {
    NumericRule(values, isNumeric, parse);
    if |numericValues| > 0 && |numericValues| == |values| {
      summary := SummarizeNumeric(numericValues);
    } else {
      summary := SummarizeCategorical(values);
    }
  }

  /** analyze_column(data, column). */
  method AnalyzeColumn(data: seq<Row>, column: string, isNumeric: string -> bool, parse: string -> real)
    returns (r: Result<ColumnProfile, KeyError>)
    ensures r.Failure? <==> !HasColumn(data, column)
    ensures r.Failure? ==> r.error == KeyError(column)
    ensures r.Success? ==>
      && r.value.column == column
      && r.value.count == |PresentValues(data, column)|
      && r.value.missing == Count(Cells(data, column), "")
      && r.value.count + r.value.missing == |data|
    ensures r.Success? ==> ProfilesValues(r.value.summary, PresentValues(data, column), isNumeric, parse)
  {
    if !HasColumn(data, column) {
      return Failure(KeyError(column));
    }
    var values := PresentValues(data, column);
    var numericValues := CollectNumeric(values, isNumeric, parse);
    var count := |values|;
    var missing := |data| - |values|;
    assert missing == Count(Cells(data, column), "");
    var summary := Summarize(values, numericValues, isNumeric, parse);
    r := Success(ColumnProfile(column, count, missing, summary));
  }
}
