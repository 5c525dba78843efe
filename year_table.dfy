/**
 * The per-year table of `02_extract_miRNAs_per_year.py`: one column of mention
 * counts per publication year (one entry per identifier), the years between
 * the first and the last filled in with zero columns, and each identifier's
 * row blanked out before the first year it is mentioned, so that totals and
 * means run from that year on.
 */
module YearTable {
  import opened Text

  /** A table entry: a count, or pandas' missing value (NaN). */
  datatype Cell = Missing | Count(n: nat)

  /** The first index at or after `from` holding a positive entry (the generator in `transform_row`). */
  function FirstPositive(row: seq<nat>, from: nat): (r: Option<nat>)
    requires from <= |row|
    decreases |row| - from
    ensures r.Some? ==> from <= r.value < |row| && row[r.value] > 0
    ensures r.Some? ==> forall j :: from <= j < r.value ==> row[j] == 0
    ensures r.None? ==> forall j :: from <= j < |row| ==> row[j] == 0
  {
    if from == |row| then None
    else if row[from] > 0 then Some(from)
    else FirstPositive(row, from + 1)
  }

  /** The counts of a row, as table entries. */
  function AsCells(row: seq<nat>): (r: seq<Cell>)
    ensures |r| == |row| && forall i :: 0 <= i < |row| ==> r[i] == Count(row[i])
  {
    seq(|row|, i requires 0 <= i < |row| => Count(row[i]))
  }

  /**
   * `transform_row`: the same number of entries; an entry is blanked out
   * exactly when it and every entry before it are zero and a later entry is
   * positive, and every other entry keeps its count.
   */
  function TransformRow(row: seq<nat>): (r: seq<Cell>)
    ensures |r| == |row|
    ensures forall i :: 0 <= i < |row| ==>
              (r[i] == Missing <==> (forall j :: 0 <= j <= i ==> row[j] == 0) && exists j :: i < j < |row| && row[j] > 0)
    ensures forall i :: 0 <= i < |row| && r[i].Count? ==> r[i].n == row[i]
  {
    match FirstPositive(row, 0)
    case None => AsCells(row)
    case Some(f) => seq(|row|, i requires 0 <= i < |row| => if i < f then Missing else Count(row[i]))
  }

  /** A row with no positive entry comes back unchanged. */
  lemma NoMentionUnchanged(row: seq<nat>)
    requires forall i :: 0 <= i < |row| ==> row[i] == 0
    ensures TransformRow(row) == AsCells(row)
  {
  }

  /** The sum of a row (`sum(axis=1)`). */
  function Sum(row: seq<nat>): nat
  {
    if |row| == 0 then 0 else row[0] + Sum(row[1..])
  }

  /** The sum of the counts of a transformed row, skipping missing entries as pandas does. */
  function CellSum(cells: seq<Cell>): nat
  {
    if |cells| == 0 then 0
    else (if cells[0].Count? then cells[0].n else 0) + CellSum(cells[1..])
  }

  /** The number of entries that are counts: the denominator of the row mean. */
  function Counted(cells: seq<Cell>): nat
  {
    if |cells| == 0 then 0
    else (if cells[0].Count? then 1 else 0) + Counted(cells[1..])
  }

  /** Blanking out zero entries leaves the sum alone. */
  lemma {:induction false} BlankedZerosKeepSum(cells: seq<Cell>, row: seq<nat>)
    requires |cells| == |row|
    requires forall i :: 0 <= i < |row| ==> if cells[i].Count? then cells[i].n == row[i] else row[i] == 0
    ensures CellSum(cells) == Sum(row)
  {
    if |row| > 0 {
      BlankedZerosKeepSum(cells[1..], row[1..]);
    }
  }

  /** Entries missing exactly before index `f` leave `|cells| - f` counts. */
  lemma {:induction false} CountedAfterBlank(cells: seq<Cell>, f: nat)
    requires f <= |cells|
    requires forall i :: 0 <= i < |cells| ==> (cells[i] == Missing <==> i < f)
    ensures Counted(cells) == |cells| - f
  {
    if |cells| > 0 {
      if f > 0 {
        CountedAfterBlank(cells[1..], f - 1);
      } else {
        CountedAfterBlank(cells[1..], 0);
      }
    }
  }

  /** `Total_Mentions` of a transformed row is the sum of the original row: the blanked entries were zeros. */
  lemma TotalMentions(row: seq<nat>)
    ensures CellSum(TransformRow(row)) == Sum(row)
  {
    BlankedZerosKeepSum(TransformRow(row), row);
  }

  /** The mean of a transformed row is taken over the years from the first mention on. */
  lemma MeanSpan(row: seq<nat>)
    requires FirstPositive(row, 0).Some?
    ensures Counted(TransformRow(row)) == |row| - FirstPositive(row, 0).value
  {
    var r := TransformRow(row);
    var f := FirstPositive(row, 0).value;
    forall i | 0 <= i < |r| ensures r[i] == Missing <==> i < f {
      if i >= f {
        assert row[f] > 0;
      }
    }
    CountedAfterBlank(r, f);
  }

  /** `min(numeric_years)` and `max(numeric_years)`. */
  method YearBounds(years: seq<int>) returns (lo: int, hi: int)
    requires |years| > 0
    ensures lo in years && hi in years
    ensures forall k :: 0 <= k < |years| ==> lo <= years[k] <= hi
  {
    lo, hi := years[0], years[0];
    for i := 1 to |years|
      invariant lo in years[..i] && hi in years[..i]
      invariant forall k :: 0 <= k < i ==> lo <= years[k] <= hi
    {
      if years[i] < lo {
        lo := years[i];
      }
      if years[i] > hi {
        hi := years[i];
      }
    }
    assert years[..|years|] == years;
  }

  /** A column of `height` zeros (`yearly_counts_T[str(year)] = 0`). */
  function Zeros(height: nat): (z: seq<nat>)
    ensures |z| == height && forall i :: 0 <= i < height ==> z[i] == 0
  {
    seq(height, _ => 0)
  }

  /**
   * The gap filling on a table whose column labels, as numbers, are
   * `labels` and whose column for year `y` is `columns[y]`: the result has
   * one column per year from the earliest to the latest year of the table,
   * in increasing order; a year the table has keeps its column, and a year
   * it lacks gets a column of zeros.
   */
  method FillYearGaps(labels: seq<int>, columns: map<int, seq<nat>>, height: nat)
      returns (years: seq<int>, table: seq<seq<nat>>)
    requires |labels| > 0
    requires forall y :: y in columns <==> y in labels
    requires forall y :: y in columns ==> |columns[y]| == height
    ensures |years| > 0 && |table| == |years|
    ensures forall k :: 0 <= k < |table| ==> |table[k]| == height
    ensures years[0] in columns && years[|years| - 1] in columns
    ensures forall k :: 0 <= k < |years| ==> years[k] == years[0] + k
    ensures forall y :: y in columns ==> years[0] <= y <= years[|years| - 1]
    ensures forall k :: 0 <= k < |years| ==>
              table[k] == if years[k] in columns then columns[years[k]] else Zeros(height)
  {
    var lo, hi := YearBounds(labels);
    var filled := columns;
    var year := lo;
    while year <= hi
      invariant lo <= year <= hi + 1
      invariant forall y :: y in filled <==> y in columns || lo <= y < year
      invariant forall y :: y in filled ==> filled[y] == if y in columns then columns[y] else Zeros(height)
      decreases hi - year
    {
      if year !in columns {
        filled := filled[year := Zeros(height)];
      }
      year := year + 1;
    }
    years := [];
    table := [];
    year := lo;
    while year <= hi
      invariant lo <= year <= hi + 1
      invariant |years| == year - lo && |table| == |years|
      invariant forall k :: 0 <= k < |years| ==> years[k] == lo + k
      invariant forall k :: 0 <= k < |years| ==>
                  table[k] == if years[k] in columns then columns[years[k]] else Zeros(height)
      decreases hi - year
    {
      years := years + [year];
      table := table + [filled[year]];
      year := year + 1;
    }
  }
}
