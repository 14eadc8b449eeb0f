/**
 * The tables the pipeline passes between its stages, standing for pandas
 * DataFrames: a sequence of column labels and rows of cell text. Cells hold
 * the text `str(cell)` gives for the value in the spreadsheet.
 */
module Frame {
  import opened Text

  /** Column labels in order, and one sequence of cells per row. */
  datatype Table = Table(columns: seq<string>, rows: seq<seq<string>>)

  /** Every row has one cell per column, as in every DataFrame. */
  predicate WellFormed(t: Table)
  {
    forall r | 0 <= r < |t.rows| :: |t.rows[r]| == |t.columns|
  }

  /** `pd.DataFrame([])`: no columns and no rows. */
  const EmptyTable := Table([], [])

  /** Position of the first column labelled `name`. */
  function IndexOf(columns: seq<string>, name: string): (k: Option<nat>)
    ensures k.None? <==> name !in columns
    ensures k.Some? ==> k.value < |columns| && columns[k.value] == name
    ensures k.Some? ==> forall j | 0 <= j < k.value :: columns[j] != name
  {
    if |columns| == 0 then None
    else if columns[0] == name then Some(0)
    else match IndexOf(columns[1..], name)
      case None => None
      case Some(j) => Some(j + 1)
  }

  /** `row.get(name, default)` for a row with one cell per column. */
  function CellOr(columns: seq<string>, row: seq<string>, name: string, default: string): (v: string)
    requires |row| == |columns|
    ensures name !in columns ==> v == default
    ensures name in columns ==> exists k | 0 <= k < |columns| :: columns[k] == name && v == row[k]
  {
    match IndexOf(columns, name)
    case None => default
    case Some(k) => row[k]
  }

  /** The labels after `df[name] = ...`: a new label is appended, an existing one stays. */
  function WithColumn(columns: seq<string>, name: string): (cs: seq<string>)
    ensures name in cs
    ensures name in columns ==> cs == columns
    ensures name !in columns ==> cs == columns + [name]
  {
    if name in columns then columns else columns + [name]
  }

  /**
   * A row after `row[name] = value`: every cell under the label `name` gets
   * the value, or a cell is appended when the label is new.
   */
  function SetCell(columns: seq<string>, row: seq<string>, name: string, value: string): (r: seq<string>)
    requires |row| == |columns|
    ensures |r| == |WithColumn(columns, name)|
    ensures forall k | 0 <= k < |r| :: r[k] == (if WithColumn(columns, name)[k] == name then value else row[k])
  {
    if name in columns then seq(|row|, k requires 0 <= k < |row| => if columns[k] == name then value else row[k])
    else row + [value]
  }

  /** `df[name]`: the cells under the first column labelled name, row by row. */
  function ColumnValues(t: Table, name: string): (vs: seq<string>)
    requires WellFormed(t) && name in t.columns
    ensures |vs| == |t.rows|
    ensures forall i | 0 <= i < |t.rows| :: vs[i] == CellOr(t.columns, t.rows[i], name, "")
  {
    var k := IndexOf(t.columns, name).value;
    seq(|t.rows|, i requires 0 <= i < |t.rows| => t.rows[i][k])
  }
}
