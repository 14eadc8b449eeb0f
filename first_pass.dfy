/**
 * The first pass of the double-check analyzer over a whole table of calls:
 * finds the columns it needs by alias, runs the rule evaluator on every
 * call, and collects the flagged calls into a findings table (categorized)
 * and a table of details, row for row.
 */
module FirstPass {
  import opened Text
  import opened Frame
  import opened Analyzer
  import Categorizer
  import FindingCategory

  // ---------------------------------------------------------------------
  // _find_column
  // ---------------------------------------------------------------------

  /** `name.lower() in str(col).lower()`: the alias is part of the column label. */
  predicate Matches(alias: string, col: string)
  {
    Contains(Lower(col), Lower(alias))
  }

  /** The first column, left to right, that the alias matches. */
  function ColumnFor(columns: seq<string>, alias: string): Option<string>
  {
    if columns == [] then None
    else if Matches(alias, columns[0]) then Some(columns[0])
    else ColumnFor(columns[1..], alias)
  }

  /** ColumnFor finds the leftmost matching column, and nothing when no column matches. */
  lemma {:induction false} ColumnForSpec(columns: seq<string>, alias: string)
    ensures ColumnFor(columns, alias).None? <==> forall j | 0 <= j < |columns| :: !Matches(alias, columns[j])
    ensures ColumnFor(columns, alias).Some? ==>
              exists j | 0 <= j < |columns| :: columns[j] == ColumnFor(columns, alias).value &&
                Matches(alias, columns[j]) && forall j' | 0 <= j' < j :: !Matches(alias, columns[j'])
  {
    if columns != [] && !Matches(alias, columns[0]) {
      var tail := columns[1..];
      ColumnForSpec(tail, alias);
      assert forall j | 1 <= j < |columns| :: columns[j] == tail[j - 1];
      if ColumnFor(tail, alias).Some? {
        var j :| 0 <= j < |tail| && tail[j] == ColumnFor(tail, alias).value &&
                 Matches(alias, tail[j]) && forall j' | 0 <= j' < j :: !Matches(alias, tail[j']);
        assert columns[j + 1] == tail[j];
      }
    }
  }

  /**
   * The column `_find_column` picks: aliases are tried in order, and for
   * the first alias that some column matches, the leftmost such column.
   */
  function ResolveColumn(columns: seq<string>, aliases: seq<string>): Option<string>
  {
    if aliases == [] then None
    else match ColumnFor(columns, aliases[0])
      case Some(c) => Some(c)
      case None => ResolveColumn(columns, aliases[1..])
  }

  /**
   * The resolved column is the leftmost match of the first alias that
   * matches at all, and nothing is resolved exactly when no alias matches
   * any column.
   */
  lemma {:induction false} ResolveColumnSpec(columns: seq<string>, aliases: seq<string>)
    ensures ResolveColumn(columns, aliases).None? <==>
              forall i, j | 0 <= i < |aliases| && 0 <= j < |columns| :: !Matches(aliases[i], columns[j])
    ensures ResolveColumn(columns, aliases).Some? ==> ResolveColumn(columns, aliases).value in columns
    ensures ResolveColumn(columns, aliases).Some? ==>
              exists i | 0 <= i < |aliases| :: ColumnFor(columns, aliases[i]) == ResolveColumn(columns, aliases) &&
                forall i' | 0 <= i' < i :: ColumnFor(columns, aliases[i']).None?
  {
    if aliases != [] {
      ColumnForSpec(columns, aliases[0]);
      if ColumnFor(columns, aliases[0]).None? {
        var tail := aliases[1..];
        ResolveColumnSpec(columns, tail);
        assert forall i | 1 <= i < |aliases| :: aliases[i] == tail[i - 1];
        if ResolveColumn(columns, tail).Some? {
          var i :| 0 <= i < |tail| && ColumnFor(columns, tail[i]) == ResolveColumn(columns, tail) &&
                   forall i' | 0 <= i' < i :: ColumnFor(columns, tail[i']).None?;
          assert aliases[i + 1] == tail[i];
        }
      } else {
        assert ColumnFor(columns, aliases[0]) == ResolveColumn(columns, aliases);
      }
    }
  }

  /** `_find_column`: nested loops over the aliases and the column labels. */
  method FindColumn(columns: seq<string>, aliases: seq<string>) returns (r: Option<string>)
    ensures r == ResolveColumn(columns, aliases)
  {
    var i := 0;
    while i < |aliases|
      invariant 0 <= i <= |aliases|
      invariant ResolveColumn(columns, aliases) == ResolveColumn(columns, aliases[i..])
    {
      var j := 0;
      while j < |columns|
        invariant 0 <= j <= |columns|
        invariant ColumnFor(columns, aliases[i]) == ColumnFor(columns[j..], aliases[i])
      {
        if Contains(Lower(columns[j]), Lower(aliases[i])) {
          return Some(columns[j]);
        }
        assert columns[j..][1..] == columns[j + 1..];
        j := j + 1;
      }
      assert aliases[i..][1..] == aliases[i + 1..];
      i := i + 1;
    }
    return None;
  }

  /** A table that has a column labelled exactly as one of the aliases always resolves. */
  lemma ExactLabelResolves(columns: seq<string>, aliases: seq<string>, i: int)
    requires 0 <= i < |aliases| && aliases[i] in columns
    ensures ResolveColumn(columns, aliases).Some?
  {
    var j :| 0 <= j < |columns| && columns[j] == aliases[i];
    ContainsAt(Lower(columns[j]), Lower(aliases[i]), 0);
    ResolveColumnSpec(columns, aliases);
  }

  // The aliases first_pass_analysis looks the columns up by.
  const StatusAliases: seq<string> := ["Статус", "status"]
  const ResultAliases: seq<string> := ["result", "результат"]
  const TranscriptAliases: seq<string> := ["call_transcript", "транскрипт"]
  const ClientAliases: seq<string> := ["Номер клиента", "client_id", "id"]
  const PromptsAliases: seq<string> := ["prompts_statistics", "prompts"]
  const DurationAliases: seq<string> := ["длительность", "duration", "call_duration"]
  const CallStatusAliases: seq<string> := ["call_status", "статус звонка"]

  /** The columns of the input table the pass reads; the last three are optional. */
  datatype Columns = Columns(status: string, result: string, transcript: string, client: string,
                             prompts: Option<string>, duration: Option<string>, callStatus: Option<string>)

  /** The columns the pass finds, or None when one of the four it needs is missing. */
  function ResolveAll(columns: seq<string>): Option<Columns>
  {
    var status := ResolveColumn(columns, StatusAliases);
    var result := ResolveColumn(columns, ResultAliases);
    var transcript := ResolveColumn(columns, TranscriptAliases);
    var client := ResolveColumn(columns, ClientAliases);
    if status.None? || result.None? || transcript.None? || client.None? then None
    else Some(Columns(status.value, result.value, transcript.value, client.value,
                      ResolveColumn(columns, PromptsAliases), ResolveColumn(columns, DurationAliases),
                      ResolveColumn(columns, CallStatusAliases)))
  }

  // ---------------------------------------------------------------------
  // first_pass_analysis
  // ---------------------------------------------------------------------

  /** What the pass reads from one row of the input. */
  datatype Dialog = Dialog(client: string, status: string, result: string, transcript: string,
                           prompts: string, duration: string, callStatus: string)

  /** `str(row.get(col, ''))` for an optional column: "" when the column was not found. */
  function OptionalCell(columns: seq<string>, row: seq<string>, col: Option<string>): string
    requires |row| == |columns|
  {
    if col.Some? then CellOr(columns, row, col.value, "") else ""
  }

  function DialogAt(df: Table, cols: Columns, i: int): Dialog
    requires WellFormed(df) && 0 <= i < |df.rows|
  {
    var row := df.rows[i];
    Dialog(CellOr(df.columns, row, cols.client, ""), CellOr(df.columns, row, cols.status, ""),
           CellOr(df.columns, row, cols.result, ""), CellOr(df.columns, row, cols.transcript, ""),
           OptionalCell(df.columns, row, cols.prompts), OptionalCell(df.columns, row, cols.duration),
           OptionalCell(df.columns, row, cols.callStatus))
  }

  /** The finding the rule evaluator gives for a dialog, if any. */
  function FindingFor(d: Dialog): Option<string>
  {
    Verdict(DialogReasons(d.status, d.transcript, d.prompts))
  }

  const ConfirmedColumns: seq<string> := ["Номер клиента", "Статус", "Result", "call_transcript", "Причина ошибки"]
  const DetailedColumns: seq<string> :=
    ["Номер клиента", "result", "Статус", "call_transcript", "длительность", "call_status", "prompts_statistics"]

  function ConfirmedRow(d: Dialog, reason: string): seq<string>
  {
    [d.client, d.status, d.result, d.transcript, reason]
  }

  function DetailedRow(d: Dialog): seq<string>
  {
    [d.client, d.result, d.status, d.transcript, d.duration, d.callStatus, d.prompts]
  }

  /** What the pass reads from every row, in row order. */
  function Dialogs(df: Table, cols: Columns): (ds: seq<Dialog>)
    requires WellFormed(df)
    ensures |ds| == |df.rows|
  {
    seq(|df.rows|, i requires 0 <= i < |df.rows| => DialogAt(df, cols, i))
  }

  /** The finding for each dialog. */
  function Findings(ds: seq<Dialog>): (fs: seq<Option<string>>)
    ensures |fs| == |ds|
  {
    if ds == [] then [] else Findings(ds[..|ds| - 1]) + [FindingFor(ds[|ds| - 1])]
  }

  lemma {:induction false} FindingsAt(ds: seq<Dialog>, i: int)
    requires 0 <= i < |ds|
    ensures Findings(ds)[i] == FindingFor(ds[i])
  {
    if i < |ds| - 1 {
      FindingsAt(ds[..|ds| - 1], i);
    }
  }

  /** The positions below n that carry a finding, in increasing order. */
  function FlaggedIndices(fs: seq<Option<string>>, n: int): (ix: seq<int>)
    requires 0 <= n <= |fs|
    ensures forall k | 0 <= k < |ix| :: 0 <= ix[k] < n && fs[ix[k]].Some?
    ensures forall i | 0 <= i < n && fs[i].Some? :: i in ix
    ensures forall k, l | 0 <= k < l < |ix| :: ix[k] < ix[l]
  {
    if n == 0 then []
    else FlaggedIndices(fs, n - 1) + (if fs[n - 1].Some? then [n - 1] else [])
  }

  /** The findings rows for the flagged ones among the first n dialogs, in order. */
  function ConfirmedRows(ds: seq<Dialog>, fs: seq<Option<string>>, n: int): seq<seq<string>>
    requires 0 <= n <= |ds| && n <= |fs|
  {
    if n == 0 then []
    else ConfirmedRows(ds, fs, n - 1) + (if fs[n - 1].Some? then [ConfirmedRow(ds[n - 1], fs[n - 1].value)] else [])
  }

  /** The detail rows for the flagged ones among the first n dialogs, in order. */
  function DetailedRows(ds: seq<Dialog>, fs: seq<Option<string>>, n: int): seq<seq<string>>
    requires 0 <= n <= |ds| && n <= |fs|
  {
    if n == 0 then []
    else DetailedRows(ds, fs, n - 1) + (if fs[n - 1].Some? then [DetailedRow(ds[n - 1])] else [])
  }

  /**
   * The findings rows and the detail rows are exactly the flagged dialogs,
   * in row order and row for row: the k-th of each describes the same call.
   */
  lemma {:induction false} RowsAreFlaggedDialogs(ds: seq<Dialog>, fs: seq<Option<string>>, n: int)
    requires |fs| == |ds| && 0 <= n <= |ds|
    ensures |ConfirmedRows(ds, fs, n)| == |FlaggedIndices(fs, n)| == |DetailedRows(ds, fs, n)|
    ensures forall k | 0 <= k < |FlaggedIndices(fs, n)| ::
              var i := FlaggedIndices(fs, n)[k];
              ConfirmedRows(ds, fs, n)[k] == ConfirmedRow(ds[i], fs[i].value) &&
              DetailedRows(ds, fs, n)[k] == DetailedRow(ds[i])
  {
    if n > 0 {
      RowsAreFlaggedDialogs(ds, fs, n - 1);
      var ix, c, d := FlaggedIndices(fs, n - 1), ConfirmedRows(ds, fs, n - 1), DetailedRows(ds, fs, n - 1);
      if fs[n - 1].Some? {
        assert FlaggedIndices(fs, n) == ix + [n - 1];
        assert ConfirmedRows(ds, fs, n) == c + [ConfirmedRow(ds[n - 1], fs[n - 1].value)];
        assert DetailedRows(ds, fs, n) == d + [DetailedRow(ds[n - 1])];
      } else {
        assert FlaggedIndices(fs, n) == ix;
        assert ConfirmedRows(ds, fs, n) == c;
        assert DetailedRows(ds, fs, n) == d;
      }
    }
  }

  /** Every findings row has a cell per findings column. */
  lemma {:induction false} ConfirmedRowsShape(ds: seq<Dialog>, fs: seq<Option<string>>, n: int)
    requires |fs| == |ds| && 0 <= n <= |ds|
    ensures WellFormed(Table(ConfirmedColumns, ConfirmedRows(ds, fs, n)))
  {
    if n > 0 {
      ConfirmedRowsShape(ds, fs, n - 1);
    }
  }

  /** The two tables the pass returns, or None when a needed column is missing. */
  function FirstPassResult(df: Table): Option<(Table, Table)>
    requires WellFormed(df)
  {
    match ResolveAll(df.columns)
    case None => None
    case Some(cols) =>
      var ds := Dialogs(df, cols);
      var fs := Findings(ds);
      var confirmed := ConfirmedRows(ds, fs, |ds|);
      if confirmed == [] then Some((EmptyTable, EmptyTable))
      else
        ConfirmedRowsShape(ds, fs, |ds|);
        Some((Categorizer.Categorized(Table(ConfirmedColumns, confirmed)),
              Table(DetailedColumns, DetailedRows(ds, fs, |ds|))))
  }

  /** Collecting one more dialog adds its rows exactly when it carries a finding. */
  lemma RowsStep(ds: seq<Dialog>, fs: seq<Option<string>>, i: int)
    requires 0 <= i < |ds| && i < |fs|
    ensures ConfirmedRows(ds, fs, i + 1)
              == ConfirmedRows(ds, fs, i) + (if fs[i].Some? then [ConfirmedRow(ds[i], fs[i].value)] else [])
    ensures DetailedRows(ds, fs, i + 1)
              == DetailedRows(ds, fs, i) + (if fs[i].Some? then [DetailedRow(ds[i])] else [])
  {
  }

  /** The body of the row loop: a dialog with a finding adds one row to each table. */
  method AppendIfFlagged(confirmed: seq<seq<string>>, detailed: seq<seq<string>>,
                         ghost ds: seq<Dialog>, ghost fs: seq<Option<string>>, i: int, d: Dialog, reason: Option<string>)
    returns (confirmed': seq<seq<string>>, detailed': seq<seq<string>>)
    requires 0 <= i < |ds| && i < |fs| && d == ds[i] && reason == fs[i]
    requires confirmed == ConfirmedRows(ds, fs, i) && detailed == DetailedRows(ds, fs, i)
    ensures confirmed' == ConfirmedRows(ds, fs, i + 1) && detailed' == DetailedRows(ds, fs, i + 1)
  {
    RowsStep(ds, fs, i);
    confirmed', detailed' := confirmed, detailed;
    if reason.Some? {
      confirmed' := confirmed' + [ConfirmedRow(d, reason.value)];
      detailed' := detailed' + [DetailedRow(d)];
    }
  }

  /** The rule evaluator run on row i. */
  method AnalyzeRow(df: Table, cols: Columns, i: int) returns (d: Dialog, reason: Option<string>)
    requires WellFormed(df) && 0 <= i < |df.rows|
    ensures d == Dialogs(df, cols)[i]
    ensures reason == Findings(Dialogs(df, cols))[i]
  {
    d := DialogAt(df, cols, i);
    reason := AnalyzeDialogForErrors(d.status, d.result, d.transcript, d.prompts);
    FindingsAt(Dialogs(df, cols), i);
  }

  /** The row loop of `first_pass_analysis`: runs the rule evaluator on every dialog. */
  method CollectFindings(df: Table, cols: Columns) returns (confirmed: seq<seq<string>>, detailed: seq<seq<string>>)
    requires WellFormed(df)
    ensures confirmed == ConfirmedRows(Dialogs(df, cols), Findings(Dialogs(df, cols)), |df.rows|)
    ensures detailed == DetailedRows(Dialogs(df, cols), Findings(Dialogs(df, cols)), |df.rows|)
  {
    ghost var ds := Dialogs(df, cols);
    ghost var fs := Findings(ds);
    confirmed, detailed := [], [];
    var i := 0;
    while i < |df.rows|
      invariant 0 <= i <= |df.rows|
      invariant confirmed == ConfirmedRows(ds, fs, i)
      invariant detailed == DetailedRows(ds, fs, i)
    {
      var d, reason := AnalyzeRow(df, cols, i);
      confirmed, detailed := AppendIfFlagged(confirmed, detailed, ds, fs, i, d, reason);
      i := i + 1;
    }
  }

  /** `first_pass_analysis` */
  method FirstPassAnalysis(df: Table) returns (r: Option<(Table, Table)>)
    requires WellFormed(df)
    ensures r == FirstPassResult(df)
  {
    var statusCol := FindColumn(df.columns, StatusAliases);
    var resultCol := FindColumn(df.columns, ResultAliases);
    var transcriptCol := FindColumn(df.columns, TranscriptAliases);
    var clientCol := FindColumn(df.columns, ClientAliases);
    var promptsCol := FindColumn(df.columns, PromptsAliases);
    var durationCol := FindColumn(df.columns, DurationAliases);
    var callStatusCol := FindColumn(df.columns, CallStatusAliases);
    if statusCol.None? || resultCol.None? || transcriptCol.None? || clientCol.None? {
      return None;
    }
    var cols := Columns(statusCol.value, resultCol.value, transcriptCol.value, clientCol.value,
                        promptsCol, durationCol, callStatusCol);
    assert ResolveAll(df.columns) == Some(cols);
    var confirmed, detailed := CollectFindings(df, cols);
    if |confirmed| > 0 {
      ghost var ds := Dialogs(df, cols);
      ConfirmedRowsShape(ds, Findings(ds), |ds|);
      var categorized := Categorizer.CategorizeErrors(Table(ConfirmedColumns, confirmed));
      return Some((categorized, Table(DetailedColumns, detailed)));
    }
    return Some((EmptyTable, EmptyTable));
  }

  // ---------------------------------------------------------------------
  // What the two tables hold
  // ---------------------------------------------------------------------

  /** The reason cell of a findings row is its fifth, and the category label is new. */
  lemma ConfirmedColumnsLayout()
    ensures IndexOf(ConfirmedColumns, Categorizer.ReasonColumn) == Some(4)
    ensures Categorizer.CategoryColumn !in ConfirmedColumns
  {
    assert ConfirmedColumns[4] == Categorizer.ReasonColumn;
    assert forall j | 0 <= j < 4 :: |ConfirmedColumns[j]| != |Categorizer.ReasonColumn|;
    assert forall j | 0 <= j < 5 :: |ConfirmedColumns[j]| != |Categorizer.CategoryColumn|;
  }

  /** Categorizing the findings appends to every row the category of its reason cell. */
  lemma CategorizedFindings(rows: seq<seq<string>>)
    requires |rows| > 0 && forall k | 0 <= k < |rows| :: |rows[k]| == |ConfirmedColumns|
    ensures var c := Categorizer.Categorized(Table(ConfirmedColumns, rows));
      c.columns == ConfirmedColumns + [Categorizer.CategoryColumn] && |c.rows| == |rows| &&
      forall k | 0 <= k < |rows| :: c.rows[k] == rows[k] + [Categorizer.DetermineCategory(rows[k][4])]
  {
    ConfirmedColumnsLayout();
    var c := Categorizer.Categorized(Table(ConfirmedColumns, rows));
    forall k | 0 <= k < |rows|
      ensures c.rows[k] == rows[k] + [Categorizer.DetermineCategory(rows[k][4])]
    {
      assert Categorizer.CategoryOf(ConfirmedColumns, rows[k]) == Categorizer.DetermineCategory(rows[k][4]);
    }
  }

  /**
   * A dialog with a finding: its reasons are not empty, the finding is them
   * joined, and the category of the finding is the first of them in priority order.
   */
  lemma FlaggedDialog(d: Dialog)
    requires FindingFor(d).Some?
    ensures var rs := DialogReasons(d.status, d.transcript, d.prompts);
      rs != [] && FindingFor(d).value == JoinWith(rs, Categorizer.Separator) &&
      exists k | 0 <= k < |Categorizer.Priority| :: Categorizer.Priority[k] in rs
    ensures var rs := DialogReasons(d.status, d.transcript, d.prompts);
      Categorizer.DetermineCategory(FindingFor(d).value) == Categorizer.Priority[Categorizer.FirstListed(Categorizer.Priority, rs)]
  {
    FindingCategory.FindingCategoryIsFirstReason(d.status, d.transcript, d.prompts);
  }

  /**
   * The findings table has one row per flagged call, in row order: the call's
   * cells, its finding and the category of that finding; the details table
   * has the same calls, row for row. Calls without a finding appear in neither.
   */
  lemma FirstPassTables(df: Table)
    requires WellFormed(df) && ResolveAll(df.columns).Some?
    ensures var ds := Dialogs(df, ResolveAll(df.columns).value);
      var fs := Findings(ds);
      var ix := FlaggedIndices(fs, |ds|);
      var (c, t) := FirstPassResult(df).value;
      |c.rows| == |ix| && |t.rows| == |ix| && WellFormed(c) && WellFormed(t) &&
      (|ix| > 0 ==> c.columns == ConfirmedColumns + [Categorizer.CategoryColumn] && t.columns == DetailedColumns) &&
      forall k | 0 <= k < |ix| ::
        c.rows[k] == ConfirmedRow(ds[ix[k]], fs[ix[k]].value) + [Categorizer.DetermineCategory(fs[ix[k]].value)] &&
        t.rows[k] == DetailedRow(ds[ix[k]])
  {
    var ds := Dialogs(df, ResolveAll(df.columns).value);
    var fs := Findings(ds);
    RowsAreFlaggedDialogs(ds, fs, |ds|);
    ConfirmedRowsShape(ds, fs, |ds|);
    if |FlaggedIndices(fs, |ds|)| > 0 {
      CategorizedFindings(ConfirmedRows(ds, fs, |ds|));
    }
  }
}
