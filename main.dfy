/**
 * The correction step of the pipeline: for every confirmed finding, the
 * status and result the call should have carried; the table of corrections
 * with before and after; the summary per category; and the corrected
 * statuses laid over the original table of calls.
 */
module Correction {
  import opened Text
  import opened Frame
  import Tally
  import Categorizer

  // ---------------------------------------------------------------------
  // analyze_and_correct
  // ---------------------------------------------------------------------

  /** A corrected status, a corrected result and the reason for the change. */
  datatype Fix = Fix(status: string, result: string, reason: string)

  const NoChange := "Без изменений"

  /** The status fragment that gates the correction of a false churn. */
  const ConfirmedMark := "подтверждена"

  const AgreementFix := Fix("угроза оттока не подтверждена", "согласие - да",
                            "Клиент соглашается, но был помечен как отток")
  const CommunicationFix := Fix("угроза оттока не определена, требуется уточнение", "отказ - проблемы связи",
                                "Критические проблемы коммуникации")
  const WrongContactFix := Fix("угроза оттока не определена_ неверный контакт", "ошиблись номером",
                               "Диалог с лицом, не принимающим решения")
  const DoubtFix := Fix("угроза оттока требует уточнения", "отказ - не определён", "Клиент выражает сомнения")
  const EvasionFix := Fix("угроза оттока подтверждена", "отказ - уклонение от ответа",
                          "Клиент игнорирует ключевые вопросы")

  /** The five categories the correction step has a fix for. */
  predicate KnownCategory(category: string)
  {
    category == Categorizer.FalsePositiveChurn || category == Categorizer.CommunicationBreakdown ||
    category == Categorizer.WrongPerson || category == Categorizer.UncertainChurn ||
    category == Categorizer.IgnoredQuestions
  }

  /**
   * `analyze_and_correct`: the fix for a category. A false churn is fixed only
   * when the lower-cased status mentions "подтверждена"; four categories have
   * a fixed answer; every other category leaves the call as it is. (The
   * transcript the source also receives takes no part in the decision.)
   */
  function AnalyzeAndCorrect(status: string, result: string, category: string): (f: Fix)
    ensures f.reason == NoChange <==>
              !KnownCategory(category) ||
              (category == Categorizer.FalsePositiveChurn && !Contains(Lower(status), ConfirmedMark))
    ensures f.reason == NoChange ==> f.status == status && f.result == result
  {
    if category == Categorizer.FalsePositiveChurn then
      if Contains(Lower(status), ConfirmedMark) then AgreementFix else Fix(status, result, NoChange)
    else if category == Categorizer.CommunicationBreakdown then CommunicationFix
    else if category == Categorizer.WrongPerson then WrongContactFix
    else if category == Categorizer.UncertainChurn then DoubtFix
    else if category == Categorizer.IgnoredQuestions then EvasionFix
    else Fix(status, result, NoChange)
  }

  /** The four categories other than false churn get their fixed answer. */
  lemma FixedCorrections(status: string, result: string)
    ensures AnalyzeAndCorrect(status, result, Categorizer.CommunicationBreakdown) == CommunicationFix
    ensures AnalyzeAndCorrect(status, result, Categorizer.WrongPerson) == WrongContactFix
    ensures AnalyzeAndCorrect(status, result, Categorizer.UncertainChurn) == DoubtFix
    ensures AnalyzeAndCorrect(status, result, Categorizer.IgnoredQuestions) == EvasionFix
  {
  }

  /** For those four categories the original status and result do not matter. */
  lemma FixedCategoriesIgnoreInputs(category: string, s1: string, r1: string, s2: string, r2: string)
    requires KnownCategory(category) && category != Categorizer.FalsePositiveChurn
    ensures AnalyzeAndCorrect(s1, r1, category) == AnalyzeAndCorrect(s2, r2, category)
  {
  }

  /** A false churn is fixed exactly when the lower-cased status mentions "подтверждена". */
  lemma FalsePositiveGate(status: string, result: string)
    ensures Contains(Lower(status), ConfirmedMark) ==>
              AnalyzeAndCorrect(status, result, Categorizer.FalsePositiveChurn) == AgreementFix
    ensures !Contains(Lower(status), ConfirmedMark) ==>
              AnalyzeAndCorrect(status, result, Categorizer.FalsePositiveChurn) == Fix(status, result, NoChange)
  {
  }

  /** The corrected false-churn status itself mentions "подтверждена" ("не подтверждена"). */
  lemma AgreementStatusConfirmed()
    ensures Contains(Lower(AgreementFix.status), ConfirmedMark)
  {
    var s := AgreementFix.status;
    LowerOfLowerCase(s);
    assert s[17..29] == ConfirmedMark;
    ContainsAt(s, ConfirmedMark, 17);
  }

  /** The gate passes for a status that denies the churn threat as well. */
  lemma DeniedThreatPassesGate(result: string)
    ensures AnalyzeAndCorrect(AgreementFix.status, result, Categorizer.FalsePositiveChurn) == AgreementFix
  {
    AgreementStatusConfirmed();
  }

  /** A category without a fix, the false-negative label among them, changes nothing. */
  lemma OtherCategoriesUnchanged(status: string, result: string, category: string)
    requires !KnownCategory(category)
    ensures AnalyzeAndCorrect(status, result, category) == Fix(status, result, NoChange)
  {
  }

  lemma FalseNegativeUnchanged(status: string, result: string)
    ensures AnalyzeAndCorrect(status, result, Categorizer.FalseNegativeChurn) == Fix(status, result, NoChange)
  {
    OtherCategoriesUnchanged(status, result, Categorizer.FalseNegativeChurn);
  }

  /** Correcting a corrected call again under the same category gives the same answer. */
  lemma CorrectionIsIdempotent(status: string, result: string, category: string)
    ensures var f := AnalyzeAndCorrect(status, result, category);
      AnalyzeAndCorrect(f.status, f.result, category) == f
  {
    if category == Categorizer.FalsePositiveChurn && Contains(Lower(status), ConfirmedMark) {
      DeniedThreatPassesGate(result);
      DeniedThreatPassesGate(AgreementFix.result);
    }
  }

  // ---------------------------------------------------------------------
  // analyze_and_correct_errors
  // ---------------------------------------------------------------------

  const ClientColumn := "Номер клиента"
  const StatusColumn := "Статус"
  const ResultColumn := "Result"
  const TranscriptColumn := "call_transcript"
  const RequiredColumns: seq<string> :=
    [ClientColumn, StatusColumn, ResultColumn, TranscriptColumn, Categorizer.CategoryColumn]

  const BeforeStatus := "Было_статус"
  const AfterStatus := "Стало_статус"
  const CorrectionColumns: seq<string> :=
    [ClientColumn, BeforeStatus, AfterStatus, "Было_result", "Стало_result", "Тип_ошибки",
     "Причина_коррекции", TranscriptColumn]

  /** `[col for col in required if col not in columns]` */
  function MissingColumns(required: seq<string>, columns: seq<string>): (ms: seq<string>)
    ensures forall c :: c in ms <==> c in required && c !in columns
    ensures |ms| <= |required|
    ensures ms == [] <==> forall c | c in required :: c in columns
  {
    if required == [] then []
    else
      var init := required[..|required| - 1];
      var last := required[|required| - 1];
      assert required == init + [last];
      MissingColumns(init, columns) + (if last in columns then [] else [last])
  }

  /** The correction of one row: before and after side by side. */
  function CorrectionRow(columns: seq<string>, row: seq<string>): seq<string>
    requires |row| == |columns|
  {
    var status := CellOr(columns, row, StatusColumn, "");
    var result := CellOr(columns, row, ResultColumn, "");
    var category := CellOr(columns, row, Categorizer.CategoryColumn, "");
    var f := AnalyzeAndCorrect(status, result, category);
    [CellOr(columns, row, ClientColumn, ""), status, f.status, result, f.result, category, f.reason,
     CellOr(columns, row, TranscriptColumn, "")]
  }

  /** A row of the correction table: its after columns are the fix of its before columns. */
  predicate ValidCorrection(r: seq<string>)
  {
    |r| == |CorrectionColumns| && Fix(r[2], r[4], r[6]) == AnalyzeAndCorrect(r[1], r[3], r[5])
  }

  /** `(df[before] != df[after]).sum()` */
  function Changes(rows: seq<seq<string>>, before: nat, after: nat): nat
    requires forall i | 0 <= i < |rows| :: before < |rows[i]| && after < |rows[i]|
  {
    if rows == [] then 0
    else
      var last := rows[|rows| - 1];
      Changes(rows[..|rows| - 1], before, after) + (if last[before] != last[after] then 1 else 0)
  }

  /** How many rows carry one of the five categories that have a fix. */
  function KnownCount(rows: seq<seq<string>>): nat
    requires forall i | 0 <= i < |rows| :: |rows[i]| == |CorrectionColumns|
  {
    if rows == [] then 0
    else KnownCount(rows[..|rows| - 1]) + (if KnownCategory(rows[|rows| - 1][5]) then 1 else 0)
  }

  /**
   * What `analyze_and_correct_errors` ends with: the required columns that
   * are missing; a failure on an input without rows, whose correction table
   * has no columns to count changes in; or the correction table with the
   * number of changed statuses and of changed results.
   */
  datatype CorrectionOutcome =
    | Missing(columns: seq<string>)
    | NoRows
    | Corrected(table: Table, statusChanges: nat, resultChanges: nat)

  function CorrectionOf(df: Table): CorrectionOutcome
    requires WellFormed(df)
  {
    var missing := MissingColumns(RequiredColumns, df.columns);
    if missing != [] then Missing(missing)
    else if df.rows == [] then NoRows
    else
      var rows := seq(|df.rows|, i requires 0 <= i < |df.rows| => CorrectionRow(df.columns, df.rows[i]));
      Corrected(Table(CorrectionColumns, rows), Changes(rows, 1, 2), Changes(rows, 3, 4))
  }

  /** The required columns absent from the table, in the order they are required. */
  method FindMissing(required: seq<string>, columns: seq<string>) returns (missing: seq<string>)
    ensures missing == MissingColumns(required, columns)
  {
    missing := [];
    var j := 0;
    while j < |required|
      invariant 0 <= j <= |required|
      invariant missing == MissingColumns(required[..j], columns)
    {
      assert required[..j + 1][..j] == required[..j];
      if required[j] !in columns {
        missing := missing + [required[j]];
      }
      j := j + 1;
    }
    assert required[..j] == required;
  }

  /** The correction of every row, in row order. */
  method CorrectRows(df: Table) returns (rows: seq<seq<string>>)
    requires WellFormed(df)
    ensures rows == seq(|df.rows|, i requires 0 <= i < |df.rows| => CorrectionRow(df.columns, df.rows[i]))
  {
    rows := [];
    var i := 0;
    while i < |df.rows|
      invariant 0 <= i <= |df.rows| && |rows| == i
      invariant forall k | 0 <= k < i :: rows[k] == CorrectionRow(df.columns, df.rows[k])
    {
      rows := rows + [CorrectionRow(df.columns, df.rows[i])];
      i := i + 1;
    }
  }

  /** `analyze_and_correct_errors`, on the table read from the findings file. */
  method AnalyzeAndCorrectErrors(df: Table) returns (r: CorrectionOutcome)
    requires WellFormed(df)
    ensures r == CorrectionOf(df)
  {
    var missing := FindMissing(RequiredColumns, df.columns);
    if missing != [] {
      return Missing(missing);
    }
    var rows := CorrectRows(df);
    if rows == [] {
      return NoRows;
    }
    return Corrected(Table(CorrectionColumns, rows), Changes(rows, 1, 2), Changes(rows, 3, 4));
  }

  /** A table with rows and all five required columns is corrected row for row. */
  lemma AcceptsTableWithColumns(t: Table)
    requires WellFormed(t) && |t.rows| > 0 && forall c | c in RequiredColumns :: c in t.columns
    ensures CorrectionOf(t).Corrected? && |CorrectionOf(t).table.rows| == |t.rows|
  {
  }

  /** The step gives up exactly when one of the five required columns is absent. */
  lemma MissingIffAbsent(df: Table)
    requires WellFormed(df)
    ensures CorrectionOf(df).Missing? <==> exists c | c in RequiredColumns :: c !in df.columns
    ensures CorrectionOf(df).Missing? ==>
              forall c :: c in CorrectionOf(df).columns <==> c in RequiredColumns && c !in df.columns
  {
    var ms := MissingColumns(RequiredColumns, df.columns);
    if ms != [] {
      assert ms[0] in ms;
    }
    if exists c | c in RequiredColumns :: c !in df.columns {
      var c :| c in RequiredColumns && c !in df.columns;
      assert c in ms;
      assert ms != [];
    }
  }

  /**
   * The correction table has a row per input row, in input order; its
   * before columns are the input's cells and its after columns their fix.
   */
  lemma CorrectionTableRows(df: Table)
    requires WellFormed(df) && CorrectionOf(df).Corrected?
    ensures var t := CorrectionOf(df).table;
      t.columns == CorrectionColumns && WellFormed(t) && |t.rows| == |df.rows| &&
      forall i | 0 <= i < |df.rows| ::
        var row, cols := df.rows[i], df.columns;
        t.rows[i][0] == CellOr(cols, row, ClientColumn, "") &&
        t.rows[i][1] == CellOr(cols, row, StatusColumn, "") &&
        t.rows[i][3] == CellOr(cols, row, ResultColumn, "") &&
        t.rows[i][5] == CellOr(cols, row, Categorizer.CategoryColumn, "") &&
        t.rows[i][7] == CellOr(cols, row, TranscriptColumn, "") &&
        ValidCorrection(t.rows[i])
  {
    var t := CorrectionOf(df).table;
    forall i | 0 <= i < |df.rows| ensures t.rows[i] == CorrectionRow(df.columns, df.rows[i]) {
    }
    forall i | 0 <= i < |df.rows| ensures ValidCorrection(t.rows[i]) {
      CorrectionRowValid(df.columns, df.rows[i]);
    }
  }

  /** A corrected row has the fix of its own before columns as its after columns. */
  lemma CorrectionRowValid(columns: seq<string>, row: seq<string>)
    requires |row| == |columns|
    ensures ValidCorrection(CorrectionRow(columns, row))
  {
  }

  /** Changes are counted among the rows, so there are never more than rows. */
  lemma {:induction false} ChangesBounded(rows: seq<seq<string>>, before: nat, after: nat)
    requires forall i | 0 <= i < |rows| :: before < |rows[i]| && after < |rows[i]|
    ensures Changes(rows, before, after) <= |rows|
    ensures Changes(rows, before, after) == 0 <==> forall i | 0 <= i < |rows| :: rows[i][before] == rows[i][after]
  {
    if rows != [] {
      var init := rows[..|rows| - 1];
      ChangesBounded(init, before, after);
      if forall i | 0 <= i < |rows| :: rows[i][before] == rows[i][after] {
        assert forall i | 0 <= i < |init| :: init[i][before] == init[i][after] by {
          forall i | 0 <= i < |init| ensures init[i][before] == init[i][after] {
            assert init[i] == rows[i];
          }
        }
      } else {
        var i :| 0 <= i < |rows| && rows[i][before] != rows[i][after];
        if i < |init| {
          assert init[i] == rows[i];
        }
      }
    }
  }

  /**
   * Only rows whose category has a fix can change: neither the changed
   * statuses nor the changed results outnumber them.
   */
  lemma {:induction false} ChangesOnlyForKnownCategories(rows: seq<seq<string>>)
    requires forall i | 0 <= i < |rows| :: |rows[i]| == |CorrectionColumns| && ValidCorrection(rows[i])
    ensures Changes(rows, 1, 2) <= KnownCount(rows)
    ensures Changes(rows, 3, 4) <= KnownCount(rows)
  {
    if rows != [] {
      var init := rows[..|rows| - 1];
      assert forall i | 0 <= i < |init| :: init[i] == rows[i];
      ChangesOnlyForKnownCategories(init);
    }
  }

  /** The counts the step reports obey both bounds. */
  lemma ReportedChanges(df: Table)
    requires WellFormed(df) && CorrectionOf(df).Corrected?
    ensures var c := CorrectionOf(df);
      c.statusChanges <= KnownCount(c.table.rows) <= |df.rows| && c.resultChanges <= KnownCount(c.table.rows)
  {
    var c := CorrectionOf(df);
    CorrectionTableRows(df);
    ChangesOnlyForKnownCategories(c.table.rows);
    KnownCountBounded(c.table.rows);
  }

  lemma {:induction false} KnownCountBounded(rows: seq<seq<string>>)
    requires forall i | 0 <= i < |rows| :: |rows[i]| == |CorrectionColumns|
    ensures KnownCount(rows) <= |rows|
  {
    if rows != [] {
      KnownCountBounded(rows[..|rows| - 1]);
    }
  }

  // ---------------------------------------------------------------------
  // generate_summary_report
  // ---------------------------------------------------------------------

  /** One group of the summary: its category and count, and the first row's before and after status. */
  datatype SummaryRow = SummaryRow(group: Tally.Entry, firstBefore: string, firstAfter: string)

  function Categories(t: Table): (cs: seq<string>)
    requires t.columns == CorrectionColumns && WellFormed(t)
    ensures |cs| == |t.rows| && forall i | 0 <= i < |t.rows| :: cs[i] == t.rows[i][5]
  {
    seq(|t.rows|, i requires 0 <= i < |t.rows| => t.rows[i][5])
  }

  /** `groupby('Тип_ошибки').agg(count, first, first)`, groups in order of first appearance. */
  function SummaryReport(t: Table): seq<SummaryRow>
    requires t.columns == CorrectionColumns && WellFormed(t)
  {
    var cs := Categories(t);
    var keys := Tally.Distinct(cs);
    Tally.DistinctIsSet(cs);
    seq(|keys|, g requires 0 <= g < |keys| =>
      var i := Tally.PositionOf(cs, keys[g]);
      SummaryRow(Tally.Entry(keys[g], Tally.Count(cs, keys[g])), t.rows[i][1], t.rows[i][2]))
  }

  /**
   * The summary has one group per category present, each category once; a
   * group counts the rows of its category and shows the before and after
   * status of the first of them; the counts add up to the number of rows.
   */
  lemma SummaryCountsAddUp(t: Table)
    requires t.columns == CorrectionColumns && WellFormed(t)
    ensures var s := SummaryReport(t);
      (forall c :: (exists g | 0 <= g < |s| :: s[g].group.key == c) <==> c in Categories(t)) &&
      (forall g, h | 0 <= g < h < |s| :: s[g].group.key != s[h].group.key) &&
      (forall g | 0 <= g < |s| :: s[g].group.count == Tally.Count(Categories(t), s[g].group.key) &&
         exists i | 0 <= i < |t.rows| :: t.rows[i][5] == s[g].group.key &&
           (forall j | 0 <= j < i :: t.rows[j][5] != s[g].group.key) &&
           s[g].firstBefore == t.rows[i][1] && s[g].firstAfter == t.rows[i][2]) &&
      Tally.Total(seq(|s|, g requires 0 <= g < |s| => s[g].group)) == |t.rows|
  {
    var cs := Categories(t);
    var keys := Tally.Distinct(cs);
    var s := SummaryReport(t);
    Tally.DistinctIsSet(cs);
    forall c | c in cs ensures exists g | 0 <= g < |s| :: s[g].group.key == c {
      assert c in keys;
      var g :| 0 <= g < |keys| && keys[g] == c;
      assert s[g].group.key == c;
    }
    forall g | 0 <= g < |s|
      ensures exists i | 0 <= i < |t.rows| :: t.rows[i][5] == s[g].group.key &&
                (forall j | 0 <= j < i :: t.rows[j][5] != s[g].group.key) &&
                s[g].firstBefore == t.rows[i][1] && s[g].firstAfter == t.rows[i][2]
    {
      var i := Tally.PositionOf(cs, keys[g]);
      assert t.rows[i][5] == s[g].group.key;
    }
    assert seq(|s|, g requires 0 <= g < |s| => s[g].group) == Tally.EntriesFor(keys, cs);
    Tally.TotalOfEntries(keys, cs);
    Tally.SumOfDistinctCounts(cs);
  }

  // ---------------------------------------------------------------------
  // create_corrected_dialogs_file
  // ---------------------------------------------------------------------

  const CorrectedStatusColumn := "Верный статус"

  /** `dict(zip(ids, statuses))`: for an id listed twice, the later status wins. */
  function StatusById(ids: seq<string>, statuses: seq<string>): map<string, string>
    requires |ids| == |statuses|
  {
    if ids == [] then map[]
    else StatusById(ids[..|ids| - 1], statuses[..|ids| - 1])[ids[|ids| - 1] := statuses[|ids| - 1]]
  }

  /** The position of the last occurrence of x in xs. */
  predicate LastAt(xs: seq<string>, x: string, j: int)
  {
    0 <= j < |xs| && xs[j] == x && forall l | j < l < |xs| :: xs[l] != x
  }

  /** The dictionary holds every listed id, mapped to the status beside its last listing. */
  lemma {:induction false} StatusByIdSpec(ids: seq<string>, statuses: seq<string>)
    requires |ids| == |statuses|
    ensures forall id :: id in StatusById(ids, statuses) <==> id in ids
    ensures forall id | id in ids :: exists j :: LastAt(ids, id, j) && StatusById(ids, statuses)[id] == statuses[j]
  {
    if ids != [] {
      var n := |ids| - 1;
      var ids', statuses' := ids[..n], statuses[..n];
      StatusByIdSpec(ids', statuses');
      assert ids == ids' + [ids[n]];
      forall id | id in ids ensures exists j :: LastAt(ids, id, j) && StatusById(ids, statuses)[id] == statuses[j] {
        if id == ids[n] {
          assert LastAt(ids, id, n);
        } else {
          assert id in ids';
          var j :| LastAt(ids', id, j) && StatusById(ids', statuses')[id] == statuses'[j];
          assert LastAt(ids, id, j);
        }
      }
    }
  }

  /** A row of the original table with its corrected status, or "" when its id has none. */
  function OverlaidRow(columns: seq<string>, row: seq<string>, byId: map<string, string>): seq<string>
    requires |row| == |columns|
  {
    var id := CellOr(columns, row, ClientColumn, "");
    SetCell(columns, row, CorrectedStatusColumn, if id in byId then byId[id] else "")
  }

  /**
   * `create_corrected_dialogs_file`: the original calls with a column of
   * corrected statuses; None when the original table has no client column.
   */
  function CorrectedDialogs(corrections: Table, original: Table): Option<Table>
    requires WellFormed(corrections) && WellFormed(original)
    requires ClientColumn in corrections.columns && AfterStatus in corrections.columns
  {
    if ClientColumn !in original.columns then None
    else
      var byId := StatusById(ColumnValues(corrections, ClientColumn), ColumnValues(corrections, AfterStatus));
      Some(Table(WithColumn(original.columns, CorrectedStatusColumn),
                 seq(|original.rows|, i requires 0 <= i < |original.rows| =>
                   OverlaidRow(original.columns, original.rows[i], byId))))
  }

  method CreateCorrectedDialogs(corrections: Table, original: Table) returns (r: Option<Table>)
    requires WellFormed(corrections) && WellFormed(original)
    requires ClientColumn in corrections.columns && AfterStatus in corrections.columns
    ensures r == CorrectedDialogs(corrections, original)
  {
    if ClientColumn !in original.columns {
      return None;
    }
    var ids := ColumnValues(corrections, ClientColumn);
    var statuses := ColumnValues(corrections, AfterStatus);
    var byId: map<string, string> := map[];
    var j := 0;
    while j < |ids|
      invariant 0 <= j <= |ids|
      invariant byId == StatusById(ids[..j], statuses[..j])
    {
      assert ids[..j + 1][..j] == ids[..j] && statuses[..j + 1][..j] == statuses[..j];
      byId := byId[ids[j] := statuses[j]];
      j := j + 1;
    }
    assert ids[..j] == ids && statuses[..j] == statuses;
    var rows: seq<seq<string>> := [];
    var i := 0;
    while i < |original.rows|
      invariant 0 <= i <= |original.rows| && |rows| == i
      invariant forall k | 0 <= k < i :: rows[k] == OverlaidRow(original.columns, original.rows[k], byId)
    {
      rows := rows + [OverlaidRow(original.columns, original.rows[i], byId)];
      i := i + 1;
    }
    assert rows == seq(|original.rows|, i requires 0 <= i < |original.rows| =>
                         OverlaidRow(original.columns, original.rows[i], byId));
    return Some(Table(WithColumn(original.columns, CorrectedStatusColumn), rows));
  }

  /**
   * The overlay keeps every row and every other cell; a call's corrected
   * status is the one of the last correction listing its id, or "" when no
   * correction lists it.
   */
  lemma OverlaySpec(corrections: Table, original: Table)
    requires WellFormed(corrections) && WellFormed(original)
    requires ClientColumn in corrections.columns && AfterStatus in corrections.columns
    requires ClientColumn in original.columns
    ensures var r := CorrectedDialogs(corrections, original).value;
      var ids := ColumnValues(corrections, ClientColumn);
      var statuses := ColumnValues(corrections, AfterStatus);
      WellFormed(r) && |r.rows| == |original.rows| && CorrectedStatusColumn in r.columns &&
      (forall i, k | 0 <= i < |original.rows| && 0 <= k < |original.columns| &&
         original.columns[k] != CorrectedStatusColumn :: r.rows[i][k] == original.rows[i][k]) &&
      forall i | 0 <= i < |original.rows| ::
        var id := CellOr(original.columns, original.rows[i], ClientColumn, "");
        var cell := CellOr(r.columns, r.rows[i], CorrectedStatusColumn, "");
        (id !in ids ==> cell == "") &&
        (id in ids ==> exists j :: LastAt(ids, id, j) && cell == statuses[j])
  {
    var ids := ColumnValues(corrections, ClientColumn);
    var statuses := ColumnValues(corrections, AfterStatus);
    StatusByIdSpec(ids, statuses);
  }
}

/**
 * How the stages of `main` fit together: the findings table the first pass
 * writes is the table the correction step reads back.
 */
module Pipeline {
  import opened Frame
  import opened FirstPass
  import Categorizer
  import Correction

  /** The findings table carries every column the correction step requires. */
  lemma FindingsColumnsSuffice()
    ensures forall c | c in Correction.RequiredColumns :: c in ConfirmedColumns + [Categorizer.CategoryColumn]
  {
    var cs := ConfirmedColumns + [Categorizer.CategoryColumn];
    assert Correction.RequiredColumns == [cs[0], cs[1], cs[2], cs[3], cs[5]];
  }

  /**
   * Whenever the first pass flags at least one call, the correction step
   * accepts its findings table and corrects every finding in it.
   */
  lemma FindingsAreCorrectable(df: Table)
    requires WellFormed(df) && FirstPassResult(df).Some? && |FirstPassResult(df).value.0.rows| > 0
    ensures var c := FirstPassResult(df).value.0;
      WellFormed(c) && Correction.CorrectionOf(c).Corrected? &&
      |Correction.CorrectionOf(c).table.rows| == |c.rows|
  {
    var c := FirstPassResult(df).value.0;
    FirstPassTables(df);
    FindingsColumnsSuffice();
    Correction.AcceptsTableWithColumns(c);
  }
}
