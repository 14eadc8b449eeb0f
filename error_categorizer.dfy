/**
 * The category classifier: maps the reason text of a finding, which may
 * name several reasons joined by " | ", to one of six category labels by a
 * fixed first-match priority, and adds the label to every finding.
 */
module Categorizer {
  import opened Text
  import opened Frame
  import Tally

  // The six category labels; each is also the reason text the analyzer emits.
  const WrongPerson := "Неправильный собеседник"
  const CommunicationBreakdown := "Серьезные проблемы коммуникации"
  const FalsePositiveChurn := "Ложный отток (клиент соглашается)"
  const UncertainChurn := "Неопределенность при оттоке"
  const IgnoredQuestions := "Игнорирование критических вопросов"
  const FalseNegativeChurn := "Клиент отказывается, но статус не отток"

  /** The labels in the order the classifier tests for them. */
  const Priority: seq<string> :=
    [WrongPerson, FalsePositiveChurn, FalseNegativeChurn, UncertainChurn, CommunicationBreakdown, IgnoredQuestions]

  /** The separator between several reasons of one finding. */
  const Separator := " | "

  const ReasonColumn := "Причина ошибки"
  const CategoryColumn := "Категория ошибки"

  predicate IsCategory(c: string)
  {
    c in Priority
  }

  /** `reason.split(' | ')[0]`: the text before the first separator, or all of it. */
  function FirstSegment(reason: string): (r: string)
    ensures StartsWith(reason, r)
    ensures !Contains(r, Separator)
    ensures Contains(reason, Separator) ==> |r| < |reason|
    ensures !Contains(reason, Separator) ==> r == reason
  {
    match FindFrom(reason, Separator, 0)
    case Some(k) =>
      PrefixBeforeFirst(reason, Separator, k);
      reason[..k]
    case None =>
      assert reason[..|reason|] == reason;
      reason
  }

  /** A prefix that ends before the first occurrence of t holds no occurrence of t. */
  lemma PrefixBeforeFirst(s: string, t: string, k: nat)
    requires k <= |s| && |t| > 0
    requires forall j | 0 <= j < k :: !OccursAt(s, t, j)
    ensures !Contains(s[..k], t)
  {
    forall j | 0 <= j <= k - |t| ensures !OccursAt(s[..k], t, j) {
      assert s[..k][j..j + |t|] == s[j..j + |t|];
      assert !OccursAt(s, t, j);
    }
  }

  /** `_determine_category` on the reason text of one finding. */
  function DetermineCategory(reason: string): (c: string)
    ensures IsCategory(c) ==> Contains(reason, c)
    ensures !IsCategory(c) ==> c == FirstSegment(reason)
  {
    if Contains(reason, WrongPerson) then WrongPerson
    else if Contains(reason, FalsePositiveChurn) then FalsePositiveChurn
    else if Contains(reason, FalseNegativeChurn) then FalseNegativeChurn
    else if Contains(reason, UncertainChurn) then UncertainChurn
    else if Contains(reason, CommunicationBreakdown) then CommunicationBreakdown
    else if Contains(reason, IgnoredQuestions) then IgnoredQuestions
    else
      var head := FirstSegment(reason);
      assert OccursAt(reason, head, 0);
      head
  }

  /** The position in `order` of the first label that rs holds. */
  function FirstListed(order: seq<string>, rs: seq<string>): (k: nat)
    requires exists k | 0 <= k < |order| :: order[k] in rs
    ensures k < |order| && order[k] in rs
    ensures forall j | 0 <= j < k :: order[j] !in rs
  {
    if order[0] in rs then 0
    else
      var k :| 0 <= k < |order| && order[k] in rs;
      assert order[1..][k - 1] in rs;
      1 + FirstListed(order[1..], rs)
  }

  /**
   * The label mentioned in the reason that comes first by priority wins,
   * whatever other labels the reason mentions.
   */
  lemma CategoryByPriority(reason: string, k: int)
    requires 0 <= k < |Priority| && Contains(reason, Priority[k])
    requires forall j | 0 <= j < k :: !Contains(reason, Priority[j])
    ensures DetermineCategory(reason) == Priority[k]
  {
    PriorityLabels();
    assert k > 0 ==> !Contains(reason, WrongPerson);
    assert k > 1 ==> !Contains(reason, FalsePositiveChurn);
    assert k > 2 ==> !Contains(reason, FalseNegativeChurn);
    assert k > 3 ==> !Contains(reason, UncertainChurn);
    assert k > 4 ==> !Contains(reason, CommunicationBreakdown);
  }

  /** The priority order, label by label. */
  lemma PriorityLabels()
    ensures Priority[0] == WrongPerson && Priority[1] == FalsePositiveChurn && Priority[2] == FalseNegativeChurn
    ensures Priority[3] == UncertainChurn && Priority[4] == CommunicationBreakdown && Priority[5] == IgnoredQuestions
  {
  }

  /** Without any known label the category is the text before the first separator. */
  lemma CategoryFallback(reason: string)
    requires forall k | 0 <= k < |Priority| :: !Contains(reason, Priority[k])
    ensures DetermineCategory(reason) == FirstSegment(reason)
    ensures !IsCategory(DetermineCategory(reason)) || Contains(reason, DetermineCategory(reason))
  {
  }

  /** A finding without a reason column, whose reason reads as "", gets category "". */
  lemma MissingReasonHasEmptyCategory()
    ensures DetermineCategory("") == ""
  {
    assert !Contains("", Separator);
  }

  // ---------------------------------------------------------------------
  // How the labels relate to one another. Each letter fact about a label
  // sits in a lemma of its own: the solver settles one such fact about a
  // long literal quickly, several at once slowly. Letter names are those
  // of the Cyrillic alphabet.
  // ---------------------------------------------------------------------

  lemma Initials()
    ensures WrongPerson[0] == 'Н' && FalsePositiveChurn[0] == 'Л' && FalseNegativeChurn[0] == 'К'
    ensures UncertainChurn[0] == 'Н' && CommunicationBreakdown[0] == 'С' && IgnoredQuestions[0] == 'И'
  {
  }

  /** No label starts or ends with a space. */
  lemma Edges()
    ensures WrongPerson[|WrongPerson| - 1] != ' ' && FalsePositiveChurn[|FalsePositiveChurn| - 1] != ' '
    ensures FalseNegativeChurn[|FalseNegativeChurn| - 1] != ' ' && UncertainChurn[|UncertainChurn| - 1] != ' '
    ensures CommunicationBreakdown[|CommunicationBreakdown| - 1] != ' '
    ensures IgnoredQuestions[|IgnoredQuestions| - 1] != ' '
  {
  }

  lemma WrongPersonLacksBar()
    ensures '|' !in WrongPerson
  {
  }

  lemma FalsePositiveLacksBar()
    ensures '|' !in FalsePositiveChurn
  {
  }

  lemma FalseNegativeLacksBar()
    ensures '|' !in FalseNegativeChurn
  {
  }

  lemma UncertainLacksBar()
    ensures '|' !in UncertainChurn
  {
  }

  lemma CommunicationLacksBar()
    ensures '|' !in CommunicationBreakdown
  {
  }

  lemma IgnoredLacksBar()
    ensures '|' !in IgnoredQuestions
  {
  }

  /** Every label is non-empty, holds no `|`, and neither starts nor ends with a space. */
  lemma LabelShape(k: int)
    requires 0 <= k < |Priority|
    ensures Unbroken(Priority[k])
  {
    Initials();
    Edges();
    if k == 0 {
      WrongPersonLacksBar();
    } else if k == 1 {
      FalsePositiveLacksBar();
    } else if k == 2 {
      FalseNegativeLacksBar();
    } else if k == 3 {
      UncertainLacksBar();
    } else if k == 4 {
      CommunicationLacksBar();
    } else {
      IgnoredLacksBar();
    }
  }

  // Each label that is longer than another lacks one of the other's letters,
  // and so does not hold it; a label never holds a longer one.

  lemma FalsePositiveHoldsNoWrongPerson()
    ensures !Contains(FalsePositiveChurn, WrongPerson)
  {
    assert WrongPerson[0] == 'Н';
    NotContainsByChar(FalsePositiveChurn, WrongPerson, 'Н');
  }

  lemma FalsePositiveHoldsNoUncertain()
    ensures !Contains(FalsePositiveChurn, UncertainChurn)
  {
    assert UncertainChurn[0] == 'Н';
    NotContainsByChar(FalsePositiveChurn, UncertainChurn, 'Н');
  }

  lemma FalsePositiveHoldsNoCommunication()
    ensures !Contains(FalsePositiveChurn, CommunicationBreakdown)
  {
    assert CommunicationBreakdown[0] == 'С';
    NotContainsByChar(FalsePositiveChurn, CommunicationBreakdown, 'С');
  }

  lemma FalseNegativeHoldsNoWrongPerson()
    ensures !Contains(FalseNegativeChurn, WrongPerson)
  {
    assert WrongPerson[0] == 'Н';
    NotContainsByChar(FalseNegativeChurn, WrongPerson, 'Н');
  }

  lemma FalseNegativeHoldsNoFalsePositive()
    ensures !Contains(FalseNegativeChurn, FalsePositiveChurn)
  {
    assert FalsePositiveChurn[0] == 'Л';
    NotContainsByChar(FalseNegativeChurn, FalsePositiveChurn, 'Л');
  }

  lemma FalseNegativeHoldsNoUncertain()
    ensures !Contains(FalseNegativeChurn, UncertainChurn)
  {
    assert UncertainChurn[0] == 'Н';
    NotContainsByChar(FalseNegativeChurn, UncertainChurn, 'Н');
  }

  lemma FalseNegativeHoldsNoCommunication()
    ensures !Contains(FalseNegativeChurn, CommunicationBreakdown)
  {
    assert CommunicationBreakdown[0] == 'С';
    NotContainsByChar(FalseNegativeChurn, CommunicationBreakdown, 'С');
  }

  lemma FalseNegativeHoldsNoIgnored()
    ensures !Contains(FalseNegativeChurn, IgnoredQuestions)
  {
    assert IgnoredQuestions[0] == 'И';
    NotContainsByChar(FalseNegativeChurn, IgnoredQuestions, 'И');
  }

  lemma UncertainHoldsNoWrongPerson()
    ensures !Contains(UncertainChurn, WrongPerson)
  {
    assert WrongPerson[4] == 'а';
    NotContainsByChar(UncertainChurn, WrongPerson, 'а');
  }

  lemma CommunicationHoldsNoWrongPerson()
    ensures !Contains(CommunicationBreakdown, WrongPerson)
  {
    assert WrongPerson[0] == 'Н';
    NotContainsByChar(CommunicationBreakdown, WrongPerson, 'Н');
  }

  lemma CommunicationHoldsNoUncertain()
    ensures !Contains(CommunicationBreakdown, UncertainChurn)
  {
    assert UncertainChurn[0] == 'Н';
    NotContainsByChar(CommunicationBreakdown, UncertainChurn, 'Н');
  }

  lemma IgnoredHoldsNoWrongPerson()
    ensures !Contains(IgnoredQuestions, WrongPerson)
  {
    assert WrongPerson[0] == 'Н';
    NotContainsByChar(IgnoredQuestions, WrongPerson, 'Н');
  }

  lemma IgnoredHoldsNoUncertain()
    ensures !Contains(IgnoredQuestions, UncertainChurn)
  {
    assert UncertainChurn[0] == 'Н';
    NotContainsByChar(IgnoredQuestions, UncertainChurn, 'Н');
  }

  lemma IgnoredHoldsNoCommunication()
    ensures !Contains(IgnoredQuestions, CommunicationBreakdown)
  {
    assert CommunicationBreakdown[0] == 'С';
    NotContainsByChar(IgnoredQuestions, CommunicationBreakdown, 'С');
  }

  lemma IgnoredHoldsNoFalsePositive()
    ensures !Contains(IgnoredQuestions, FalsePositiveChurn)
  {
    assert FalsePositiveChurn[0] == 'Л';
    NotContainsByChar(IgnoredQuestions, FalsePositiveChurn, 'Л');
  }

  /** The labels a label does not hold: all but itself. */
  lemma WrongPersonHoldsNone()
    ensures forall j | 0 <= j < |Priority| && j != 0 :: !Contains(WrongPerson, Priority[j])
  {
  }

  lemma FalsePositiveHoldsNone()
    ensures forall j | 0 <= j < |Priority| && j != 1 :: !Contains(FalsePositiveChurn, Priority[j])
  {
    FalsePositiveHoldsNoWrongPerson();
    FalsePositiveHoldsNoUncertain();
    FalsePositiveHoldsNoCommunication();
  }

  lemma FalseNegativeHoldsNone()
    ensures forall j | 0 <= j < |Priority| && j != 2 :: !Contains(FalseNegativeChurn, Priority[j])
  {
    FalseNegativeHoldsNoWrongPerson();
    FalseNegativeHoldsNoFalsePositive();
    FalseNegativeHoldsNoUncertain();
    FalseNegativeHoldsNoCommunication();
    FalseNegativeHoldsNoIgnored();
  }

  lemma UncertainHoldsNone()
    ensures forall j | 0 <= j < |Priority| && j != 3 :: !Contains(UncertainChurn, Priority[j])
  {
    UncertainHoldsNoWrongPerson();
  }

  lemma CommunicationHoldsNone()
    ensures forall j | 0 <= j < |Priority| && j != 4 :: !Contains(CommunicationBreakdown, Priority[j])
  {
    CommunicationHoldsNoWrongPerson();
    CommunicationHoldsNoUncertain();
  }

  lemma IgnoredHoldsNone()
    ensures forall j | 0 <= j < |Priority| && j != 5 :: !Contains(IgnoredQuestions, Priority[j])
  {
    IgnoredHoldsNoWrongPerson();
    IgnoredHoldsNoUncertain();
    IgnoredHoldsNoCommunication();
    IgnoredHoldsNoFalsePositive();
  }

  /** No label holds another one. */
  lemma LabelsApart(i: int, j: int)
    requires 0 <= i < |Priority| && 0 <= j < |Priority| && i != j
    ensures !Contains(Priority[i], Priority[j])
  {
    if i == 0 {
      WrongPersonHoldsNone();
    } else if i == 1 {
      FalsePositiveHoldsNone();
    } else if i == 2 {
      FalseNegativeHoldsNone();
    } else if i == 3 {
      UncertainHoldsNone();
    } else if i == 4 {
      CommunicationHoldsNone();
    } else {
      IgnoredHoldsNone();
    }
  }

  /** Every label classifies as itself. */
  lemma LabelsClassifyAsThemselves(k: int)
    requires 0 <= k < |Priority|
    ensures DetermineCategory(Priority[k]) == Priority[k]
  {
    forall j | 0 <= j < k ensures !Contains(Priority[k], Priority[j]) {
      LabelsApart(k, j);
    }
    ContainsAt(Priority[k], Priority[k], 0);
    CategoryByPriority(Priority[k], k);
  }

  /** The labels are unbroken and none holds another. */
  lemma LabelsSeparable()
    ensures forall i, j | 0 <= i < |Priority| && 0 <= j < |Priority| && i != j :: !Contains(Priority[i], Priority[j])
    ensures forall j | 0 <= j < |Priority| :: Unbroken(Priority[j])
  {
    forall i, j | 0 <= i < |Priority| && 0 <= j < |Priority| && i != j
      ensures !Contains(Priority[i], Priority[j])
    {
      LabelsApart(i, j);
    }
    forall j | 0 <= j < |Priority| ensures Unbroken(Priority[j]) {
      LabelShape(j);
    }
  }

  /**
   * When every reason is a label, the reasons joined by the separator
   * classify as the label among them that comes first by priority, however
   * many others follow or precede it.
   */
  lemma JoinedLabelsCategory(rs: seq<string>)
    requires |rs| > 0 && forall m | 0 <= m < |rs| :: IsCategory(rs[m])
    ensures exists k | 0 <= k < |Priority| :: Priority[k] in rs
    ensures DetermineCategory(JoinWith(rs, Separator)) == Priority[FirstListed(Priority, rs)]
  {
    SomeLabelListed(rs);
    var k := FirstListed(Priority, rs);
    JoinedLabelsHold(rs, k);
    CategoryByPriority(JoinWith(rs, Separator), k);
  }

  lemma SomeLabelListed(rs: seq<string>)
    requires |rs| > 0 && IsCategory(rs[0])
    ensures exists k | 0 <= k < |Priority| :: Priority[k] in rs
  {
    var k := Tally.PositionOf(Priority, rs[0]);
    assert Priority[k] in rs;
  }

  /** The joined labels hold the first one listed by priority and none before it. */
  lemma JoinedLabelsHold(rs: seq<string>, k: nat)
    requires forall m | 0 <= m < |rs| :: IsCategory(rs[m])
    requires k < |Priority| && Priority[k] in rs && forall j | 0 <= j < k :: Priority[j] !in rs
    ensures Contains(JoinWith(rs, Separator), Priority[k])
    ensures forall j | 0 <= j < k :: !Contains(JoinWith(rs, Separator), Priority[j])
  {
    LabelsSeparable();
    FirstListedInJoin(Priority, rs, k);
  }

  /**
   * Of texts that are unbroken and pairwise apart, the join of some of them
   * holds exactly those it joins: in particular the first one listed in
   * `order`, and none listed before it.
   */
  lemma FirstListedInJoin(order: seq<string>, rs: seq<string>, k: nat)
    requires forall i, j | 0 <= i < |order| && 0 <= j < |order| && i != j :: !Contains(order[i], order[j])
    requires forall j | 0 <= j < |order| :: Unbroken(order[j])
    requires forall m | 0 <= m < |rs| :: rs[m] in order
    requires k < |order| && order[k] in rs && forall j | 0 <= j < k :: order[j] !in rs
    ensures Contains(JoinWith(rs, Separator), order[k])
    ensures forall j | 0 <= j < k :: !Contains(JoinWith(rs, Separator), order[j])
  {
    var m0 :| 0 <= m0 < |rs| && rs[m0] == order[k];
    JoinContainsParts(rs, Separator, m0);
    forall j | 0 <= j < k ensures !Contains(JoinWith(rs, Separator), order[j]) {
      forall m | 0 <= m < |rs| ensures !Contains(rs[m], order[j]) {
        var i := Tally.PositionOf(order, rs[m]);
        assert rs[m] in rs;
      }
      JoinOccurrenceInPart(rs, order[j]);
    }
  }

  // ---------------------------------------------------------------------
  // categorize_errors
  // ---------------------------------------------------------------------

  /** The category of one finding row; a missing reason column reads as "". */
  function CategoryOf(columns: seq<string>, row: seq<string>): string
    requires |row| == |columns|
  {
    DetermineCategory(CellOr(columns, row, ReasonColumn, ""))
  }

  /** The findings table with a category column: empty tables are left as they are. */
  function Categorized(t: Table): (r: Table)
    requires WellFormed(t)
  {
    if |t.rows| == 0 then t
    else Table(WithColumn(t.columns, CategoryColumn),
               seq(|t.rows|, i requires 0 <= i < |t.rows| =>
                 SetCell(t.columns, t.rows[i], CategoryColumn, CategoryOf(t.columns, t.rows[i]))))
  }

  /** `categorize_errors`: copies every row and sets its category. */
  method CategorizeErrors(df: Table) returns (r: Table)
    requires WellFormed(df)
    ensures r == Categorized(df)
    ensures WellFormed(r)
    ensures |df.rows| == 0 ==> r == df
    ensures |df.rows| > 0 ==> CategoryColumn in r.columns && r.columns[..|df.columns|] == df.columns
    ensures |r.rows| == |df.rows|
    ensures forall i, k | 0 <= i < |df.rows| && 0 <= k < |df.columns| && df.columns[k] != CategoryColumn ::
              r.rows[i][k] == df.rows[i][k]
    ensures |df.rows| > 0 ==>
              forall i, k | 0 <= i < |r.rows| && 0 <= k < |r.columns| && r.columns[k] == CategoryColumn ::
                r.rows[i][k] == CategoryOf(df.columns, df.rows[i])
  {
    if |df.rows| == 0 {
      return df;
    }
    var categorizedRows: seq<seq<string>> := [];
    var i := 0;
    while i < |df.rows|
      invariant 0 <= i <= |df.rows|
      invariant |categorizedRows| == i
      invariant forall j | 0 <= j < i ::
                  categorizedRows[j] == SetCell(df.columns, df.rows[j], CategoryColumn, CategoryOf(df.columns, df.rows[j]))
    {
      var category := CategoryOf(df.columns, df.rows[i]);
      categorizedRows := categorizedRows + [SetCell(df.columns, df.rows[i], CategoryColumn, category)];
      i := i + 1;
    }
    r := Table(WithColumn(df.columns, CategoryColumn), categorizedRows);
  }

  // ---------------------------------------------------------------------
  // The counts of _print_category_statistics
  // ---------------------------------------------------------------------

  /** The number of findings and the findings per category, most frequent first. */
  function CategoryStatistics(t: Table): (nat, seq<Tally.Entry>)
    requires WellFormed(t) && CategoryColumn in t.columns
  {
    (|t.rows|, Tally.ValueCounts(ColumnValues(t, CategoryColumn)))
  }

  /** The per-category counts add up to the number of findings, and each is exact. */
  lemma CategoryCountsAddUp(t: Table)
    requires WellFormed(t) && CategoryColumn in t.columns
    ensures Tally.Total(CategoryStatistics(t).1) == CategoryStatistics(t).0 == |t.rows|
    ensures forall e | e in CategoryStatistics(t).1 ::
              e.count == Tally.Count(ColumnValues(t, CategoryColumn), e.key) && e.count > 0
    ensures Tally.DistinctLabels(CategoryStatistics(t).1)
  {
    var vs := ColumnValues(t, CategoryColumn);
    Tally.ValueCountsSpec(vs);
    forall e | e in CategoryStatistics(t).1 ensures e.count > 0 {
      CountPositive(vs, e.key);
    }
  }

  lemma {:induction false} CountPositive(xs: seq<string>, x: string)
    requires x in xs
    ensures Tally.Count(xs, x) > 0
  {
    if xs[|xs| - 1] != x {
      assert x in xs[..|xs| - 1];
      CountPositive(xs[..|xs| - 1], x);
    }
  }
}
