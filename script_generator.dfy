/**
 * The preparation of recommendations from the findings table: a short
 * excerpt of each example dialog, up to two examples per category, one
 * solution per category in the order of `value_counts`, and a generator that
 * produces its recommendations only once.
 */
module Scripts {
  import opened Text
  import opened Frame
  import Tally
  import Categorizer

  const TranscriptColumn := "call_transcript"

  // ---------------------------------------------------------------------
  // _extract_dialog_excerpt
  // ---------------------------------------------------------------------

  /** `[p.strip() for p in parts if p.strip()]` */
  function StrippedLines(parts: seq<string>): (lines: seq<string>)
    ensures |lines| <= |parts|
    ensures forall m | 0 <= m < |lines| :: lines[m] != [] && Trimmed(lines[m])
  {
    if parts == [] then []
    else
      var s := Strip(parts[|parts| - 1]);
      StripIsTrimmed(parts[|parts| - 1]);
      StrippedLines(parts[..|parts| - 1]) + (if s != [] then [s] else [])
  }

  /** line is one of the pieces, stripped. */
  predicate StripOfSome(parts: seq<string>, line: string)
  {
    exists k | 0 <= k < |parts| :: line == Strip(parts[k])
  }

  /** The positions of the pieces that are not blank once stripped, in increasing order. */
  function NonBlankPositions(parts: seq<string>): (ix: seq<int>)
    ensures forall m | 0 <= m < |ix| :: 0 <= ix[m] < |parts| && Strip(parts[ix[m]]) != []
    ensures forall k | 0 <= k < |parts| && Strip(parts[k]) != [] :: k in ix
    ensures forall m, m' | 0 <= m < m' < |ix| :: ix[m] < ix[m']
  {
    if parts == [] then []
    else
      var n := |parts| - 1;
      NonBlankPositions(parts[..n]) + (if Strip(parts[n]) != [] then [n] else [])
  }

  /**
   * The lines are the non-blank pieces, stripped, one per piece and in the
   * order of the pieces.
   */
  lemma {:induction false} StrippedLinesInOrder(parts: seq<string>)
    ensures |StrippedLines(parts)| == |NonBlankPositions(parts)|
    ensures forall m | 0 <= m < |NonBlankPositions(parts)| ::
              StrippedLines(parts)[m] == Strip(parts[NonBlankPositions(parts)[m]])
  {
    if parts != [] {
      var init := parts[..|parts| - 1];
      StrippedLinesInOrder(init);
      var lines, ix := StrippedLines(parts), NonBlankPositions(parts);
      var li, ii := StrippedLines(init), NonBlankPositions(init);
      var last := Strip(parts[|parts| - 1]);
      assert lines == li + (if last != [] then [last] else []);
      assert ix == ii + (if last != [] then [|parts| - 1] else []);
      forall m | 0 <= m < |ix| ensures lines[m] == Strip(parts[ix[m]]) {
        if m < |ii| {
          assert lines[m] == li[m] == Strip(init[ii[m]]);
          assert init[ii[m]] == parts[ii[m]];
        }
      }
    }
  }

  /** Every line is the stripped form of a piece, and no stripped piece that is not empty is lost. */
  lemma {:induction false} StrippedLinesSpec(parts: seq<string>)
    ensures forall m | 0 <= m < |StrippedLines(parts)| :: StripOfSome(parts, StrippedLines(parts)[m])
    ensures forall k | 0 <= k < |parts| && Strip(parts[k]) != [] :: Strip(parts[k]) in StrippedLines(parts)
  {
    if parts != [] {
      var init := parts[..|parts| - 1];
      StrippedLinesSpec(init);
      var lines := StrippedLines(parts);
      var last := Strip(parts[|parts| - 1]);
      assert lines == StrippedLines(init) + (if last != [] then [last] else []);
      forall m | 0 <= m < |lines| ensures StripOfSome(parts, lines[m]) {
        if m < |StrippedLines(init)| {
          assert StripOfSome(init, StrippedLines(init)[m]);
          var k :| 0 <= k < |init| && StrippedLines(init)[m] == Strip(init[k]);
          assert init[k] == parts[k];
          assert lines[m] == Strip(parts[k]);
        } else {
          assert lines[m] == Strip(parts[|parts| - 1]);
        }
      }
      forall k | 0 <= k < |parts| && Strip(parts[k]) != [] ensures Strip(parts[k]) in lines {
        if k < |init| {
          assert init[k] == parts[k];
        }
      }
    }
  }

  /** The longest transcript kept whole when it has fewer than two replicas. */
  const ExcerptLimit := 200

  /**
   * `_extract_dialog_excerpt`: the last two replicas on separate lines, or,
   * for a transcript with fewer than two, its first 200 characters and "...".
   */
  function Excerpt(transcript: string): string
  {
    var lines := StrippedLines(Split(transcript, ';'));
    if |lines| >= 2 then JoinWith(lines[|lines| - 2..], "\n")
    else if |transcript| > ExcerptLimit then transcript[..ExcerptLimit] + "..."
    else transcript
  }

  /** With two replicas or more, the excerpt is the last two, trimmed, on two lines. */
  lemma ExcerptOfDialog(transcript: string)
    requires |StrippedLines(Split(transcript, ';'))| >= 2
    ensures var lines := StrippedLines(Split(transcript, ';'));
      var a, b := lines[|lines| - 2], lines[|lines| - 1];
      Excerpt(transcript) == a + "\n" + b && a != [] && b != [] && Trimmed(a) && Trimmed(b) &&
      ';' !in a && ';' !in b
  {
    var parts := Split(transcript, ';');
    var lines := StrippedLines(parts);
    StrippedLinesSpec(parts);
    var tail := lines[|lines| - 2..];
    assert JoinWith(tail[1..], "\n") == tail[1];
    forall m | 0 <= m < |lines| ensures ';' !in lines[m] {
      assert StripOfSome(parts, lines[m]);
      var k :| 0 <= k < |parts| && lines[m] == Strip(parts[k]);
      StripKeepsOut(parts[k], ';');
    }
  }

  /** strip() only removes characters, so it adds none. */
  lemma StripKeepsOut(s: string, c: char)
    requires c !in s
    ensures c !in Strip(s)
  {
    StripLeftSpec(s);
    StripRightSpec(StripLeft(s));
  }

  /** With fewer than two replicas, a long transcript is cut to 200 characters and marked. */
  lemma ExcerptOfShortDialog(transcript: string)
    requires |StrippedLines(Split(transcript, ';'))| < 2
    ensures |transcript| > ExcerptLimit ==>
              Excerpt(transcript) == transcript[..ExcerptLimit] + "..." && |Excerpt(transcript)| == ExcerptLimit + 3
    ensures |transcript| <= ExcerptLimit ==> Excerpt(transcript) == transcript
  {
  }

  /** The excerpt is empty exactly for an empty transcript. */
  lemma ExcerptEmptyIff(transcript: string)
    ensures Excerpt(transcript) == [] <==> transcript == []
  {
    var lines := StrippedLines(Split(transcript, ';'));
    if transcript == [] {
      assert Split(transcript, ';') == [[]];
      assert Strip([]) == [];
      assert lines == [];
    } else if |lines| >= 2 {
      ExcerptOfDialog(transcript);
    }
  }

  // ---------------------------------------------------------------------
  // _get_category_examples
  // ---------------------------------------------------------------------

  /** The most examples per category the generator asks for. */
  const DefaultMaxExamples := 2

  /** The transcripts of the rows labelled `category`, in row order. */
  function TranscriptsOf(categories: seq<string>, transcripts: seq<string>, category: string): (ts: seq<string>)
    requires |categories| == |transcripts|
    ensures |ts| == Tally.Count(categories, category)
  {
    if categories == [] then []
    else
      var n := |categories| - 1;
      TranscriptsOf(categories[..n], transcripts[..n], category) +
      (if categories[n] == category then [transcripts[n]] else [])
  }

  /** t is the transcript of a row labelled with the category. */
  predicate TranscriptOfCategory(categories: seq<string>, transcripts: seq<string>, category: string, t: string)
  {
    exists i | 0 <= i < |categories| && i < |transcripts| :: categories[i] == category && t == transcripts[i]
  }

  /** The positions of the rows labelled `category`, in increasing order. */
  function RowsLabelled(categories: seq<string>, category: string): (ix: seq<int>)
    ensures forall m | 0 <= m < |ix| :: 0 <= ix[m] < |categories| && categories[ix[m]] == category
    ensures forall i | 0 <= i < |categories| && categories[i] == category :: i in ix
    ensures forall m, m' | 0 <= m < m' < |ix| :: ix[m] < ix[m']
    ensures |ix| == Tally.Count(categories, category)
  {
    if categories == [] then []
    else
      var n := |categories| - 1;
      RowsLabelled(categories[..n], category) + (if categories[n] == category then [n] else [])
  }

  /** The entries of xs at the positions ix, in the order of ix. */
  function At(xs: seq<string>, ix: seq<int>): (ys: seq<string>)
    requires forall m | 0 <= m < |ix| :: 0 <= ix[m] < |xs|
    ensures |ys| == |ix| && forall m | 0 <= m < |ix| :: ys[m] == xs[ix[m]]
  {
    seq(|ix|, m requires 0 <= m < |ix| => xs[ix[m]])
  }

  /**
   * The transcripts picked are those of all the rows labelled with the
   * category, one per row and in row order.
   */
  lemma {:induction false} TranscriptsOfRows(categories: seq<string>, transcripts: seq<string>, category: string)
    requires |categories| == |transcripts|
    ensures TranscriptsOf(categories, transcripts, category) == At(transcripts, RowsLabelled(categories, category))
  {
    if categories != [] {
      var n := |categories| - 1;
      TranscriptsOfRows(categories[..n], transcripts[..n], category);
      var ts, ix := TranscriptsOf(categories, transcripts, category), RowsLabelled(categories, category);
      var init, ii := TranscriptsOf(categories[..n], transcripts[..n], category), RowsLabelled(categories[..n], category);
      assert ts == init + (if categories[n] == category then [transcripts[n]] else []);
      assert ix == ii + (if categories[n] == category then [n] else []);
      forall m | 0 <= m < |ix| ensures ts[m] == transcripts[ix[m]] {
        if m < |ii| {
          assert ts[m] == init[m] == transcripts[..n][ii[m]];
        }
      }
    }
  }

  /** Every transcript picked belongs to a row labelled with the category. */
  lemma {:induction false} TranscriptsOfSpec(categories: seq<string>, transcripts: seq<string>, category: string)
    requires |categories| == |transcripts|
    ensures forall m | 0 <= m < |TranscriptsOf(categories, transcripts, category)| ::
              TranscriptOfCategory(categories, transcripts, category, TranscriptsOf(categories, transcripts, category)[m])
  {
    if categories != [] {
      var n := |categories| - 1;
      var ts := TranscriptsOf(categories, transcripts, category);
      var init := TranscriptsOf(categories[..n], transcripts[..n], category);
      TranscriptsOfSpec(categories[..n], transcripts[..n], category);
      assert ts == init + (if categories[n] == category then [transcripts[n]] else []);
      forall m | 0 <= m < |ts| ensures TranscriptOfCategory(categories, transcripts, category, ts[m]) {
        if m < |init| {
          assert TranscriptOfCategory(categories[..n], transcripts[..n], category, init[m]);
          var i :| 0 <= i < n && i < n && categories[..n][i] == category && init[m] == transcripts[..n][i];
          assert ts[m] == transcripts[i];
        } else {
          assert ts[m] == transcripts[n];
        }
      }
    }
  }

  /** The excerpts of the transcripts, dropping the empty ones. */
  function NonEmptyExcerpts(ts: seq<string>): seq<string>
  {
    if ts == [] then []
    else
      var e := Excerpt(ts[|ts| - 1]);
      NonEmptyExcerpts(ts[..|ts| - 1]) + (if e != [] then [e] else [])
  }

  /** There is at most one excerpt per transcript, none is empty, and each is a transcript's. */
  lemma {:induction false} NonEmptyExcerptsSpec(ts: seq<string>)
    ensures |NonEmptyExcerpts(ts)| <= |ts|
    ensures forall m | 0 <= m < |NonEmptyExcerpts(ts)| ::
              NonEmptyExcerpts(ts)[m] != [] && exists k | 0 <= k < |ts| :: NonEmptyExcerpts(ts)[m] == Excerpt(ts[k])
  {
    if ts != [] {
      var n := |ts| - 1;
      var es := NonEmptyExcerpts(ts);
      var init := NonEmptyExcerpts(ts[..n]);
      NonEmptyExcerptsSpec(ts[..n]);
      forall m | 0 <= m < |es| ensures es[m] != [] && exists k | 0 <= k < |ts| :: es[m] == Excerpt(ts[k]) {
        if m < |init| {
          var k :| 0 <= k < n && init[m] == Excerpt(ts[..n][k]);
          assert es[m] == Excerpt(ts[k]);
        } else {
          assert es[m] == Excerpt(ts[n]);
        }
      }
    }
  }

  /** The positions of the transcripts that are not empty, in increasing order. */
  function FilledPositions(ts: seq<string>): (ix: seq<int>)
    ensures forall m | 0 <= m < |ix| :: 0 <= ix[m] < |ts| && ts[ix[m]] != []
    ensures forall k | 0 <= k < |ts| && ts[k] != [] :: k in ix
    ensures forall m, m' | 0 <= m < m' < |ix| :: ix[m] < ix[m']
  {
    if ts == [] then []
    else
      var n := |ts| - 1;
      FilledPositions(ts[..n]) + (if ts[n] != [] then [n] else [])
  }

  /**
   * The excerpts kept are those of every transcript that is not empty, one
   * per transcript and in order (an excerpt is empty only for an empty
   * transcript).
   */
  lemma {:induction false} NonEmptyExcerptsInOrder(ts: seq<string>)
    ensures |NonEmptyExcerpts(ts)| == |FilledPositions(ts)|
    ensures forall m | 0 <= m < |FilledPositions(ts)| ::
              NonEmptyExcerpts(ts)[m] == Excerpt(ts[FilledPositions(ts)[m]])
  {
    if ts != [] {
      var n := |ts| - 1;
      NonEmptyExcerptsInOrder(ts[..n]);
      ExcerptEmptyIff(ts[n]);
      var es, ix := NonEmptyExcerpts(ts), FilledPositions(ts);
      var ei, ii := NonEmptyExcerpts(ts[..n]), FilledPositions(ts[..n]);
      var e := Excerpt(ts[n]);
      assert es == ei + (if e != [] then [e] else []);
      assert ix == ii + (if ts[n] != [] then [n] else []);
      forall m | 0 <= m < |ix| ensures es[m] == Excerpt(ts[ix[m]]) {
        if m < |ii| {
          assert es[m] == ei[m] == Excerpt(ts[..n][ii[m]]);
        }
      }
    }
  }

  /** Every transcript that is not empty gives its excerpt. */
  lemma FilledKept(ts: seq<string>)
    ensures forall j | 0 <= j < |ts| && ts[j] != [] :: Excerpt(ts[j]) in NonEmptyExcerpts(ts)
  {
    NonEmptyExcerptsInOrder(ts);
    var es, ix := NonEmptyExcerpts(ts), FilledPositions(ts);
    forall j | 0 <= j < |ts| && ts[j] != [] ensures Excerpt(ts[j]) in es {
      assert j in ix;
      var m :| 0 <= m < |ix| && ix[m] == j;
      assert es[m] == Excerpt(ts[j]);
    }
  }

  /** When no transcript is empty, every transcript gives an excerpt. */
  lemma {:induction false} NonEmptyExcerptsAll(ts: seq<string>)
    requires forall k | 0 <= k < |ts| :: ts[k] != []
    ensures |NonEmptyExcerpts(ts)| == |ts|
  {
    if ts != [] {
      var n := |ts| - 1;
      assert forall k | 0 <= k < n :: ts[..n][k] == ts[k];
      NonEmptyExcerptsAll(ts[..n]);
      ExcerptEmptyIff(ts[n]);
      var e := Excerpt(ts[n]);
      assert e != [];
      assert NonEmptyExcerpts(ts) == NonEmptyExcerpts(ts[..n]) + [e];
    }
  }

  /** At most maxExamples first transcripts of the category, as excerpts. */
  function CategoryExamples(errors: Table, category: string, maxExamples: nat): seq<string>
    requires WellFormed(errors)
    requires Categorizer.CategoryColumn in errors.columns && TranscriptColumn in errors.columns
  {
    var ts := TranscriptsOf(ColumnValues(errors, Categorizer.CategoryColumn),
                            ColumnValues(errors, TranscriptColumn), category);
    NonEmptyExcerpts(ts[..if maxExamples < |ts| then maxExamples else |ts|])
  }

  /** `_get_category_examples` */
  method GetCategoryExamples(errors: Table, category: string, maxExamples: nat) returns (examples: seq<string>)
    requires WellFormed(errors)
    requires Categorizer.CategoryColumn in errors.columns && TranscriptColumn in errors.columns
    ensures examples == CategoryExamples(errors, category, maxExamples)
  {
    var ts := TranscriptsOf(ColumnValues(errors, Categorizer.CategoryColumn),
                            ColumnValues(errors, TranscriptColumn), category);
    var head := ts[..if maxExamples < |ts| then maxExamples else |ts|];
    examples := [];
    var i := 0;
    while i < |head|
      invariant 0 <= i <= |head|
      invariant examples == NonEmptyExcerpts(head[..i])
    {
      assert head[..i + 1][..i] == head[..i];
      var excerpt := Excerpt(head[i]);
      if excerpt != [] {
        examples := examples + [excerpt];
      }
      i := i + 1;
    }
    assert head[..i] == head;
  }

  /**
   * There are never more examples than asked for; each is the excerpt, not
   * empty, of the transcript of a row labelled with the category.
   */
  lemma CategoryExamplesSpec(errors: Table, category: string, maxExamples: nat)
    requires WellFormed(errors)
    requires Categorizer.CategoryColumn in errors.columns && TranscriptColumn in errors.columns
    ensures var es := CategoryExamples(errors, category, maxExamples);
      var cs, ts := ColumnValues(errors, Categorizer.CategoryColumn), ColumnValues(errors, TranscriptColumn);
      |es| <= maxExamples &&
      forall m | 0 <= m < |es| :: es[m] != [] &&
        exists i | 0 <= i < |errors.rows| :: cs[i] == category && es[m] == Excerpt(ts[i])
  {
    var cs, ts := ColumnValues(errors, Categorizer.CategoryColumn), ColumnValues(errors, TranscriptColumn);
    var matching := TranscriptsOf(cs, ts, category);
    var head := matching[..if maxExamples < |matching| then maxExamples else |matching|];
    var es := NonEmptyExcerpts(head);
    NonEmptyExcerptsSpec(head);
    TranscriptsOfSpec(cs, ts, category);
    forall m | 0 <= m < |es|
      ensures exists i | 0 <= i < |errors.rows| :: cs[i] == category && es[m] == Excerpt(ts[i])
    {
      var k :| 0 <= k < |head| && es[m] == Excerpt(head[k]);
      assert head[k] == matching[k];
      assert TranscriptOfCategory(cs, ts, category, matching[k]);
      var i :| 0 <= i < |cs| && i < |ts| && cs[i] == category && matching[k] == ts[i];
    }
  }

  /**
   * The non-empty excerpts of the first h transcripts of a category are
   * those of its first h rows, in row order: each non-empty transcript among
   * them gives one, and with none empty there are exactly h.
   */
  lemma FirstRowsExamples(cs: seq<string>, ts: seq<string>, category: string, h: int)
    requires |cs| == |ts| && 0 <= h <= Tally.Count(cs, category)
    ensures var rows, es := RowsLabelled(cs, category), NonEmptyExcerpts(TranscriptsOf(cs, ts, category)[..h]);
      es == NonEmptyExcerpts(At(ts, rows[..h])) &&
      ((forall j | 0 <= j < h :: ts[rows[j]] != []) ==> |es| == h) &&
      forall j | 0 <= j < h && ts[rows[j]] != [] :: Excerpt(ts[rows[j]]) in es
  {
    var rows := RowsLabelled(cs, category);
    TranscriptsOfRows(cs, ts, category);
    var heads := At(ts, rows[..h]);
    assert TranscriptsOf(cs, ts, category)[..h] == heads;
    if forall j | 0 <= j < h :: ts[rows[j]] != [] {
      NonEmptyExcerptsAll(heads);
    }
    var es := NonEmptyExcerpts(heads);
    FilledKept(heads);
    forall j | 0 <= j < h && ts[rows[j]] != [] ensures Excerpt(ts[rows[j]]) in es {
      assert heads[j] == ts[rows[j]];
    }
  }

  /**
   * The examples are the non-empty excerpts of the first `maxExamples` rows
   * labelled with the category (all of them when there are fewer), taken in
   * row order; with no empty transcript among those rows, there are exactly
   * min(maxExamples, number of rows of the category) examples.
   */
  lemma CategoryExamplesOfFirstRows(errors: Table, category: string, maxExamples: nat)
    requires WellFormed(errors)
    requires Categorizer.CategoryColumn in errors.columns && TranscriptColumn in errors.columns
    ensures var cs, ts := ColumnValues(errors, Categorizer.CategoryColumn), ColumnValues(errors, TranscriptColumn);
      var rows := RowsLabelled(cs, category);
      var h := if maxExamples < |rows| then maxExamples else |rows|;
      |rows| == Tally.Count(cs, category) &&
      CategoryExamples(errors, category, maxExamples) == NonEmptyExcerpts(At(ts, rows[..h])) &&
      ((forall j | 0 <= j < h :: ts[rows[j]] != []) ==> |CategoryExamples(errors, category, maxExamples)| == h) &&
      forall j | 0 <= j < h && ts[rows[j]] != [] :: Excerpt(ts[rows[j]]) in CategoryExamples(errors, category, maxExamples)
  {
    var cs, ts := ColumnValues(errors, Categorizer.CategoryColumn), ColumnValues(errors, TranscriptColumn);
    var rows := RowsLabelled(cs, category);
    TranscriptsOfRows(cs, ts, category);
    FirstRowsExamples(cs, ts, category, if maxExamples < |rows| then maxExamples else |rows|);
  }

  // ---------------------------------------------------------------------
  // _create_statistics_only, _create_ai_solution, _generate_category_solutions
  // ---------------------------------------------------------------------

  /** A recommendation for one category. */
  datatype Solution = Solution(category: string, solution: string)

  /**
   * The external text generator, as the answer it gives for a category, its
   * count (passed twice, as the source does) and the examples.
   */
  type Responder = (string, nat, nat, seq<string>) -> string

  /** The statistics-only text without the blank lines that surround it in the template. */
  function StatisticsText(category: string, count: nat, examples: nat): string
  {
    "КАТЕГОРИЯ: " + category + "\nКОЛИЧЕСТВО ОШИБОК: " + NatToString(count) +
    "\nПРИМЕРОВ ПРОАНАЛИЗИРОВАНО: " + NatToString(examples) + "\n\nРекомендации не требуются."
  }

  /** `_create_statistics_only`: the template, stripped. */
  function CreateStatisticsOnly(category: string, count: nat, examples: seq<string>): Solution
  {
    Solution(category, Strip("\n" + StatisticsText(category, count, |examples|) + "\n"))
  }

  /** The stripped template mentions the category, the count and the number of examples. */
  lemma StatisticsOnlySpec(category: string, count: nat, examples: seq<string>)
    ensures var s := CreateStatisticsOnly(category, count, examples);
      s.category == category &&
      s.solution == StatisticsText(category, count, |examples|) &&
      Contains(s.solution, category) && Contains(s.solution, NatToString(count)) &&
      Contains(s.solution, NatToString(|examples|))
  {
    StatisticsStripped(category, count, |examples|);
    PiecesContained("КАТЕГОРИЯ: ", category, "\nКОЛИЧЕСТВО ОШИБОК: ", NatToString(count),
                    "\nПРИМЕРОВ ПРОАНАЛИЗИРОВАНО: ", NatToString(|examples|), "\n\nРекомендации не требуются.");
  }

  /** strip() takes off exactly the blank lines around the template. */
  lemma StatisticsStripped(category: string, count: nat, examples: nat)
    ensures Strip("\n" + StatisticsText(category, count, examples) + "\n") == StatisticsText(category, count, examples)
  {
    var x := StatisticsText(category, count, examples);
    var head := "КАТЕГОРИЯ: ";
    var tail := "\n\nРекомендации не требуются.";
    assert head[0] == 'К' && tail[|tail| - 1] == '.';
    FramedTrimmed(head, category + "\nКОЛИЧЕСТВО ОШИБОК: " + NatToString(count) +
                        "\nПРИМЕРОВ ПРОАНАЛИЗИРОВАНО: " + NatToString(examples), tail);
    StripPadded("\n", x, "\n");
  }

  /** Text that starts and ends with a character other than whitespace is trimmed. */
  lemma FramedTrimmed(head: string, mid: string, tail: string)
    requires head != [] && tail != [] && !IsSpace(head[0]) && !IsSpace(tail[|tail| - 1])
    ensures var x := head + mid + tail; x != [] && Trimmed(x)
  {
    var x := head + mid + tail;
    assert x[0] == head[0] && x[|x| - 1] == tail[|tail| - 1];
  }

  /** The three values filled into a template of four fixed pieces all occur in it. */
  lemma PiecesContained(p1: string, c: string, p2: string, n: string, p3: string, e: string, p4: string)
    ensures var x := p1 + c + p2 + n + p3 + e + p4;
      Contains(x, c) && Contains(x, n) && Contains(x, e)
  {
    var x := p1 + c + p2 + n + p3 + e + p4;
    assert x[|p1|..|p1| + |c|] == c;
    assert x[|p1 + c + p2|..|p1 + c + p2| + |n|] == n;
    assert x[|p1 + c + p2 + n + p3|..|p1 + c + p2 + n + p3| + |e|] == e;
    ContainsAt(x, c, |p1|);
    ContainsAt(x, n, |p1 + c + p2|);
    ContainsAt(x, e, |p1 + c + p2 + n + p3|);
  }

  /** `_create_ai_solution` or `_create_statistics_only`, as the kind of recommendation asks. */
  function SolutionFor(category: string, count: nat, examples: seq<string>, kind: string, ai: Option<Responder>): (s: Solution)
    ensures s.category == category
  {
    if kind == "ai" && ai.Some? then Solution(category, ai.value(category, count, count, examples))
    else CreateStatisticsOnly(category, count, examples)
  }

  /** The solution for every counted category, in the order of the counts. */
  function CategorySolutions(stats: seq<Tally.Entry>, errors: Table, kind: string, ai: Option<Responder>): (ss: seq<Solution>)
    requires WellFormed(errors)
    requires Categorizer.CategoryColumn in errors.columns && TranscriptColumn in errors.columns
    ensures |ss| == |stats| && forall i | 0 <= i < |stats| :: ss[i].category == stats[i].key
  {
    if stats == [] then []
    else
      var n := |stats| - 1;
      CategorySolutions(stats[..n], errors, kind, ai) +
      [SolutionFor(stats[n].key, stats[n].count, CategoryExamples(errors, stats[n].key, DefaultMaxExamples), kind, ai)]
  }

  /** One more category adds its solution at the end. */
  lemma SolutionsStep(stats: seq<Tally.Entry>, errors: Table, kind: string, ai: Option<Responder>, i: nat)
    requires WellFormed(errors)
    requires Categorizer.CategoryColumn in errors.columns && TranscriptColumn in errors.columns
    requires i < |stats|
    ensures CategorySolutions(stats[..i + 1], errors, kind, ai) ==
            CategorySolutions(stats[..i], errors, kind, ai) +
            [SolutionFor(stats[i].key, stats[i].count, CategoryExamples(errors, stats[i].key, DefaultMaxExamples), kind, ai)]
  {
    assert stats[..i + 1][..i] == stats[..i];
  }

  /** `_generate_category_solutions` */
  method GenerateCategorySolutions(stats: seq<Tally.Entry>, errors: Table, kind: string, ai: Option<Responder>)
    returns (solutions: seq<Solution>)
    requires WellFormed(errors)
    requires Categorizer.CategoryColumn in errors.columns && TranscriptColumn in errors.columns
    ensures solutions == CategorySolutions(stats, errors, kind, ai)
  {
    solutions := [];
    var i := 0;
    while i < |stats|
      invariant 0 <= i <= |stats|
      invariant solutions == CategorySolutions(stats[..i], errors, kind, ai)
    {
      var examples := GetCategoryExamples(errors, stats[i].key, DefaultMaxExamples);
      var solution := SolutionFor(stats[i].key, stats[i].count, examples, kind, ai);
      SolutionsStep(stats, errors, kind, ai, i);
      solutions := solutions + [solution];
      i := i + 1;
    }
    assert stats[..i] == stats;
  }

  /** The category counts of the findings, most frequent first. */
  function CategoryStats(errors: Table): seq<Tally.Entry>
    requires WellFormed(errors) && Categorizer.CategoryColumn in errors.columns
  {
    Tally.ValueCounts(ColumnValues(errors, Categorizer.CategoryColumn))
  }

  /**
   * Exactly one solution per category in the findings: every category
   * present has one, each has one only, and none is made up.
   */
  lemma OneSolutionPerCategory(errors: Table, kind: string, ai: Option<Responder>)
    requires WellFormed(errors)
    requires Categorizer.CategoryColumn in errors.columns && TranscriptColumn in errors.columns
    ensures OnePerCategory(ColumnValues(errors, Categorizer.CategoryColumn),
                           CategorySolutions(CategoryStats(errors), errors, kind, ai))
  {
    var cs := ColumnValues(errors, Categorizer.CategoryColumn);
    Tally.ValueCountsSpec(cs);
    SolutionsFollowCounts(cs, CategoryStats(errors), CategorySolutions(CategoryStats(errors), errors, kind, ai));
  }

  /** Every category in cs has a solution in ss, each only one, and ss has no other. */
  predicate OnePerCategory(cs: seq<string>, ss: seq<Solution>)
  {
    (forall c | c in cs :: exists i | 0 <= i < |ss| :: ss[i].category == c) &&
    (forall i | 0 <= i < |ss| :: ss[i].category in cs) &&
    (forall i, j | 0 <= i < j < |ss| :: ss[i].category != ss[j].category)
  }

  /** Solutions made one per entry of value_counts cover each value exactly once. */
  lemma SolutionsFollowCounts(cs: seq<string>, stats: seq<Tally.Entry>, ss: seq<Solution>)
    requires forall e | e in stats :: e.key in cs
    requires forall c | c in cs :: exists e | e in stats :: e.key == c
    requires Tally.DistinctLabels(stats)
    requires |ss| == |stats| && forall i | 0 <= i < |stats| :: ss[i].category == stats[i].key
    ensures OnePerCategory(cs, ss)
  {
    forall c | c in cs ensures exists i | 0 <= i < |ss| :: ss[i].category == c {
      var e :| e in stats && e.key == c;
      var i :| 0 <= i < |stats| && stats[i] == e;
      assert ss[i].category == c;
    }
    forall i | 0 <= i < |ss| ensures ss[i].category in cs {
      assert stats[i] in stats;
    }
  }

  // ---------------------------------------------------------------------
  // ScriptGenerator
  // ---------------------------------------------------------------------

  /** `_initialize_ai`: the generator is created once, if enabled and the provider is GigaChat. */
  function InitializedAi(current: Option<Responder>, enabled: bool, provider: string, connection: Option<Responder>): Option<Responder>
  {
    if current.None? && enabled && provider == "gigachat" then connection else current
  }

  class ScriptGenerator {
    var aiEnabled: bool
    var aiProvider: string
    var aiGenerator: Option<Responder>
    var scriptsGenerated: bool

    /** `__init__`, from the values of AI_ENABLED and AI_PROVIDER. */
    constructor(aiEnabledSetting: string, aiProviderSetting: string)
      ensures aiEnabled == (Lower(aiEnabledSetting) == "true") && aiProvider == aiProviderSetting
      ensures aiGenerator == None && !scriptsGenerated
    {
      aiEnabled := Lower(aiEnabledSetting) == "true";
      aiProvider := aiProviderSetting;
      aiGenerator := None;
      scriptsGenerated := false;
    }

    /**
     * `_initialize_ai`; `connection` is the generator the GigaChat client
     * gives, or None when creating it fails.
     */
    method InitializeAi(connection: Option<Responder>)
      modifies this
      ensures aiGenerator == InitializedAi(old(aiGenerator), aiEnabled, aiProvider, connection)
      ensures aiEnabled == old(aiEnabled) && aiProvider == old(aiProvider)
      ensures scriptsGenerated == old(scriptsGenerated)
    {
      if aiGenerator.None? && aiEnabled && aiProvider == "gigachat" {
        aiGenerator := connection;
      }
    }

    /**
     * `generate_scripts_from_errors`: declines once recommendations have been
     * made, and on an empty findings table; otherwise makes one solution per
     * category (the ones written to the recommendations file) and remembers
     * that it has.
     */
    method GenerateScriptsFromErrors(errors: Table, kind: string, connection: Option<Responder>)
      returns (ok: bool, solutions: seq<Solution>)
      requires WellFormed(errors)
      requires |errors.rows| > 0 ==> Categorizer.CategoryColumn in errors.columns && TranscriptColumn in errors.columns
      modifies this
      ensures ok <==> !old(scriptsGenerated) && |errors.rows| > 0
      ensures !ok ==> solutions == [] && scriptsGenerated == old(scriptsGenerated) && aiGenerator == old(aiGenerator)
      ensures ok ==> scriptsGenerated
      ensures ok ==> aiGenerator == (if kind == "ai" then InitializedAi(old(aiGenerator), aiEnabled, aiProvider, connection)
                                     else old(aiGenerator))
      ensures ok ==> solutions == CategorySolutions(CategoryStats(errors), errors, kind, aiGenerator)
      ensures aiEnabled == old(aiEnabled) && aiProvider == old(aiProvider)
    {
      if scriptsGenerated {
        return false, [];
      }
      if |errors.rows| == 0 {
        return false, [];
      }
      if kind == "ai" {
        InitializeAi(connection);
      }
      var stats := CategoryStats(errors);
      solutions := GenerateCategorySolutions(stats, errors, kind, aiGenerator);
      scriptsGenerated := true;
      ok := true;
    }
  }

  /** Recommendations are made at most once per generator: a second request is declined. */
  method SecondRunDeclines(g: ScriptGenerator, errors: Table, kind: string, connection: Option<Responder>)
    returns (first: bool, second: bool)
    requires WellFormed(errors)
    requires |errors.rows| > 0 ==> Categorizer.CategoryColumn in errors.columns && TranscriptColumn in errors.columns
    modifies g
    ensures first <==> !old(g.scriptsGenerated) && |errors.rows| > 0
    ensures !second
  {
    var s1, s2;
    first, s1 := g.GenerateScriptsFromErrors(errors, kind, connection);
    if |errors.rows| > 0 {
      assert g.scriptsGenerated;
    }
    second, s2 := g.GenerateScriptsFromErrors(errors, kind, connection);
  }
}
