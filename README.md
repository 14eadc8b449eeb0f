# OlgaSupervisor error pipeline, in Dafny

OlgaSupervisor double-checks how calls about churn risk were classified. Each call has:
- a recorded status ("угроза оттока подтверждена" or "… не подтверждена");
- a recorded result;
- a `;`-separated transcript of `bot:` and `human:` turns;
- a log of the prompts the bot used.

This project models the decision-making core of the pipeline and proves what it promises. It has four stages:

1. **The double-check analyzer** (`improved_analyzer.py`).
   - It finds the columns it needs by alias.
   - It runs an ordered rule set over every call: wrong person, communication problems, the client's answer to the key question against the recorded status, and ignored critical questions.
   - It collects the flagged calls into a findings table and a details table.
2. **The category classifier** (`error_categorizer.py`). It reduces a finding, which may name several reasons joined by `" | "`, to one of six labels by a fixed priority. It counts the findings per category.
3. **The status correction** (`main.py`).
   - It maps each category, status and result to a corrected status, a corrected result and a correction reason.
   - It builds the correction table and counts the changed statuses and results.
   - It summarises the table per category.
   - It overlays the corrected statuses on the original calls by client id.
4. **The recommendation preparation** (`ai/script_generator.py`).
   - It extracts an excerpt of a transcript.
   - It picks at most two examples per category.
   - It makes one solution per category, from a statistics template or from an external text generator.
   - A generator object makes its recommendations only once.

How the code is laid out:
- **Tables.** A table is a list of column labels plus rows of string cells (`Frame`).
- **Supporting modules.**
  - `Text` models Python's string operations: `in`, `lower`, `strip`, `split`, `join` and `replace`.
  - `Tally` models `value_counts`.
- **Loops.** Every `for` statement of the source is a Dafny `method` with a loop, proved equal to a specification function. The properties are lemmas about those functions. Two iterations written as expressions stay functions: the `sum(...)` generator of `_has_serious_prompt_problems` (`Analyzer.CountPresent`) and the list comprehension of `_extract_dialog_excerpt` (`Scripts.StrippedLines`).
- **The one-shot generator.** It is a `class` whose `scriptsGenerated` flag its methods update.

Three parts of the system are not modelled:
- **Regular expressions** (`improved_analyzer.py:10-13`) are modelled as whole-word phrase matches. Both ends must fall on a word boundary, and the `нуу*\.{3}` alternative is modelled as written.
- **Lower-casing** covers ASCII, Latin-1 and basic Cyrillic.
- **The external text generator** (GigaChat) is a function parameter `Responder`. Whether the client could be created is a parameter of `InitializeAi`.

Where the description of the system and the code differ, the model follows the code. Three places matter:
- **The re-ask check.** The re-ask `break` of `_extract_client_response` sits under the `human:` test and can never run (`Analyzer.ReaskBreakUnreachable`).
- **The false-positive gate.** The gate of the false-positive correction tests for "подтверждена". That substring also occurs in "не подтверждена" (`Correction.DeniedThreatPassesGate`).
- **The filled count.** The overlay's filled count is always the row count, because `fillna('')` leaves no missing cell. `Correction.OverlaySpec` carries this: every original row is kept, and each has a string cell in the corrected-status column.

## Model

| member | source | states |
|---|---|---|
| FirstPass.FindColumn | improved_analyzer.py:187-192 | the nested loop returns exactly `ResolveColumn`: the first column that contains the first alias (by priority) found in any column |
| FirstPass.ColumnForSpec | improved_analyzer.py:189-191 | for one alias: None iff no lower-cased label contains it; otherwise the first such label in column order |
| FirstPass.ResolveColumnSpec | improved_analyzer.py:187-192 | None iff no alias matches any column; otherwise a real column, matched by the first alias that matches any column, and by no earlier alias |
| FirstPass.ExactLabelResolves | improved_analyzer.py:187-192 | a table with a column labelled exactly as one of the aliases always resolves the field |
| FirstPass.FirstPassAnalysis | improved_analyzer.py:15-77 | the method returns `FirstPassResult`: None when status, result, transcript or client cannot be resolved; otherwise the categorized findings table and the details table, or two empty tables when nothing is flagged |
| FirstPass.CollectFindings | improved_analyzer.py:35-62 | the row loop's two lists are the confirmed rows and the detail rows of exactly the flagged calls, in row order |
| FirstPass.AnalyzeRow | improved_analyzer.py:36-43 | the cells read from row i form the row's dialog, and the evaluator's answer is that dialog's finding |
| FirstPass.AppendIfFlagged | improved_analyzer.py:45-62 | a call with a finding adds one row to each list; a call without one adds none |
| FirstPass.FindingsAt | improved_analyzer.py:43 | the i-th finding is the evaluator's verdict on the i-th dialog |
| FirstPass.FlaggedIndices | improved_analyzer.py:45 | the positions kept are exactly the rows with a finding, strictly increasing |
| FirstPass.RowsAreFlaggedDialogs | improved_analyzer.py:45-62 | both lists are as long as the flagged positions; entry k of each is built from the k-th flagged call (its cells, its finding) |
| FirstPass.ConfirmedRowsShape | improved_analyzer.py:46-70 | every confirmed row fills the five columns of the findings table |
| FirstPass.ConfirmedColumnsLayout | improved_analyzer.py:46-52 | the reason is the fifth column of a finding, and the category column is not yet among them |
| FirstPass.CategorizedFindings | improved_analyzer.py:69-71 | categorizing the findings keeps the five columns and every row, and appends to each row the category of its reason |
| FirstPass.FlaggedDialog | improved_analyzer.py:79-109 | a flagged call's finding is its reasons joined by " \| ", with at least one label; its category is the reason that comes first by priority |
| FirstPass.FirstPassTables | improved_analyzer.py:15-77 | one findings row and one details row per flagged call, in row order. A findings row is the call's cells, its finding and that finding's category. The detail rows carry the same calls. Calls without a finding appear in neither table |
| Analyzer.AnalyzeDialogForErrors | improved_analyzer.py:79-109 | the method returns the reasons joined by " \| ", or None when no rule fired (`Verdict(DialogReasons(...))`) |
| Analyzer.CompareAnswerWithStatus | improved_analyzer.py:90-104 | appends at most the one churn reason the comparison of the answer with the status gives |
| Analyzer.ChurnReasons | improved_analyzer.py:91-104 | at most one reason comes from the comparison with the status |
| Analyzer.HasCriticalIgnoredQuestions | improved_analyzer.py:140-161 | the nested loop with early return finds `CriticalQuestionIgnored`: a client turn asks a critical question, and one of the next two turns is a bot turn that repeats none of them and turns to traffic or to the key question |
| Analyzer.ExtractClientResponse | improved_analyzer.py:163-185 | the loop's accumulated text, stripped, is `ClientResponse`: the answers collected after the key question |
| Analyzer.ClientResponseJoinsAnswers | improved_analyzer.py:163-185 | the response is the answers after the key question, joined by single spaces. It is "" without the key question, and "" exactly when there is no answer longer than one character |
| Analyzer.NoKeyQuestionNoAnswers | improved_analyzer.py:169-178 | no answer is collected before the key question has been asked |
| Analyzer.CollectedAnswersTrimmed | improved_analyzer.py:179-181 | every collected answer is stripped and longer than one character |
| Analyzer.PaddedIsJoined | improved_analyzer.py:181-185 | `response += " " + answer` over the answers is a space followed by the answers joined by spaces |
| Analyzer.ReaskBreakUnreachable | improved_analyzer.py:178-183 | a line that passed the `human:` test cannot start with `bot:`, so the re-ask `break` never runs |
| Analyzer.CountPresent | improved_analyzer.py:123-124 | the number of codes present is at most the number of codes |
| Analyzer.CountPresentSome | improved_analyzer.py:124-128 | one code or more is present iff some code occurs in the prompts |
| Analyzer.CountPresentTwo | improved_analyzer.py:124-127 | two codes or more are present iff two different codes occur |
| Analyzer.SeriousPromptProblemsSpec | improved_analyzer.py:119-138 | false for empty prompts; otherwise true iff two critical codes occur, or one occurs and the transcript names a dialog problem |
| Analyzer.TrailingHesitationIgnored | improved_analyzer.py:12 | "ну..." at the end of an answer does not match the unclear pattern: the trailing `\b` needs a word character after the dots |
| Analyzer.HesitationBeforeWordMatched | improved_analyzer.py:12 | "нуу..." followed by a word does match |
| AnalyzerRules.WrongPersonShortCircuits | improved_analyzer.py:84-85 | a wrong-person match yields exactly "Неправильный собеседник", whatever the status and the prompts |
| AnalyzerRules.ReasonsInRuleOrder | improved_analyzer.py:80-109 | at most three reasons, all category labels, in strictly increasing rule order (communication, churn, ignored) |
| AnalyzerRules.OrderedParts | improved_analyzer.py:87-107 | the three parts, appended in turn, keep the rule order and hold labels only |
| AnalyzerRules.NoneIffNoRuleFired | improved_analyzer.py:109 | the verdict is None iff no rule fired |
| AnalyzerRules.CommunicationGate | improved_analyzer.py:87-88 | the communication reason appears iff there is no wrong-person match and the prompts show serious problems |
| AnalyzerRules.FalsePositiveGate | improved_analyzer.py:94-113 | the false-churn reason appears iff the status contains the confirmed phrase, the answer matches the positive pattern and holds a definite "да" |
| AnalyzerRules.UncertainGate | improved_analyzer.py:94-99 | the uncertain reason appears iff the status is confirmed, the positive pattern misses, the unclear pattern matches and the prompts gave no communication reason before it |
| AnalyzerRules.FalseNegativeGate | improved_analyzer.py:101-117 | the refusal reason appears iff the status contains the not-confirmed phrase but not the confirmed one, and the answer matches the negative pattern with a definite "нет"/"не" |
| AnalyzerRules.ChurnGate | improved_analyzer.py:84-104 | a churn reason is among the reasons iff there is no wrong-person match and the comparison with the status gave it |
| AnalyzerRules.ChurnReasonCases | improved_analyzer.py:91-104 | the exact condition under which each of the three churn reasons is given |
| AnalyzerRules.ChurnReasonsExclusive | improved_analyzer.py:94-104 | at most one of the three churn reasons is found for a call |
| AnalyzerRules.ExclusiveParts | improved_analyzer.py:87-107 | with at most one churn reason, no two churn labels occur together |
| AnalyzerRules.IgnoredQuestionsGate | improved_analyzer.py:106-161 | the ignored-questions reason appears iff there is no wrong-person match and a critical question in the transcript was ignored; status, answer and prompts play no part |
| FindingCategory.ReasonsAreLabels | improved_analyzer.py:80-109 | every reason the analyzer gives is one of the six category labels |
| FindingCategory.FindingCategoryIsFirstReason | improved_analyzer.py:109 | a finding's category is the reason it names that comes first by the classifier's priority |
| Categorizer.DetermineCategory | error_categorizer.py:36-54 | a label is returned only when the reason contains it; otherwise the result is the text before the first " \| " |
| Categorizer.FirstSegment | error_categorizer.py:52-54 | `reason.split(' \| ')[0]`: a prefix of the reason without the separator, the whole reason when there is no separator |
| Categorizer.CategoryByPriority | error_categorizer.py:39-50 | the first label by priority that the reason contains wins, whatever other labels it contains |
| Categorizer.CategoryFallback | error_categorizer.py:52-54 | without a known label the category is the text before the first separator |
| Categorizer.MissingReasonHasEmptyCategory | error_categorizer.py:37 | a finding without a reason gets category "" |
| Categorizer.LabelsApart | error_categorizer.py:6-13 | no label contains another |
| Categorizer.LabelsClassifyAsThemselves | error_categorizer.py:6-50 | each of the six labels classifies as itself |
| Categorizer.LabelsSeparable | error_categorizer.py:6-13 | the labels are pairwise apart and none contains the separator or a bordering space |
| Categorizer.JoinedLabelsCategory | error_categorizer.py:39-54 | any non-empty list of labels, joined by " \| ", classifies as its label that comes first by priority |
| Categorizer.FirstListedInJoin | error_categorizer.py:39-50 | when the labels neither contain one another nor break across a separator, a join holds exactly the labels it joins |
| Categorizer.FirstListed | error_categorizer.py:39-50 | the position of the first label by priority among the reasons, with none earlier |
| Categorizer.CategorizeErrors | error_categorizer.py:15-34 | an empty table comes back unchanged. Otherwise there is one row per input row, in order, with every original cell copied and the reason's category in the new column |
| Categorizer.CategoryCountsAddUp | error_categorizer.py:60-72 | per-category counts are the number of rows of each category, each category once, adding up to the number of findings |
| Tally.ValueCountsSpec | error_categorizer.py:61 | `value_counts` lists each distinct value once, with its count, most frequent first, the counts adding up to the length |
| Correction.AnalyzeAndCorrect | main.py:165-196 | "Без изменений" exactly for unknown categories and for a false churn whose status lacks "подтверждена"; then status and result are kept |
| Correction.FixedCorrections | main.py:176-194 | the four fixed categories yield their fixed (status, result, reason) triples |
| Correction.FixedCategoriesIgnoreInputs | main.py:176-194 | for those four categories the original status and result play no part |
| Correction.FalsePositiveGate | main.py:170-174 | a false churn is corrected iff the lower-cased status contains "подтверждена"; otherwise nothing changes |
| Correction.AgreementStatusConfirmed | main.py:172 | the corrected status "угроза оттока не подтверждена" itself contains "подтверждена" |
| Correction.DeniedThreatPassesGate | main.py:170-174 | a false churn already corrected passes the gate again and gets the same correction |
| Correction.OtherCategoriesUnchanged | main.py:165-196 | any other category leaves status and result unchanged with "Без изменений" |
| Correction.FalseNegativeUnchanged | main.py:165-196 | the refusal category has no branch, so it is left unchanged |
| Correction.CorrectionIsIdempotent | main.py:165-196 | correcting an already-corrected pair under the same category gives the same triple |
| Correction.MissingColumns | main.py:115-116 | the missing columns are exactly the required ones absent from the table, in required order |
| Correction.FindMissing | main.py:116 | the list comprehension's loop yields `MissingColumns` |
| Correction.MissingIffAbsent | main.py:115-121 | the step stops with the missing columns iff a required column is absent |
| Correction.AcceptsTableWithColumns | main.py:115-163 | a table with rows and all five required columns is corrected, row for row |
| Correction.CorrectRows | main.py:127-147 | the row loop yields one correction row per input row, in order |
| Correction.AnalyzeAndCorrectErrors | main.py:100-163 | the method returns `CorrectionOf`: the missing columns, a failure on a table without rows, or the correction table with its change counts |
| Correction.CorrectionTableRows | main.py:127-149 | one row per input row, in order: the before columns are the input's cells, and every row is a valid correction |
| Correction.CorrectionRowValid | main.py:134-147 | a correction row's after columns are the fix of its own before columns and category |
| Correction.ChangesBounded | main.py:153-154 | the change count is at most the row count, and 0 iff before equals after on every row |
| Correction.ChangesOnlyForKnownCategories | main.py:153-196 | statuses and results change only in rows of the five known categories |
| Correction.KnownCountBounded | main.py:153-154 | the rows of known categories are at most all rows |
| Correction.ReportedChanges | main.py:153-154 | the reported status and result changes are bounded by the known-category rows, and those by the rows |
| Correction.SummaryCountsAddUp | main.py:198-213 | one summary group per category present, each once. A group counts its rows and shows the before and after status of its first row. The counts add up to the number of rows |
| Correction.StatusByIdSpec | main.py:226 | the id map holds exactly the listed ids, each mapped to the status of its last occurrence |
| Correction.CreateCorrectedDialogs | main.py:215-239 | the method returns `CorrectedDialogs`: None when the original table has no client column, otherwise the original table with the corrected-status column overlaid (see `OverlaySpec`) |
| Correction.OverlaySpec | main.py:226-233 | the overlay keeps every row and every other cell. A listed id gets the corrected status of its last correction, and an unlisted one gets "" |
| Pipeline.FindingsColumnsSuffice | main.py:115 | the categorized findings table (columns of improved_analyzer.py:46-52 plus the category) has every column the correction step requires |
| Pipeline.FindingsAreCorrectable | main.py:37-46 | whenever the first pass flags a call, the correction step accepts its findings and corrects every one |
| Scripts.StrippedLines | ai/script_generator.py:76 | at most one line per segment, each non-empty and stripped |
| Scripts.StrippedLinesSpec | ai/script_generator.py:76 | every line is a stripped segment, and no non-empty stripped segment is lost |
| Scripts.NonBlankPositions | ai/script_generator.py:76 | the positions of the segments that are not blank once stripped: all of them, increasing |
| Scripts.StrippedLinesInOrder | ai/script_generator.py:76 | the lines are the non-blank segments, stripped, one per segment and in segment order |
| Scripts.ExcerptOfDialog | ai/script_generator.py:77-78 | with two lines or more, the excerpt is the last two, stripped, non-empty, `;`-free, on two lines |
| Scripts.ExcerptOfShortDialog | ai/script_generator.py:79 | with fewer than two lines: the first 200 characters plus "..." (203 in all) when longer than 200, else the transcript itself |
| Scripts.ExcerptEmptyIff | ai/script_generator.py:69-79 | the excerpt is empty exactly for an empty transcript |
| Scripts.TranscriptsOfSpec | ai/script_generator.py:64-68 | every transcript picked belongs to a row of the category |
| Scripts.TranscriptsOf | ai/script_generator.py:64-68 | as many transcripts as rows labelled with the category |
| Scripts.RowsLabelled | ai/script_generator.py:64 | the positions of exactly the rows whose category is the one asked, increasing, as many as the category's count |
| Scripts.TranscriptsOfRows | ai/script_generator.py:64-68 | the transcripts picked are those of all the rows of the category, one per row and in row order |
| Scripts.NonEmptyExcerptsSpec | ai/script_generator.py:69-71 | at most one excerpt per transcript, none empty, each the excerpt of one of them |
| Scripts.FilledPositions | ai/script_generator.py:69-71 | the positions of exactly the transcripts that are not empty, increasing |
| Scripts.NonEmptyExcerptsInOrder | ai/script_generator.py:67-71 | the examples are the excerpts of every non-empty transcript, one per transcript and in order |
| Scripts.NonEmptyExcerptsAll | ai/script_generator.py:67-71 | with no empty transcript, every transcript gives an example |
| Scripts.FilledKept | ai/script_generator.py:67-71 | every non-empty transcript gives its excerpt as an example |
| Scripts.FirstRowsExamples | ai/script_generator.py:64-71 | the non-empty excerpts of the first h transcripts of a category are those of its first h rows, in row order; each non-empty one among them is kept, and with none empty there are exactly h |
| Scripts.GetCategoryExamples | ai/script_generator.py:63-73 | the loop's list is `CategoryExamples`: the non-empty excerpts of the first `max_examples` rows of the category |
| Scripts.CategoryExamplesSpec | ai/script_generator.py:63-73 | at most `max_examples` examples, each non-empty and the excerpt of a row labelled with the category |
| Scripts.CategoryExamplesOfFirstRows | ai/script_generator.py:63-73 | the examples are the non-empty excerpts of the first `max_examples` rows of the category (all of them when fewer), in row order. Each non-empty transcript among those rows gives one. With none empty there are exactly min(`max_examples`, rows of the category) examples |
| Scripts.StatisticsOnlySpec | ai/script_generator.py:89-97 | the stripped template is the four-line text, which contains the category, the count and the number of examples |
| Scripts.StatisticsStripped | ai/script_generator.py:90-97 | `strip()` removes exactly the blank lines around the template |
| Scripts.SolutionFor | ai/script_generator.py:54-87 | the solution is for the category asked |
| Scripts.CategorySolutions | ai/script_generator.py:48-61 | one solution per counted category, in the order of the counts |
| Scripts.SolutionsStep | ai/script_generator.py:51-59 | one more category adds its solution at the end |
| Scripts.GenerateCategorySolutions | ai/script_generator.py:48-61 | the loop's list is `CategorySolutions` |
| Scripts.OneSolutionPerCategory | ai/script_generator.py:38-61 | every category in the findings has exactly one solution, and no solution is for another category |
| Scripts.SolutionsFollowCounts | ai/script_generator.py:51 | solutions made one per `value_counts` entry cover each value exactly once |
| Scripts.ScriptGenerator.constructor | ai/script_generator.py:9-13 | AI is enabled iff the setting lower-cases to "true"; there is no generator yet and nothing has been generated |
| Scripts.ScriptGenerator.InitializeAi | ai/script_generator.py:15-22 | the generator is created only when none exists, AI is enabled and the provider is "gigachat"; a failed creation leaves none |
| Scripts.ScriptGenerator.GenerateScriptsFromErrors | ai/script_generator.py:24-46 | declines, changing nothing, once recommendations were made or on an empty table. Otherwise it sets the flag, initializes AI only for kind "ai", and returns one solution per category |
| Scripts.SecondRunDeclines | ai/script_generator.py:25-45 | a second request to the same generator is always declined |

Proof helpers such as `Analyzer.ReasonsOfDialog`, `AnalyzerRules.InMiddlePart`, `Analyzer.JoinTrimmed`, `Scripts.StripKeepsOut`, `Scripts.FramedTrimmed` and `Scripts.PiecesContained` state general facts about sequences and text, or unfold one definition, and are not listed above.

## Left out

- Reading and writing Excel files, `os` file handling, directory listings and every `print`: these are input and output. Tables are values passed in and returned. The orchestration in `main()` appears only as `Pipeline.FindingsAreCorrectable`.
- `_save_solutions_to_file` (ai/script_generator.py:99-116): file output.
- The GigaChat client and its prompt templates (ai/gigachat_generator.py): a network client. It is the `Responder` parameter.
- The visualizer, the interactive recommendation selector and the configuration module: they are outside this model.
- Float percentages and the effectiveness bands (main.py:84-92, main.py:206, error_categorizer.py:63-79): floating point. Only the integer counts are modelled.
- Full regular-expression semantics: Unicode `\b` and `IGNORECASE` are modelled as whole-word matching over ASCII, Latin-1 and Cyrillic letters, digits and `_`.
- Lower-casing of letters outside ASCII, Latin-1 and basic Cyrillic.
- Cells are strings. pandas conversions (`str()` of numbers, NaN read as "nan") are not modelled.
- Correction.ChangesBounded, Correction.ReportedChanges: cells are strings, so an unchanged row never counts as a change. In the source an empty status or result cell read from Excel is NaN, and NaN != NaN makes such a row count as changed (main.py:153-154); the model does not capture that over-count.
- Categorizer.CategoryStatistics: `value_counts` orders equal counts by first appearance, a tie order pandas does not promise.
- Correction.SummaryReport: groups come in order of first appearance; `groupby` sorts them by key.
- Duplicate column labels: a cell is read from the first column with the label.
- A KeyError when the categorized table lacks the category or transcript column in the recommendation step: it is a precondition of `Scripts.ScriptGenerator.GenerateScriptsFromErrors`, and the source never produces such a table.
- A KeyError when the original dialogs lack the client column (main.py:231) is modelled as the result None of `Correction.CreateCorrectedDialogs`.
- `max_examples` is a natural number; a negative `head(n)` is not modelled.
- The `transcript` argument of `analyze_and_correct` is unused in the source and is left out.
- `row.get` with a default on a column `_find_column` found: the column always exists, so it is a plain read.
- The `'id'` alias for the client column matches any label containing "id", and the 'status' alias also matches 'call_status'. The model keeps this behaviour; it proves nothing beyond `ResolveColumnSpec` about which label wins.
- The progress output every 1000 rows (improved_analyzer.py:64-65).
