/**
 * The rule evaluator of the double-check analyzer: decides, for one call
 * transcript and its recorded churn status, which classification errors the
 * call shows, and collects the findings of a whole table of calls.
 *
 * A transcript is a sequence of turns separated by ';', each turn starting
 * with "bot:" or "human:".
 */
module Analyzer {
  import opened Text
  import opened Frame
  import Categorizer

  // ---------------------------------------------------------------------
  // The four phrase patterns, matched on lower-cased text as whole words
  // ---------------------------------------------------------------------

  const PositivePhrases: seq<string> :=
    ["да планируем", "будем пользоваться", "конечно будем", "остаёмся", "продолжаем",
     "планируем дальше", "да", "конечно", "естественно"]

  const NegativePhrases: seq<string> :=
    ["нет не планируем", "уходим", "не будем", "отказываемся", "не буду пользоваться", "нет", "не"]

  const UnclearPhrases: seq<string> :=
    ["не знаю", "пока не могу", "не уверен", "сомневаюсь", "надо подумать"]

  const WrongPersonPhrases: seq<string> :=
    ["не председатель", "не мой договор", "ошиблись номером", "не являюсь", "не тот человек"]

  /** The positive pattern finds a match. */
  predicate PositiveMatch(s: string)
  {
    ContainsAnyWord(s, PositivePhrases)
  }

  /** The negative pattern finds a match. */
  predicate NegativeMatch(s: string)
  {
    ContainsAnyWord(s, NegativePhrases)
  }

  /** The wrong-person pattern finds a match. */
  predicate WrongPersonMatch(s: string)
  {
    ContainsAnyWord(s, WrongPersonPhrases)
  }

  /**
   * The hesitation alternative `нуу*\.{3}` of the unclear pattern, enclosed
   * in `\b`: a word-initial 'н', m >= 1 letters 'у', three dots, and then a
   * word character, since the closing `\b` after a dot needs one.
   */
  predicate HesitationAt(s: string, i: int, m: int)
  {
    1 <= m && 0 <= i && i + m + 4 < |s| &&
    s[i] == 'н' && WordStartAt(s, i) &&
    (forall k | i + 1 <= k <= i + m :: s[k] == 'у') &&
    s[i + m + 1] == '.' && s[i + m + 2] == '.' && s[i + m + 3] == '.' &&
    IsWordChar(s[i + m + 4])
  }

  /** The unclear pattern finds a match. */
  predicate UnclearMatch(s: string)
  {
    ContainsAnyWord(s, UnclearPhrases) ||
    exists i, m | 0 <= i < |s| && 1 <= m < |s| :: HesitationAt(s, i, m)
  }

  /** A hesitation at the very end of the text is not matched. */
  lemma TrailingHesitationIgnored()
    ensures !UnclearMatch("ну...")
  {
    var s := "ну...";
    forall k | 0 <= k < |UnclearPhrases| ensures !ContainsWord(s, UnclearPhrases[k]) {
      WordIsSubstring(s, UnclearPhrases[k]);
      assert UnclearPhrases[k][1] in UnclearPhrases[k];
      NotContainsByChar(s, UnclearPhrases[k], UnclearPhrases[k][1]);
    }
  }

  /** A hesitation followed by a word is matched. */
  lemma HesitationBeforeWordMatched()
    ensures UnclearMatch("нуу...да")
  {
    assert HesitationAt("нуу...да", 0, 2);
  }

  // ---------------------------------------------------------------------
  // Definite answers, prompt problems, dialog problems
  // ---------------------------------------------------------------------

  const SimplePositive: seq<string> := [" да ", " конечно ", " естественно ", "да,", "конечно,"]
  const SimpleNegative: seq<string> := [" нет ", " не ", "нет,", "не,"]

  /** `_is_definite_positive_answer` */
  predicate DefinitePositive(response: string)
  {
    ContainsAny(response, SimplePositive)
  }

  /** `_is_definite_negative_answer` */
  predicate DefiniteNegative(response: string)
  {
    ContainsAny(response, SimpleNegative)
  }

  const CriticalPrompts: seq<string> :=
    ["clarification_default", "clarification_dont_understand", "clarification_null"]

  const DialogProblemPhrases: seq<string> :=
    ["плохо слышно", "вас не слышно", "не понимаю", "что вы сказали", "повторите", "не расслышал"]

  /** `_has_dialog_problems`: a problem phrase in the lower-cased transcript. */
  predicate HasDialogProblems(transcript: string)
  {
    ContainsAny(Lower(transcript), DialogProblemPhrases)
  }

  /** How many of the given codes occur in s, each counted once. */
  function CountPresent(s: string, codes: seq<string>): (n: nat)
    ensures n <= |codes|
  {
    if codes == [] then 0
    else CountPresent(s, codes[..|codes| - 1]) + (if Contains(s, codes[|codes| - 1]) then 1 else 0)
  }

  /** At least one code is counted exactly when one occurs. */
  lemma {:induction false} CountPresentSome(s: string, codes: seq<string>)
    ensures CountPresent(s, codes) >= 1 <==> ContainsAny(s, codes)
  {
    if codes != [] {
      var init := codes[..|codes| - 1];
      CountPresentSome(s, init);
      if ContainsAny(s, init) {
        var k :| 0 <= k < |init| && Contains(s, init[k]);
        assert codes[k] == init[k];
      }
      if ContainsAny(s, codes) && !Contains(s, codes[|codes| - 1]) {
        var k :| 0 <= k < |codes| && Contains(s, codes[k]);
        assert init[k] == codes[k];
      }
    }
  }

  /** Two distinct codes that occur. */
  predicate TwoPresent(s: string, codes: seq<string>)
  {
    exists i, j | 0 <= i < j < |codes| :: Contains(s, codes[i]) && Contains(s, codes[j])
  }

  /** At least two codes are counted exactly when two different codes occur. */
  lemma {:induction false} CountPresentTwo(s: string, codes: seq<string>)
    ensures CountPresent(s, codes) >= 2 <==> TwoPresent(s, codes)
  {
    if codes != [] {
      var init := codes[..|codes| - 1];
      var last := codes[|codes| - 1];
      CountPresentTwo(s, init);
      CountPresentSome(s, init);
      if TwoPresent(s, init) {
        var i, j :| 0 <= i < j < |init| && Contains(s, init[i]) && Contains(s, init[j]);
        assert codes[i] == init[i] && codes[j] == init[j];
      }
      if Contains(s, last) && ContainsAny(s, init) {
        var i :| 0 <= i < |init| && Contains(s, init[i]);
        assert codes[i] == init[i];
        assert Contains(s, codes[i]) && Contains(s, codes[|codes| - 1]);
      }
      if TwoPresent(s, codes) {
        var i, j :| 0 <= i < j < |codes| && Contains(s, codes[i]) && Contains(s, codes[j]);
        if j < |codes| - 1 {
          assert init[i] == codes[i] && init[j] == codes[j];
        } else {
          assert init[i] == codes[i];
        }
      }
    }
  }

  /** `_has_serious_prompt_problems` */
  function HasSeriousPromptProblems(prompts: string, transcript: string): bool
  {
    if prompts == "" then false
    else
      var count := CountPresent(prompts, CriticalPrompts);
      count >= 2 || (count >= 1 && HasDialogProblems(transcript))
  }

  /**
   * Serious prompt problems: a non-empty prompt log that names two different
   * critical codes, or one critical code while the transcript shows a
   * hearing or understanding problem.
   */
  lemma SeriousPromptProblemsSpec(prompts: string, transcript: string)
    ensures HasSeriousPromptProblems(prompts, transcript) <==>
              prompts != "" &&
              (TwoPresent(prompts, CriticalPrompts) ||
               (ContainsAny(prompts, CriticalPrompts) && HasDialogProblems(transcript)))
  {
    CountPresentSome(prompts, CriticalPrompts);
    CountPresentTwo(prompts, CriticalPrompts);
  }

  // ---------------------------------------------------------------------
  // _has_critical_ignored_questions
  // ---------------------------------------------------------------------

  const CriticalQuestions: seq<string> :=
    ["по какому контракту", "какой договор", "о какой компании", "кто звонит", "по какому номеру", "о каком контракте"]

  const TrafficDrop := "снижение трафика"
  const PlanningAsk := "планируете ли"

  /** The text of a turn with its speaker tag removed, stripped and lower-cased. */
  function Utterance(line: string, tag: string): string
    requires |tag| > 0
  {
    Lower(Strip(RemoveAll(Strip(line), tag)))
  }

  /** A client turn that asks one of the critical questions. */
  predicate HumanAsksCritical(line: string)
  {
    StartsWith(Strip(line), "human:") && ContainsAny(Utterance(line, "human:"), CriticalQuestions)
  }

  /** A bot turn that answers no critical question but moves on to traffic or plans. */
  predicate BotChangesSubject(line: string)
  {
    var response := Utterance(line, "bot:");
    StartsWith(Strip(line), "bot:") && !ContainsAny(response, CriticalQuestions) &&
    (Contains(response, TrafficDrop) || Contains(response, PlanningAsk))
  }

  /** A bot turn within the two turns after a critical client question changes the subject. */
  predicate CriticalQuestionIgnored(transcript: string)
  {
    var lines := Split(transcript, ';');
    exists i, j | 0 <= i < j < |lines| && j <= i + 2 ::
      HumanAsksCritical(lines[i]) && BotChangesSubject(lines[j])
  }

  /** `_has_critical_ignored_questions`: nested scan with early return. */
  method HasCriticalIgnoredQuestions(transcript: string) returns (ignored: bool)
    ensures ignored == CriticalQuestionIgnored(transcript)
  {
    var lines := Split(transcript, ';');
    var i := 0;
    while i < |lines|
      invariant 0 <= i <= |lines|
      invariant forall i', j | 0 <= i' < i && i' < j < |lines| && j <= i' + 2 ::
                  !(HumanAsksCritical(lines[i']) && BotChangesSubject(lines[j]))
    {
      if HumanAsksCritical(lines[i]) {
        var stop := if i + 3 < |lines| then i + 3 else |lines|;
        var j := i + 1;
        while j < stop
          invariant i + 1 <= j <= stop
          invariant forall j' | i < j' < j :: !BotChangesSubject(lines[j'])
        {
          if BotChangesSubject(lines[j]) {
            return true;
          }
          j := j + 1;
        }
      }
      i := i + 1;
    }
    return false;
  }

  // ---------------------------------------------------------------------
  // _extract_client_response
  // ---------------------------------------------------------------------

  const KeyQuestion := "планируете ли вы пользоваться"

  /** A (stripped) bot turn that asks whether the client plans to keep the service. */
  predicate IsKeyQuestion(line: string)
  {
    Contains(Lower(line), KeyQuestion) && Contains(line, "bot:")
  }

  /** The answer text of a (stripped) client turn. */
  function AnswerText(line: string): string
  {
    Strip(RemoveAll(line, "human:"))
  }

  /** The key question was asked in one of the lines. */
  predicate KeySeen(lines: seq<string>)
  {
    lines != [] && (KeySeen(lines[..|lines| - 1]) || IsKeyQuestion(Strip(lines[|lines| - 1])))
  }

  /**
   * The answers the scan collects: every client turn after the first key
   * question whose answer is longer than one character, in order; key
   * question turns themselves are skipped.
   */
  function Collected(lines: seq<string>): seq<string>
  {
    if lines == [] then []
    else
      var init := lines[..|lines| - 1];
      var line := Strip(lines[|lines| - 1]);
      if IsKeyQuestion(line) then Collected(init)
      else if KeySeen(init) && StartsWith(line, "human:") && |AnswerText(line)| > 1 then
        Collected(init) + [AnswerText(line)]
      else Collected(init)
  }

  /** `response += " " + answer` over the answers. */
  function Padded(answers: seq<string>): string
  {
    if answers == [] then "" else Padded(answers[..|answers| - 1]) + " " + answers[|answers| - 1]
  }

  /** The stripped accumulation of the collected answers. */
  function ClientResponse(transcript: string): string
  {
    Strip(Padded(Collected(Split(transcript, ';'))))
  }

  /** `_extract_client_response`: one pass with a key-question flag and an accumulator. */
  method ExtractClientResponse(transcript: string) returns (response: string)
    ensures response == ClientResponse(transcript)
  {
    var lines := Split(transcript, ';');
    var accumulated := "";
    var found := false;
    var i := 0;
    while i < |lines|
      invariant 0 <= i <= |lines|
      invariant found == KeySeen(lines[..i])
      invariant accumulated == Padded(Collected(lines[..i]))
    {
      var line := Strip(lines[i]);
      assert lines[..i + 1][..i] == lines[..i];
      if IsKeyQuestion(line) {
        found := true;
      } else if found && StartsWith(line, "human:") {
        var answer := Strip(RemoveAll(line, "human:"));
        if |answer| > 1 {
          accumulated := accumulated + " " + answer;
        }
      }
      i := i + 1;
    }
    assert lines[..|lines|] == lines;
    response := Strip(accumulated);
  }

  /** Without the key question the response is empty. */
  lemma {:induction false} NoKeyQuestionNoAnswers(lines: seq<string>)
    requires !KeySeen(lines)
    ensures Collected(lines) == []
  {
    if lines != [] {
      NoKeyQuestionNoAnswers(lines[..|lines| - 1]);
    }
  }

  /** Every collected answer is stripped and longer than one character. */
  lemma {:induction false} CollectedAnswersTrimmed(lines: seq<string>)
    ensures forall k | 0 <= k < |Collected(lines)| :: |Collected(lines)[k]| > 1 && Trimmed(Collected(lines)[k])
  {
    if lines != [] {
      var init := lines[..|lines| - 1];
      CollectedAnswersTrimmed(init);
      StripIsTrimmed(RemoveAll(Strip(lines[|lines| - 1]), "human:"));
    }
  }

  /** The padded accumulation is a space followed by the answers joined by spaces. */
  lemma {:induction false} PaddedIsJoined(answers: seq<string>)
    requires answers != []
    ensures Padded(answers) == " " + JoinWith(answers, " ")
  {
    var init, x := answers[..|answers| - 1], answers[|answers| - 1];
    assert Padded(answers) == Padded(init) + " " + x;
    if init == [] {
      assert answers == [x];
    } else {
      PaddedIsJoined(init);
      assert init + [x] == answers;
      JoinWithAppend(init, x, " ");
      var j := JoinWith(init, " ");
      assert Padded(answers) == " " + j + " " + x;
      assert " " + j + " " + x == " " + (j + " " + x);
    }
  }

  /** Non-empty stripped pieces joined by a space give a non-empty stripped text. */
  lemma {:induction false} JoinTrimmed(parts: seq<string>)
    requires |parts| >= 1
    requires forall k | 0 <= k < |parts| :: parts[k] != [] && Trimmed(parts[k])
    ensures JoinWith(parts, " ") != [] && Trimmed(JoinWith(parts, " "))
    decreases |parts|
  {
    if |parts| > 1 {
      JoinTrimmed(parts[1..]);
      var rest := JoinWith(parts[1..], " ");
      assert JoinWith(parts, " ") == parts[0] + " " + rest;
      assert (parts[0] + " " + rest)[0] == parts[0][0];
    }
  }

  /**
   * The extracted response is the collected answers joined by single
   * spaces: "" without the key question or without answers after it.
   */
  lemma ClientResponseJoinsAnswers(transcript: string)
    ensures ClientResponse(transcript) == JoinWith(Collected(Split(transcript, ';')), " ")
    ensures !KeySeen(Split(transcript, ';')) ==> ClientResponse(transcript) == ""
    ensures ClientResponse(transcript) == "" <==> Collected(Split(transcript, ';')) == []
  {
    var answers := Collected(Split(transcript, ';'));
    if answers != [] {
      PaddedIsJoined(answers);
      CollectedAnswersTrimmed(Split(transcript, ';'));
      JoinTrimmed(answers);
      StripPadded(" ", JoinWith(answers, " "), "");
      assert " " + JoinWith(answers, " ") + "" == Padded(answers);
    }
    if !KeySeen(Split(transcript, ';')) {
      NoKeyQuestionNoAnswers(Split(transcript, ';'));
    }
  }

  /**
   * The re-ask `break` of the scan is nested under the client-turn test, and
   * a turn that starts with "human:" never starts with "bot:": it never runs.
   */
  lemma ReaskBreakUnreachable(line: string)
    requires StartsWith(line, "human:")
    ensures !StartsWith(line, "bot:")
  {
    assert line[0] == 'h';
  }

  // ---------------------------------------------------------------------
  // _analyze_dialog_for_errors
  // ---------------------------------------------------------------------

  const ChurnConfirmed := "угроза оттока подтверждена"
  const ChurnNotConfirmed := "угроза оттока не подтверждена"

  /**
   * The reason from comparing the client's answer with the recorded status
   * (at most one), given the lower-cased status, the extracted response and
   * whether no reason was recorded before.
   */
  function ChurnReasons(statusLower: string, response: string, noEarlierReason: bool): (rs: seq<string>)
    ensures |rs| <= 1
  {
    if response == "" then []
    else
      var answer := Lower(response);
      if Contains(statusLower, ChurnConfirmed) then
        if PositiveMatch(answer) then
          (if DefinitePositive(answer) then [Categorizer.FalsePositiveChurn] else [])
        else if UnclearMatch(answer) && noEarlierReason then [Categorizer.UncertainChurn]
        else []
      else if Contains(statusLower, ChurnNotConfirmed) then
        if NegativeMatch(answer) && DefiniteNegative(answer) then [Categorizer.FalseNegativeChurn] else []
      else []
  }

  /** The reasons found for one dialog, in the order the rules add them. */
  function DialogReasons(status: string, transcript: string, prompts: string): seq<string>
  {
    if WrongPersonMatch(Lower(transcript)) then [Categorizer.WrongPerson]
    else
      var comm := if HasSeriousPromptProblems(prompts, transcript) then [Categorizer.CommunicationBreakdown] else [];
      var churn := ChurnReasons(Lower(status), ClientResponse(transcript), comm == []);
      var ignored := if CriticalQuestionIgnored(transcript) then [Categorizer.IgnoredQuestions] else [];
      comm + churn + ignored
  }

  /** The reasons of a dialog no wrong-person phrase decides, part by part. */
  lemma ReasonsOfDialog(status: string, transcript: string, prompts: string,
                        comm: seq<string>, churn: seq<string>, ignored: seq<string>)
    requires !WrongPersonMatch(Lower(transcript))
    requires comm == if HasSeriousPromptProblems(prompts, transcript) then [Categorizer.CommunicationBreakdown] else []
    requires churn == ChurnReasons(Lower(status), ClientResponse(transcript), comm == [])
    requires ignored == if CriticalQuestionIgnored(transcript) then [Categorizer.IgnoredQuestions] else []
    ensures DialogReasons(status, transcript, prompts) == comm + churn + ignored
  {
  }

  /** The reasons joined by " | ", or nothing when no rule fired. */
  function Verdict(rs: seq<string>): Option<string>
  {
    if rs == [] then None else Some(JoinWith(rs, Categorizer.Separator))
  }

  /**
   * The step of `_analyze_dialog_for_errors` that compares the client's
   * answer to the key question with the recorded churn status, appending
   * at most one reason.
   */
  method CompareAnswerWithStatus(reasons: seq<string>, statusLower: string, clientResponse: string)
    returns (updated: seq<string>)
    ensures updated == reasons + ChurnReasons(statusLower, clientResponse, reasons == [])
  {
    updated := reasons;
    if clientResponse != "" {
      var answer := Lower(clientResponse);
      if Contains(statusLower, ChurnConfirmed) {
        if PositiveMatch(answer) {
          if DefinitePositive(answer) {
            updated := updated + [Categorizer.FalsePositiveChurn];
          }
        } else if UnclearMatch(answer) && |updated| == 0 {
          updated := updated + [Categorizer.UncertainChurn];
        }
      } else if Contains(statusLower, ChurnNotConfirmed) {
        if NegativeMatch(answer) {
          if DefiniteNegative(answer) {
            updated := updated + [Categorizer.FalseNegativeChurn];
          }
        }
      }
    }
  }

  /** `_analyze_dialog_for_errors`; the recorded result plays no part in it. */
  method AnalyzeDialogForErrors(status: string, result: string, transcript: string, prompts: string)
    returns (reason: Option<string>)
    ensures reason == Verdict(DialogReasons(status, transcript, prompts))
  {
    var reasons: seq<string> := [];
    var statusLower := Lower(status);
    var transcriptLower := Lower(transcript);
    if WrongPersonMatch(transcriptLower) {
      return Some(Categorizer.WrongPerson);
    }
    if HasSeriousPromptProblems(prompts, transcript) {
      reasons := reasons + [Categorizer.CommunicationBreakdown];
    }
    ghost var comm := reasons;
    var clientResponse := ExtractClientResponse(transcript);
    reasons := CompareAnswerWithStatus(reasons, statusLower, clientResponse);
    ghost var churn := ChurnReasons(statusLower, clientResponse, comm == []);
    var ignored := HasCriticalIgnoredQuestions(transcript);
    if ignored {
      reasons := reasons + [Categorizer.IgnoredQuestions];
    }
    ghost var last := if ignored then [Categorizer.IgnoredQuestions] else [];
    assert reasons == comm + churn + last;
    ReasonsOfDialog(status, transcript, prompts, comm, churn, last);
    if |reasons| == 0 {
      return None;
    }
    return Some(JoinWith(reasons, Categorizer.Separator));
  }
}

module AnalyzerRules {
  import opened Text
  import opened Analyzer
  import Categorizer

  /** Where a reason stands in the rule order of the evaluator. */
  function Rank(reason: string): int
  {
    if reason == Categorizer.WrongPerson then 0
    else if reason == Categorizer.CommunicationBreakdown then 1
    else if reason == Categorizer.IgnoredQuestions then 3
    else 2
  }

  /**
   * A wrong-person phrase decides the dialog alone: the finding is exactly
   * the wrong-person reason, whatever the status and the prompts say.
   */
  lemma WrongPersonShortCircuits(status: string, transcript: string, prompts: string)
    requires WrongPersonMatch(Lower(transcript))
    ensures DialogReasons(status, transcript, prompts) == [Categorizer.WrongPerson]
    ensures Verdict(DialogReasons(status, transcript, prompts)) == Some(Categorizer.WrongPerson)
  {
  }

  /**
   * Reasons come in the rule order (communication, then the churn reason,
   * then ignored questions), each at most once, all of them category labels.
   */
  lemma ReasonsInRuleOrder(status: string, transcript: string, prompts: string)
    ensures var rs := DialogReasons(status, transcript, prompts);
            |rs| <= 3 &&
            (forall i | 0 <= i < |rs| :: Categorizer.IsCategory(rs[i])) &&
            (forall i, j | 0 <= i < j < |rs| :: Rank(rs[i]) < Rank(rs[j]))
  {
    if !WrongPersonMatch(Lower(transcript)) {
      var comm := if HasSeriousPromptProblems(prompts, transcript) then [Categorizer.CommunicationBreakdown] else [];
      var churn := ChurnReasons(Lower(status), ClientResponse(transcript), comm == []);
      var ignored := if CriticalQuestionIgnored(transcript) then [Categorizer.IgnoredQuestions] else [];
      OrderedParts(comm, churn, ignored);
    }
  }

  /** A communication part, a churn part and an ignored-questions part, concatenated, keep the rule order. */
  lemma OrderedParts(comm: seq<string>, churn: seq<string>, ignored: seq<string>)
    requires comm == [] || comm == [Categorizer.CommunicationBreakdown]
    requires churn == [] || churn == [Categorizer.FalsePositiveChurn] ||
             churn == [Categorizer.UncertainChurn] || churn == [Categorizer.FalseNegativeChurn]
    requires ignored == [] || ignored == [Categorizer.IgnoredQuestions]
    ensures var rs := comm + churn + ignored;
            |rs| <= 3 &&
            (forall i | 0 <= i < |rs| :: Categorizer.IsCategory(rs[i])) &&
            (forall i, j | 0 <= i < j < |rs| :: Rank(rs[i]) < Rank(rs[j]))
  {
    var rs := comm + churn + ignored;
    forall i | 0 <= i < |rs| ensures Categorizer.IsCategory(rs[i]) && Rank(rs[i]) == RankOfPart(comm, churn, rs, i) {
      if i < |comm| {
        assert rs[i] == comm[i];
      } else if i < |comm| + |churn| {
        assert rs[i] == churn[i - |comm|];
      } else {
        assert rs[i] == ignored[i - |comm| - |churn|];
      }
    }
  }

  /** The rank a position of comm + churn + ignored must have: 1, 2 or 3 by the part it lies in. */
  function RankOfPart(comm: seq<string>, churn: seq<string>, rs: seq<string>, i: int): int
  {
    if i < |comm| then 1 else if i < |comm| + |churn| then 2 else 3
  }

  /** The verdict is None exactly when no rule fired. */
  lemma NoneIffNoRuleFired(status: string, transcript: string, prompts: string)
    ensures Verdict(DialogReasons(status, transcript, prompts)).None? <==>
              !WrongPersonMatch(Lower(transcript)) &&
              !HasSeriousPromptProblems(prompts, transcript) &&
              ChurnReasons(Lower(status), ClientResponse(transcript), !HasSeriousPromptProblems(prompts, transcript)) == [] &&
              !CriticalQuestionIgnored(transcript)
  {
  }

  /** The communication reason comes from the prompt log alone. */
  lemma CommunicationGate(status: string, transcript: string, prompts: string)
    ensures Categorizer.CommunicationBreakdown in DialogReasons(status, transcript, prompts) <==>
              !WrongPersonMatch(Lower(transcript)) && HasSeriousPromptProblems(prompts, transcript)
  {
  }

  /**
   * A false churn needs a confirmed-churn status, an answer to the key
   * question that the positive pattern matches, and a definite "да".
   */
  lemma FalsePositiveGate(status: string, transcript: string, prompts: string)
    ensures var answer := ClientResponse(transcript);
            Categorizer.FalsePositiveChurn in DialogReasons(status, transcript, prompts) <==>
              !WrongPersonMatch(Lower(transcript)) && answer != "" &&
              Contains(Lower(status), ChurnConfirmed) &&
              PositiveMatch(Lower(answer)) && DefinitePositive(Lower(answer))
  {
    ChurnGate(status, transcript, prompts, Categorizer.FalsePositiveChurn);
    ChurnReasonCases(Lower(status), ClientResponse(transcript), !HasSeriousPromptProblems(prompts, transcript));
  }

  /**
   * An uncertain churn needs a confirmed-churn status, an answer the positive
   * pattern misses and the unclear pattern matches, and no earlier reason.
   */
  lemma UncertainGate(status: string, transcript: string, prompts: string)
    ensures var answer := ClientResponse(transcript);
            Categorizer.UncertainChurn in DialogReasons(status, transcript, prompts) <==>
              !WrongPersonMatch(Lower(transcript)) && answer != "" &&
              Contains(Lower(status), ChurnConfirmed) &&
              !PositiveMatch(Lower(answer)) && UnclearMatch(Lower(answer)) &&
              !HasSeriousPromptProblems(prompts, transcript)
  {
    ChurnGate(status, transcript, prompts, Categorizer.UncertainChurn);
    ChurnReasonCases(Lower(status), ClientResponse(transcript), !HasSeriousPromptProblems(prompts, transcript));
  }

  /**
   * A refusal under a not-confirmed status needs the status not to read as
   * confirmed, a negative-pattern match and a definite "нет" or "не".
   */
  lemma FalseNegativeGate(status: string, transcript: string, prompts: string)
    ensures var answer := ClientResponse(transcript);
            Categorizer.FalseNegativeChurn in DialogReasons(status, transcript, prompts) <==>
              !WrongPersonMatch(Lower(transcript)) && answer != "" &&
              !Contains(Lower(status), ChurnConfirmed) && Contains(Lower(status), ChurnNotConfirmed) &&
              NegativeMatch(Lower(answer)) && DefiniteNegative(Lower(answer))
  {
    ChurnGate(status, transcript, prompts, Categorizer.FalseNegativeChurn);
    ChurnReasonCases(Lower(status), ClientResponse(transcript), !HasSeriousPromptProblems(prompts, transcript));
  }

  /** A churn label is among the reasons exactly when the comparison with the status gave it. */
  lemma ChurnGate(status: string, transcript: string, prompts: string, reason: string)
    requires reason == Categorizer.FalsePositiveChurn || reason == Categorizer.UncertainChurn ||
             reason == Categorizer.FalseNegativeChurn
    ensures reason in DialogReasons(status, transcript, prompts) <==>
              !WrongPersonMatch(Lower(transcript)) &&
              reason in ChurnReasons(Lower(status), ClientResponse(transcript), !HasSeriousPromptProblems(prompts, transcript))
  {
    assert |reason| in {27, 33, 39};
    if WrongPersonMatch(Lower(transcript)) {
      assert |Categorizer.WrongPerson| == 23;
    } else {
      var comm := if HasSeriousPromptProblems(prompts, transcript) then [Categorizer.CommunicationBreakdown] else [];
      var churn := ChurnReasons(Lower(status), ClientResponse(transcript), comm == []);
      var ignored := if CriticalQuestionIgnored(transcript) then [Categorizer.IgnoredQuestions] else [];
      assert |Categorizer.CommunicationBreakdown| == 31 && |Categorizer.IgnoredQuestions| == 34;
      InMiddlePart(comm, churn, ignored, reason);
    }
  }

  /** Which churn reason the comparison with the status gives, case by case. */
  lemma ChurnReasonCases(statusLower: string, response: string, noEarlierReason: bool)
    ensures var rs, answer := ChurnReasons(statusLower, response, noEarlierReason), Lower(response);
      (Categorizer.FalsePositiveChurn in rs <==>
         response != "" && Contains(statusLower, ChurnConfirmed) && PositiveMatch(answer) && DefinitePositive(answer)) &&
      (Categorizer.UncertainChurn in rs <==>
         response != "" && Contains(statusLower, ChurnConfirmed) && !PositiveMatch(answer) && UnclearMatch(answer) &&
         noEarlierReason) &&
      (Categorizer.FalseNegativeChurn in rs <==>
         response != "" && !Contains(statusLower, ChurnConfirmed) && Contains(statusLower, ChurnNotConfirmed) &&
         NegativeMatch(answer) && DefiniteNegative(answer))
  {
    assert |Categorizer.FalsePositiveChurn| == 33 && |Categorizer.UncertainChurn| == 27 && |Categorizer.FalseNegativeChurn| == 39;
  }

  /** A value that is in neither outer part is in the concatenation exactly when it is in the middle one. */
  lemma InMiddlePart(comm: seq<string>, churn: seq<string>, ignored: seq<string>, x: string)
    requires x !in comm && x !in ignored
    ensures x in comm + churn + ignored <==> x in churn
  {
  }

  /** At most one of the three churn reasons is found for a dialog. */
  lemma ChurnReasonsExclusive(status: string, transcript: string, prompts: string)
    ensures var rs := DialogReasons(status, transcript, prompts);
            !(Categorizer.FalsePositiveChurn in rs && Categorizer.FalseNegativeChurn in rs) &&
            !(Categorizer.FalsePositiveChurn in rs && Categorizer.UncertainChurn in rs) &&
            !(Categorizer.UncertainChurn in rs && Categorizer.FalseNegativeChurn in rs)
  {
    if !WrongPersonMatch(Lower(transcript)) {
      var comm := if HasSeriousPromptProblems(prompts, transcript) then [Categorizer.CommunicationBreakdown] else [];
      var churn := ChurnReasons(Lower(status), ClientResponse(transcript), comm == []);
      var ignored := if CriticalQuestionIgnored(transcript) then [Categorizer.IgnoredQuestions] else [];
      ExclusiveParts(comm, churn, ignored);
    }
  }

  lemma ExclusiveParts(comm: seq<string>, churn: seq<string>, ignored: seq<string>)
    requires comm == [] || comm == [Categorizer.CommunicationBreakdown]
    requires |churn| <= 1
    requires ignored == [] || ignored == [Categorizer.IgnoredQuestions]
    ensures var rs := comm + churn + ignored;
            !(Categorizer.FalsePositiveChurn in rs && Categorizer.FalseNegativeChurn in rs) &&
            !(Categorizer.FalsePositiveChurn in rs && Categorizer.UncertainChurn in rs) &&
            !(Categorizer.UncertainChurn in rs && Categorizer.FalseNegativeChurn in rs)
  {
    assert |Categorizer.FalsePositiveChurn| == 33 && |Categorizer.UncertainChurn| == 27 && |Categorizer.FalseNegativeChurn| == 39;
    assert |Categorizer.CommunicationBreakdown| == 31 && |Categorizer.IgnoredQuestions| == 34;
  }

  /**
   * Ignored critical questions are found from the transcript alone, whether
   * or not the key question was asked and whatever the status.
   */
  lemma IgnoredQuestionsGate(status: string, transcript: string, prompts: string)
    ensures Categorizer.IgnoredQuestions in DialogReasons(status, transcript, prompts) <==>
              !WrongPersonMatch(Lower(transcript)) && CriticalQuestionIgnored(transcript)
  {
  }
}

/**
 * How the analyzer's findings are categorized: every reason the analyzer
 * gives is a category label, so a finding's category is the reason it
 * gives that comes first by the classifier's priority.
 */
module FindingCategory {
  import opened Text
  import opened Analyzer
  import opened Categorizer

  /** Every reason the analyzer gives for a dialog is one of the six labels. */
  lemma ReasonsAreLabels(status: string, transcript: string, prompts: string)
    ensures forall m | 0 <= m < |DialogReasons(status, transcript, prompts)| ::
              IsCategory(DialogReasons(status, transcript, prompts)[m])
  {
    assert Priority[0] == WrongPerson && Priority[1] == FalsePositiveChurn;
    assert Priority[2] == FalseNegativeChurn && Priority[3] == UncertainChurn;
    assert Priority[4] == CommunicationBreakdown && Priority[5] == IgnoredQuestions;
  }

  /**
   * A dialog the analyzer flags is categorized as the highest-priority
   * reason it was flagged for: a wrong person above all, then a false
   * churn, a missed churn, an uncertain churn, a communication breakdown,
   * and ignored questions last.
   */
  lemma FindingCategoryIsFirstReason(status: string, transcript: string, prompts: string)
    requires DialogReasons(status, transcript, prompts) != []
    ensures exists k | 0 <= k < |Priority| :: Priority[k] in DialogReasons(status, transcript, prompts)
    ensures var rs := DialogReasons(status, transcript, prompts);
            DetermineCategory(JoinWith(rs, Separator)) == Priority[FirstListed(Priority, rs)]
  {
    ReasonsAreLabels(status, transcript, prompts);
    JoinedLabelsCategory(DialogReasons(status, transcript, prompts));
  }
}
