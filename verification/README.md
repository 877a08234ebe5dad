# FlipclassExamBot core, modelled in Dafny

FlipclassExamBot logs in to a Flipclass course, opens an exam's read-only answer
view, and reads the marked answers with `extract_answers.js`. It then fills the
live exam with `fill_answers.js`, deliberately getting enough questions wrong to
land on a target score, waits out a countdown and submits. A small registry
(`TaskExecutor`) keeps one task configuration per table row and runs at most
one job per account. `Answer2Exam.js` is a companion user script with a clock,
an answered-question counter and an answer collector.

This project models the parts of that system that are logic rather than
browser driving:

- **Task registry** (`task_types.dfy`, `task_executor.dfy`). The registry is a
  row → configuration map plus a map from account to "job alive".
  - Every `TaskExecutor` method is a pure transition on that state.
  - Starting a job (`ExecuteTask`) and its end (`Complete`) are separate steps.
  - `TaskConfig.update(**kwargs)` is a keyword map applied to the record.
- **Answer encoder and decoder** (`page.dfy`, `extract_answers.dfy`,
  `answer_parser.dfy`, `answer_round_trip.dfy`).
  - Question items are abstract records: id, type, choice inputs, text fields
    and blank previews. A choice input carries its kind, label text, `name`
    attribute (its radio group), checked state and value.
  - Setting `checked` on a radio button unchecks the other radio buttons of its
    group. The fill rules are stated with that effect.
  - The extractor writes `id - a, b, c` lines. The parser shared by both fill
    scripts reads them back into a map.
  - The two are proved to be inverse for clean ids and answers.
- **Fill rules** (`fill_answers.dfy`, `fill_answers_old.dfy`, `pipeline.dfy`).
  - The current script: target validation, the correct/wrong question counts,
    the random choice of questions to get wrong, and the per-type fill rules.
  - The older script: exact matching and a built-in answer literal.
  - `pipeline.dfy` joins extractor and fill script as the bot runs them.
- **Pure helpers** (`exam_bot.dfy`, `exam_page.dfy`).
  - From `FlipclassExamBot.py`: the answer-URL rewrite, the account check, the
    countdown schedule and messages, and the success logic of `login` and `run`.
  - From `Answer2Exam.js`: the clock text and its tick, the answered counter,
    the unanswered check and the answer collector.

Shared modules: `wrappers.dfy` (`Option`), `sets.dfy` (cardinality facts) and
`text.dfy`. `text.dfy` models the JavaScript/Python string primitives the
scripts use: `trim` with JavaScript's whitespace set, `split`, `join`,
`toString`, `padStart` and the option-letter regex.

`Math.random` is an oracle:
- the wrong-question loop draws `ids[r % |ids|]` for successive `r` of a stream;
- a stream that runs out before enough distinct ids are drawn stands for a loop
  that has not ended (`Endless`);
- the wrong option of question `k` is chosen by `picks[k]`.

Browser step outcomes (did the wait time out, did the script return something)
are fields of a `Session` record.

Two points where the model follows the code rather than its comments or the obvious reading:

- Round trip of ids. An id that merely avoids `" - "` does not survive the trip.
  The id `a -` is written as `a - - x` and read back as `a`. The round trip is
  therefore stated for ids without `" -"` and answers without `"- "`.
- Timer prompt. The comments of `Answer2Exam.js` say the preset is 0, which
  means asking the user for a duration. The code sets it to 10 minutes, so the
  prompt never runs and the timer always starts at 600 seconds.

## Model

| member | source | states |
|---|---|---|
| TaskTypes.Label | task_types.py:5-10 | every status has a label, and that label reads back as the same status, so a label names one status |
| TaskTypes.LabelsDistinct | task_types.py:5-10 | the four status labels are pairwise distinct |
| TaskTypes.Update | task_types.py:22-26 | a keyword naming a field sets exactly that field to the given value; every field not named keeps its old value |
| TaskTypes.UnknownKeywordsIgnored | task_types.py:22-26 | an update whose keywords name no field (including the empty update) leaves the configuration unchanged |
| TaskTypes.OnlyFieldNamesMatter | task_types.py:22-26 | dropping the keywords that name no attribute does not change the result of an update |
| TaskTypes.UpdateIdempotent | task_types.py:22-26 | applying the same update twice equals applying it once |
| TaskTypes.UpdatesCommute | task_types.py:22-26 | updates with disjoint keyword sets can be applied in either order |
| TaskExecutor.GetTaskConfig | task_executor.py:98-101 | a configuration is returned exactly when the row is present, and it is that row's configuration |
| TaskExecutor.IsTaskRunningGuards | task_executor.py:93-96 | for a present row, the account's job being live (`is_task_running`) is exactly what makes starting the row do nothing and exactly what makes its removal fail |
| TaskExecutor.AddTask | task_executor.py:15-18 | after adding, the row reads back the new configuration, overwriting any old one; every other row and the job records are unchanged |
| TaskExecutor.AddThenGet | task_executor.py:15-18 | a configuration added to a row and then read back is the one added |
| TaskExecutor.Reindex | task_executor.py:35-42 | rows below the removed index keep their index, rows above move up by one with identical configurations, and the map keeps its size (no two rows merge) |
| TaskExecutor.RemoveTask | task_executor.py:20-44 | fails with nothing changed exactly when the row is absent or its account has a live job; on success the row is gone, the others are renumbered without loss or merging, the table shrinks by exactly one and the account's stale job record is dropped |
| TaskExecutor.RemoveKeepsOthers | task_executor.py:30-42 | after a successful removal every other row's configuration is still present, at its shifted index |
| TaskExecutor.ExecuteTask | task_executor.py:46-91 | does nothing and reports nothing exactly when the row is absent or its account has a live job; otherwise reports the row as running, records the account's job as live, leaves the configurations alone and hands back the captured row and configuration |
| TaskExecutor.Complete | task_executor.py:63-84 | drops the account's job record; reports completed exactly when the run returned true and failed otherwise, at the row captured at start; sends two error messages (error text, traceback) exactly when the run raised and a callback is set |
| TaskExecutor.UpdateTaskConfig | task_executor.py:103-109 | succeeds exactly when the row is present; then only that row changes, by the configuration's own update rule |
| TaskExecutor.Cleanup | task_executor.py:111-118 | no configuration and no job record is left |
| TaskExecutor.LiveJobBlocks | task_executor.py:20-57 | while a job runs, its row cannot be removed and its account cannot be started again from any row |
| TaskExecutor.CompleteReleases | task_executor.py:46-84 | once the job has completed, the same row can be started again |
| TaskExecutor.ReportUsesCapturedRow | task_executor.py:35-84 | if an earlier row is removed while a job runs, the final status still goes to the captured index, which now holds the configuration that sat one row further down |
| TaskExecutor.RenamedRowEscapesGuard | task_executor.py:26-33 | the removal guard reads the row's current account: after a running row's account is changed, the row can be removed while its job is still live |
| ExamBot.Grouped | FlipclassExamBot.py:125 | grouping the query by name, as `parse_qs` does, keeps exactly the same name/value pairs |
| ExamBot.GroupedIdempotent | FlipclassExamBot.py:125 | grouping an already grouped query changes nothing |
| ExamBot.KeptPairs | FlipclassExamBot.py:125-126 | keeps exactly the `key` and `title` pairs with a non-empty value (`parse_qs` drops blank values) |
| ExamBot.ModifyUrl | FlipclassExamBot.py:123-129 | scheme, host, path, params and fragment pass through; the query has exactly one `mode` parameter, valued `view`; the `key` and `title` values are kept in order; every other parameter is gone |
| ExamBot.ModifyUrlIdempotent | FlipclassExamBot.py:123-129 | rewriting an already rewritten answer URL gives the same URL |
| ExamBot.ValidateAccount | FlipclassExamBot.py:359-361 | a definition, nothing derived: the source's one-line check that an account has exactly 8 characters |
| ExamBot.Steps | FlipclassExamBot.py:222 | the countdown visits total, total−5, … while positive: ⌈total/5⌉ values |
| ExamBot.RemainingText | FlipclassExamBot.py:223-229 | the text starts with the remaining-time prefix and ends in `秒`; it has a minutes part (`分`) exactly when at least 60 seconds remain |
| ExamBot.CountdownNotice | FlipclassExamBot.py:223-237 | the message is a warning exactly when at most 30 seconds remain |
| ExamBot.Notices | FlipclassExamBot.py:222-237 | one message per countdown step, the i-th for total − 5i seconds remaining |
| ExamBot.Sleeps | FlipclassExamBot.py:238 | each step sleeps five seconds, or what remains when that is less |
| ExamBot.SleepsCoverTotal | FlipclassExamBot.py:218-239 | the sleeps add up to exactly the total waiting time |
| ExamBot.WarningsAreLast | FlipclassExamBot.py:231-235 | the warnings are exactly the messages of the last 30 seconds |
| ExamBot.NoticeShowsRemaining | FlipclassExamBot.py:223-229 | reading a message back (the seconds form below a minute, the `mm分ss秒` form otherwise) gives the seconds remaining |
| ExamBot.NoticesDiffer | FlipclassExamBot.py:223-235 | different remaining times give different messages |
| ExamBot.Login | FlipclassExamBot.py:53-103 | login succeeds exactly when the form was submitted and both the keep-login prompt and the dashboard appear; it returns None exactly when the prompt path fails and an error element is present but hidden |
| ExamBot.Run | FlipclassExamBot.py:299-357 | the run succeeds exactly when every browser step succeeds, login returns exactly true and the answer view holds a multiple-choice or fill-in-the-blank question, so the extracted text is non-empty |
| ExamBot.ExtractEmptyIffNothingReported | FlipclassExamBot.py:326-329 | the extractor returns an empty text exactly when the view has no multiple-choice or fill-in-the-blank question |
| ExamBot.ScoreIgnored | FlipclassExamBot.py:344-348 | a failed score read does not change the run's result |
| ExamBot.LoginNoneStops | FlipclassExamBot.py:304-306 | a login that returns None stops the run as a failed one does |
| Text.Trim | fill_answers.js:8 | the result has no surrounding whitespace, is no longer than the input, and an already trimmed string is unchanged |
| Text.TrimIsSlice | fill_answers.js:8 | the trimmed text is one contiguous slice of the input, and everything before and after that slice is whitespace; with the clause above this pins the result down |
| Text.Split | fill_answers.js:9 | splitting gives at least one piece, and joining the pieces with the separator gives back the input |
| Text.SplitCutsLeftmost | fill_answers.js:9 | the first piece ends at the leftmost occurrence of the separator, or is the whole input when there is none |
| Text.SplitPiecesFree | fill_answers.js:9 | no piece contains the separator; with the join clause this makes the pieces exactly those of `String.prototype.split` |
| Text.SplitJoinChar | fill_answers.js:8 | splitting on a character undoes joining on it when no piece holds that character |
| Text.SplitTrimJoin | fill_answers.js:11 | splitting a `", "`-joined list on `,` and trimming each piece gives back the list of trimmed, comma-free items |
| Text.StripOptionLetter | extract_answers.js:28 | a leading capital letter, a dot and the whitespace after them are removed; any other text is unchanged |
| Text.Pad2 | Answer2Exam.js:47-50 | the padded digits read back as the number, and a number below 100 takes exactly two digits |
| Text.ParseDecimalOfDecimal | FlipclassExamBot.py:227 | a number's decimal text reads back as the number |
| ExtractAnswers.MarkedKind | extract_answers.js:17-22 | checkboxes are read exactly when the question has a checkbox input; radio buttons otherwise |
| ExtractAnswers.CheckedOf | extract_answers.js:20-22 | the selected inputs are exactly the checked inputs of the marked kind |
| ExtractAnswers.CheckedOfAppend | extract_answers.js:20-22 | selecting from two parts in sequence gives the first part's selection followed by the second's, so the selection keeps document order and multiplicity |
| ExtractAnswers.AnswerList | extract_answers.js:15-37 | a multiple-choice question's answers are the option texts of its checked inputs of the marked kind, one per input and in document order; a fill-in-the-blank question's are its trimmed previews, one per preview, in order |
| ExtractAnswers.AnswerText | extract_answers.js:30-38 | the text after the separator is never empty: the joined answers, or the type's fallback text when the join is empty |
| ExtractAnswers.Entries | extract_answers.js:8-40 | every multiple-choice or fill-in-the-blank question gives an entry, and every entry comes from such a question |
| ExtractAnswers.Extract | extract_answers.js:8-44 | the output is empty exactly when no question is multiple choice or fill-in-the-blank, and a non-empty output ends with a line break |
| ExtractAnswers.ExtractRendersEntries | extract_answers.js:8-40 | the output is exactly one `id - answers` line per reportable question, in document order, and nothing for the others |
| AnswerParser.ParseLine | fill_answers.js:9-12 | an accepted line gives a trimmed id and a non-empty list of trimmed answers |
| AnswerParser.Parse | fill_answers.js:8-14 | every parsed id is trimmed and maps to a non-empty list of trimmed answers |
| AnswerParser.AddLinesIsLatest | fill_answers.js:8-14 | folding the lines keeps, for every id, the answers of the last line carrying it, and no other ids |
| AnswerParser.ParseKeepsLastLine | fill_answers.js:8-14 | the parsed map has exactly the ids of the accepted lines, a later line overwriting an earlier one |
| AnswerParser.LineWithoutSeparator | fill_answers.js:9-10 | a line without `" - "` is ignored |
| AnswerParser.LineWithoutId | fill_answers.js:9-10 | a line starting with the separator has an empty id and is ignored |
| AnswerParser.BlankInputParsesEmpty | fill_answers_old.js:3-15 | text made only of whitespace parses to the empty map |
| AnswerRoundTrip.LineRoundTrip | extract_answers.js:31-38 | a clean entry's line parses back to exactly its id and answers |
| AnswerRoundTrip.RoundTrip | fill_answers.js:8-14 | the parser reads back exactly the id → answers map of clean entries, a later entry overriding an earlier one |
| AnswerRoundTrip.ExtractThenParse | extract_answers.js:8-40 | for distinct clean ids, parsing the extractor's output maps each reportable question's id to its reported answers (the fallback text when none), and holds no other id |
| Page.FillInOrder | fill_answers.js:95-102 | only values change: the matched field of rank k takes answer k while answers last, and every other field keeps its value |
| Page.SetMatched | fill_answers.js:90-94 | every matched field takes the given text, and only its value changes; unmatched fields are untouched |
| Page.SetMatchedSettles | fill_answers.js:90-94 | setting the matched fields keeps the number of matched fields and every field's rank, and setting them again to the same text changes nothing |
| Page.Check | fill_answers.js:72 | checking an input checks it and unchecks the other radio buttons of its group (same `name`); nothing else changes |
| Page.CheckHits | fill_answers.js:79-84 | checking the hit inputs in order leaves a checkbox checked when it was or is hit; in a radio group with a hit exactly the last hit member is checked; a group without a hit keeps its state; only checked states change |
| Page.OptionTextTrimmed | fill_answers.js:66 | an option text never has edge whitespace |
| FillAnswers.Ceil | fill_answers.js:30 | the least integer not below its argument |
| FillAnswers.CorrectNeeded | fill_answers.js:30 | the fewest correct answers whose share of the total reaches the target percentage, and between 0 and the total for a valid target |
| FillAnswers.WrongNeeded | fill_answers.js:31 | for a valid target, between 0 and the total; none at 100, all at 0 |
| FillAnswers.PickWrong | fill_answers.js:36-46 | when the loop ends, it has exactly the needed number of distinct ids, all question ids, extending what was already chosen |
| FillAnswers.PickWrongCanFinish | fill_answers.js:39-45 | with distinct ids some sequence of draws ends the loop |
| FillAnswers.PickWrongNeverFinishes | fill_answers.js:39-45 | with fewer distinct ids than wrong answers needed, no sequence of draws ends the loop |
| FillAnswers.Misses | fill_answers.js:65-68 | exactly the positions whose mask entry is unset, each once and in increasing order; applied to the match mask these are the options whose lower-cased text is not among the lower-cased answers |
| FillAnswers.CheckMatches | fill_answers.js:77-84 | a correctly answered question: a checkbox ends up checked when it was or matches; in a radio group with a matching member, a member ends up checked exactly when it matches and no later member of its group does; a group without one keeps its state; only checked states change |
| FillAnswers.MatchingInputChecked | fill_answers.js:77-84 | a matching checkbox ends up checked, and a matching radio button ends up checked exactly when no later member of its group matches |
| FillAnswers.CheckWrong | fill_answers.js:65-76 | a wrongly answered question: when some option does not match, one non-matching option ends up checked, the other members of its radio group unchecked and every other option unchanged; when all match, every option is unchecked |
| FillAnswers.FillChoices | fill_answers.js:59-85 | filling choices changes only checked states |
| FillAnswers.FillBlanks | fill_answers.js:86-102 | answered wrongly, every matched field becomes a single space; answered correctly, the field of rank k takes answer k while answers last; unmatched fields are untouched |
| FillAnswers.FillQuestion | fill_answers.js:49-105 | a question without parsed answers, or of another type, is untouched; otherwise its choices or fields are filled by the rules above, right or wrong by its membership in the wrong set |
| FillAnswers.Fill | fill_answers.js:1-109 | an invalid target is rejected before anything is touched; otherwise the wrong set has exactly the wrong count of distinct question ids; at target 100 nothing is drawn and every question is answered correctly |
| FillAnswers.FillCanFinish | fill_answers.js:36-46 | with a valid target and distinct ids the script can finish |
| FillAnswers.FillHangsOnRepeatedIds | fill_answers.js:36-46 | with fewer distinct ids than wrong answers needed, the script never finishes |
| FillAnswersOld.CheckMatching | fill_answers_old.js:28-40 | one pass per answer, each checking the options whose text equals that answer exactly (case-sensitively): a checkbox ends up checked when it was or matches some answer; a radio group no answer matches keeps its state, otherwise the checked member is the last member matching the last answer that matches the group; only checked states change |
| FillAnswersOld.CheckMatchingIdempotent | fill_answers_old.js:28-40 | running the rule again with the same answers changes nothing |
| FillAnswersOld.ExactMatchIsMatch | fill_answers_old.js:36 | against trimmed answers, an exact match is also a case-insensitive match of the newer script |
| FillAnswersOld.OldCheckboxCheckedByNew | fill_answers_old.js:33-39 | with parsed answers, a checkbox the old rule checks is checked by the newer rule too |
| FillAnswersOld.OldFillQuestion | fill_answers_old.js:21-54 | a question without parsed answers, or of another type, is untouched; otherwise only its choices or fields change |
| FillAnswersOld.OldFillIdempotent | fill_answers_old.js:21-54 | running the old script twice equals running it once |
| Page.FillInOrderIdempotent | fill_answers_old.js:46-51 | filling the blanks twice with the same answers equals filling once |
| Page.SameRank | fill_answers_old.js:46-51 | changing field values alone does not change any field's rank among the matched fields |
| FillAnswersOld.ShippedScriptChangesNothing | fill_answers_old.js:3-15 | the literal the script ships with parses to nothing, so running the script leaves every question as it was |
| Pipeline.FullMarksChecksViewedOptions | fill_answers.js:77-84 | at full marks the script finishes, and an exam option whose text is that of an option marked on the answer view under the same id ends up checked when it is a checkbox, and when it is a radio button exactly when no later member of its group matches too |
| Pipeline.FullMarksFillsViewedBlanks | fill_answers.js:95-102 | at full marks, the k-th matched field of an exam blank takes the k-th trimmed preview of the answer view |
| Pipeline.UnreportedUntouched | fill_answers.js:49-53 | an exam question whose id the answer view does not report is left as it was |
| ExamPage.FormatClock | Answer2Exam.js:43-50 | the clock has the `HH:MM:SS` shape: colons six and three places from the end, exactly eight characters below 100 hours |
| ExamPage.ClockRoundTrip | Answer2Exam.js:43-50 | reading the clock back gives the seconds displayed |
| ExamPage.ClockTextsDiffer | Answer2Exam.js:43-50 | different times give different clock texts |
| ExamPage.DisplayText | Answer2Exam.js:47-56 | a clock display reads back as the time it shows |
| ExamPage.Tick | Answer2Exam.js:41-59 | a running timer with time left shows the current time and counts down by one; at zero it stops and shows the time-up notice; a stopped timer never changes |
| ExamPage.TicksCountDown | Answer2Exam.js:42-53 | k ticks on a running timer take k seconds off and show the time before the last decrement |
| ExamPage.StoppedStays | Answer2Exam.js:54-56 | a stopped timer stays as it is |
| ExamPage.TicksSplit | Answer2Exam.js:41-59 | a ticks followed by b ticks is a + b ticks |
| ExamPage.PresetTimeline | Answer2Exam.js:25-59 | from the 10-minute preset, 600 ticks reach zero showing `00:00:01`, and any later tick has stopped the timer on the time-up notice |
| ExamPage.HasChecked | Answer2Exam.js:279-282 | true exactly when some input is checked |
| ExamPage.Filled | Answer2Exam.js:285-291 | true exactly when every text input and textarea holds non-whitespace (vacuously when there are none) |
| ExamPage.AnsweredCount | Answer2Exam.js:271-300 | counts exactly the answered questions (a checked choice, or fully filled blanks; never another type), is at most the number of questions, and equals it exactly when all are answered |
| ExamPage.AnsweredCountBound | Answer2Exam.js:271-300 | the answered questions number at most all questions, and all of them exactly when every question is answered |
| ExamPage.CheckUnanswered | Answer2Exam.js:303-315 | true exactly when some multiple-choice question has no checked input |
| ExamPage.NoUnansweredChoice | Answer2Exam.js:303-315 | when the unanswered check is false, every multiple-choice question is counted as answered |
| ExamPage.FirstChecked | Answer2Exam.js:327-330 | nothing exactly when no input is checked; otherwise the value of the first checked input |
| ExamPage.CollectOf | Answer2Exam.js:322-337 | other types give nothing; a multiple-choice question gives something exactly when an input is checked, and then the value of the first checked input; a blank question gives its trimmed values exactly when there is one and some is non-empty, and then those values |
| ExamPage.CollectAnswers | Answer2Exam.js:318-341 | the collected map has an entry exactly for the ids some question contributes, and each holds what the last such question contributes |
| ExamPage.LastCollectedPresent | Answer2Exam.js:318-341 | a question that contributes puts its id in the collected map |
| ExamPage.LastCollectedDistinct | Answer2Exam.js:318-341 | with distinct ids, each id's entry is exactly what its question contributes |
| ExamPage.LastCollectedAbsent | Answer2Exam.js:318-341 | an id no question carries is absent |

## Left out

- Threads, locks, `is_alive()` and the one-second `join` timeouts in the registry. A job is live exactly while its account is recorded as alive. `ExecuteTask` is one atomic step, which is stronger than the code: the code checks "not running" and records the thread in separate critical sections, so two concurrent starts of one account are not modelled.
- The status callback and the print callback are not called. Their calls become the `reports` and `messages` that the registry transitions return. Callbacks are identified by an opaque `Sink`.
- TaskTypes.Update: only keywords naming one of the six fields, with values of the field's type, are modelled. `hasattr` also accepts method and dunder names, and Python accepts values of any type. Both are left out.
- Selenium work is reduced to success flags in `Session`: browser setup, page loads, element waits, clicks, script file loading, `driver.quit`, anti-blur injection and score scraping. Of `login`, only the branch structure over the three page observations is kept.
- `print_message` formatting and timestamps, and the first and last messages of `wait_before_submit` (their `.1f` format is floating point).
- `round(answer_time * 60)` is left out; the countdown takes the total seconds as a natural number.
- FillAnswers.CorrectNeeded: computed on exact rationals. The JavaScript `(target / 100) * total` in floating point can land just above an integer, and `Math.ceil` then rounds up one more. That divergence is not modelled.
- A target that is not a number: `isNaN` has no counterpart because a real is never NaN. The alert shown for an invalid target is not modelled; the outcome is `InvalidTarget`.
- `Math.random` is an oracle stream. Only facts that hold for every stream are proved, or facts about the existence of a stream.
- JavaScript object keys are looked up as plain strings. The inherited prototype keys a DOM id could collide with (`constructor`, `__proto__`) are not modelled.
- Radio groups are the inputs of one question sharing a `name` attribute (the `group` field). Groups spanning questions and the form-owner scope of the HTML standard are not modelled.
- Page.Check: radio buttons whose `name` is empty or missing are treated as one group, so checking one of them unchecks the others. In a browser an unnamed radio button forms no group with any other. The same grouping feeds CheckHits, CheckMatches, CheckWrong and the older script's CheckMatching.
- TaskExecutor.Complete: reads `print_callback` from the configuration captured at start. The source reads the shared configuration object when the job ends, so an `update_task_config` made while the job runs is seen by the source and not by the model.
- Lower-casing is ASCII only. `toLowerCase` on other scripts' letters is not modelled; option texts outside ASCII compare exactly.
- A choice input without an enclosing `<label>` raises a TypeError in the scripts. Every modelled input has a label text.
- URL parsing: percent-encoding and decoding, and the splitting of a URL string into its parts, are left out. The URL is a record whose query is a list of decoded name/value pairs. The dropping of blank values by `parse_qs` is modelled.
- `urljoin` of the exam link and the course navigation are browser steps.
- The timer's prompt branch (a non-positive preset) is unreachable with the shipped preset of 10 minutes. The `alert` at zero, the `DOMContentLoaded` wiring and the missing-element error log are not modelled.
- The rest of `Answer2Exam.js` is DOM mutation and event wiring: toolbar, modal, bookmarks, `enableExamFunction`, `closePage`. It is left out, and so is the `.done-cnt` write, whose count is returned instead.
- gui.py, gui2.py and the interactive command-line loop of `FlipclassExamBot.py` are user interface.
