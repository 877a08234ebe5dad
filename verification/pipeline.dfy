/** The two scripts together, as the bot runs them: the extractor reads the
    answer view, and its output is handed to the fill script on the exam page. */
module Pipeline {
  import opened Text
  import opened Page
  import opened ExtractAnswers
  import opened AnswerParser
  import opened AnswerRoundTrip
  import opened FillAnswers

  /** Ids and answers of the answer view that survive the round trip. */
  predicate CleanView(view: seq<Question>) {
    && Distinct(Ids(view))
    && forall q :: q in view && Reportable(q) ==>
         CleanId(q.id) && forall a :: a in AnswerList(q) ==> CleanAnswer(a)
  }

  /** At full marks, an option of an exam multiple-choice question whose text is
      that of an option marked on the answer view under the same id ends up
      checked when it is a checkbox. When it is a radio button it ends up checked
      exactly when no later member of its group also matches one of the view's
      answers, since checking that later member would uncheck it. */
  lemma FullMarksChecksViewedOptions(view: seq<Question>, exam: seq<Question>, stream: seq<nat>, picks: seq<nat>, q: Question, k: nat, i: nat)
    requires CleanView(view)
    requires q in view && q.kind == Choice && Join(AnswerList(q), ", ") != ""
    requires k < |exam| && exam[k].id == q.id && exam[k].kind == Choice && i < |exam[k].choices|
    requires exists c :: c in q.choices && c.checked && c.kind == MarkedKind(q) && OptionText(c) == OptionText(exam[k].choices[i])
    ensures Fill(Extract(view), 100.0, exam, stream, picks).Filled?
    ensures exam[k].choices[i].kind == Checkbox ==>
              Fill(Extract(view), 100.0, exam, stream, picks).questions[k].choices[i].checked
    ensures exam[k].choices[i].kind == Radio ==>
              (Fill(Extract(view), 100.0, exam, stream, picks).questions[k].choices[i].checked <==>
                 forall j :: i < j < |exam[k].choices| && SameGroup(exam[k].choices[j], exam[k].choices[i]) ==>
                   !Matches(exam[k].choices[j], AnswerList(q)))
  {
    ExtractThenParse(view);
    var answers := Parse(Extract(view));
    assert answers[q.id] == AnswerList(q);
    var c :| c in q.choices && c.checked && c.kind == MarkedKind(q) && OptionText(c) == OptionText(exam[k].choices[i]);
    assert OptionText(c) in AnswerList(q);
    assert Matches(exam[k].choices[i], answers[q.id]);
    assert Fill(Extract(view), 100.0, exam, stream, picks).questions[k].choices
           == CheckMatches(exam[k].choices, AnswerList(q));
    MatchingInputChecked(exam[k].choices, AnswerList(q), i);
  }

  /** At full marks, a fill-in-the-blank question of the exam gets, in its
      `j`-th matched field, the `j`-th filled blank of the answer view, trimmed. */
  lemma FullMarksFillsViewedBlanks(view: seq<Question>, exam: seq<Question>, stream: seq<nat>, picks: seq<nat>, q: Question, k: nat, i: nat)
    requires CleanView(view)
    requires q in view && q.kind == Blank && Join(AnswerList(q), ", ") != ""
    requires k < |exam| && exam[k].id == q.id && exam[k].kind == Blank && i < |exam[k].fields|
    requires Selects(FillSelector, exam[k].fields[i]) && Rank(exam[k].fields, FillSelector, i) < |q.previews|
    ensures Fill(Extract(view), 100.0, exam, stream, picks).Filled?
    ensures Fill(Extract(view), 100.0, exam, stream, picks).questions[k].fields[i].value
              == Trim(q.previews[Rank(exam[k].fields, FillSelector, i)])
  {
    ExtractThenParse(view);
    assert Parse(Extract(view))[q.id] == AnswerList(q);
  }

  /** An exam question whose id the answer view does not report is left as it was. */
  lemma UnreportedUntouched(view: seq<Question>, exam: seq<Question>, target: real, stream: seq<nat>, picks: seq<nat>, k: nat)
    requires CleanView(view)
    requires k < |exam| && forall q :: q in view && Reportable(q) ==> q.id != exam[k].id
    requires Fill(Extract(view), target, exam, stream, picks).Filled?
    ensures Fill(Extract(view), target, exam, stream, picks).questions[k] == exam[k]
  {
    ExtractThenParse(view);
  }
}
