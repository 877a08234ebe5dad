/** The older fill script: its answer text is a literal inside the script, there
    is no target score, and every question with parsed answers is filled. */
module FillAnswersOld {
  import opened Text
  import opened Page
  import opened AnswerParser
  import opened FillAnswers
  import opened Wrappers

  /** The literal the script ships with: two line breaks and nothing else. */
  const ShippedAnswers: string := "\n\n"

  /** An option matches one answer when their trimmed texts are equal (no case
      folding, unlike the newer script). */
  predicate ExactHit(c: ChoiceInput, a: string) {
    Trim(OptionText(c)) == Trim(a)
  }

  predicate MatchesExactly(c: ChoiceInput, answers: seq<string>) {
    exists a :: a in answers && ExactHit(c, a)
  }

  /** Against trimmed answers, such as the parser produces, an exact match is
      also a match under the newer script's case-insensitive rule. */
  lemma ExactMatchIsMatch(c: ChoiceInput, answers: seq<string>)
    requires forall k :: 0 <= k < |answers| ==> IsTrimmed(answers[k])
    ensures MatchesExactly(c, answers) ==> Matches(c, answers)
  {
    if MatchesExactly(c, answers) {
      var a :| a in answers && ExactHit(c, a);
      OptionTextTrimmed(c);
      assert OptionText(c) == a;
    }
  }

  /** With parsed answers, a checkbox the older script checks is one the newer
      script checks as well. */
  lemma OldCheckboxCheckedByNew(cs: seq<ChoiceInput>, input: string, id: string, i: nat)
    requires id in Parse(input) && i < |cs| && cs[i].kind == Checkbox
    ensures CheckMatching(cs, Parse(input)[id])[i].checked ==> CheckMatches(cs, Parse(input)[id])[i].checked
  {
    ExactMatchIsMatch(cs[i], Parse(input)[id]);
  }

  /** Which inputs match answer `a`, position by position. */
  function ExactMask(cs: seq<ChoiceInput>, a: string): (hits: seq<bool>)
    ensures |hits| == |cs|
    ensures forall i :: 0 <= i < |cs| ==> hits[i] == ExactHit(cs[i], a)
  {
    seq(|cs|, i requires 0 <= i < |cs| => ExactHit(cs[i], a))
  }

  /** One hit mask per answer: `masks[q][k]` says whether input `k` matches answer `q`. */
  function ExactMasks(cs: seq<ChoiceInput>, answers: seq<string>): (masks: seq<seq<bool>>)
    ensures |masks| == |answers|
    ensures forall q :: 0 <= q < |answers| ==> masks[q] == ExactMask(cs, answers[q])
  {
    seq(|answers|, q requires 0 <= q < |answers| => ExactMask(cs, answers[q]))
  }

  predicate MasksFit(cs: seq<ChoiceInput>, masks: seq<seq<bool>>) {
    forall q :: 0 <= q < |masks| ==> |masks[q]| == |cs|
  }

  /** The last of the first `p` passes that hits some member of input `i`'s
      radio group. */
  function LastGroupPass(cs: seq<ChoiceInput>, masks: seq<seq<bool>>, p: nat, i: nat): (r: Option<nat>)
    requires MasksFit(cs, masks) && p <= |masks| && i < |cs|
    ensures r.None? ==> forall q :: 0 <= q < p ==> !GroupHit(cs, masks[q], i, 0, |cs|)
    ensures r.Some? ==> r.value < p && GroupHit(cs, masks[r.value], i, 0, |cs|)
    ensures r.Some? ==> forall q :: r.value < q < p ==> !GroupHit(cs, masks[q], i, 0, |cs|)
  {
    if p == 0 then None
    else if GroupHit(cs, masks[p - 1], i, 0, |cs|) then Some(p - 1)
    else LastGroupPass(cs, masks, p - 1, i)
  }

  /** What the first `p` passes leave at radio button `i`: its own state when no
      pass hits its group; otherwise, in the last pass that does, whether it is the
      last hit member of the group. */
  function RadioAfterPasses(cs: seq<ChoiceInput>, masks: seq<seq<bool>>, p: nat, i: nat): bool
    requires MasksFit(cs, masks) && p <= |masks| && i < |cs|
  {
    match LastGroupPass(cs, masks, p, i)
    case None => cs[i].checked
    case Some(q) => masks[q][i] && !GroupHit(cs, masks[q], i, i + 1, |cs|)
  }

  /** `r` is what the first `p` passes leave: only checked states differ; a
      checkbox is checked when it was or some pass hits it; a radio button as
      `RadioAfterPasses` says. */
  predicate PassesDone(cs: seq<ChoiceInput>, masks: seq<seq<bool>>, p: nat, r: seq<ChoiceInput>)
    requires MasksFit(cs, masks) && p <= |masks|
  {
    && SameShape(cs, r)
    && (forall i :: 0 <= i < |cs| && cs[i].kind == Checkbox ==>
          r[i].checked == (cs[i].checked || exists q :: 0 <= q < p && masks[q][i]))
    && (forall i :: 0 <= i < |cs| && cs[i].kind == Radio ==> r[i].checked == RadioAfterPasses(cs, masks, p, i))
  }

  /** `answer.forEach(ans => { inputs.forEach(input => { if (hit) input.checked = true; }); })`
      for the first `p` answers: one pass over the inputs per answer. Labels never
      change, so each pass's hits are read off the original inputs. */
  function Passes(cs: seq<ChoiceInput>, masks: seq<seq<bool>>, p: nat): (r: seq<ChoiceInput>)
    requires MasksFit(cs, masks) && p <= |masks|
    ensures PassesDone(cs, masks, p, r)
  {
    if p == 0 then cs
    else
      var m := Passes(cs, masks, p - 1);
      var r := CheckHits(m, masks[p - 1], |cs|);
      PassStep(cs, masks, p, m, r);
      r
  }

  /** One more pass extends what the passes before it left. */
  lemma PassStep(cs: seq<ChoiceInput>, masks: seq<seq<bool>>, p: nat, m: seq<ChoiceInput>, r: seq<ChoiceInput>)
    requires MasksFit(cs, masks) && 0 < p <= |masks|
    requires PassesDone(cs, masks, p - 1, m)
    requires ChecksHits(m, masks[p - 1], |cs|, r)
    ensures PassesDone(cs, masks, p, r)
  {
    forall i | 0 <= i < |cs| && cs[i].kind == Radio ensures r[i].checked == RadioAfterPasses(cs, masks, p, i) {
      PassStepRadio(cs, masks, p, m, i, r[i].checked);
    }
  }

  lemma PassStepRadio(cs: seq<ChoiceInput>, masks: seq<seq<bool>>, p: nat, m: seq<ChoiceInput>, i: nat, after: bool)
    requires MasksFit(cs, masks) && 0 < p <= |masks| && i < |cs| && cs[i].kind == Radio
    requires SameShape(cs, m) && m[i].checked == RadioAfterPasses(cs, masks, p - 1, i)
    requires after == RadioAfter(m, masks[p - 1], |cs|, i)
    ensures after == RadioAfterPasses(cs, masks, p, i)
  {
    GroupHitSameShape(cs, m, masks[p - 1], i, 0);
    GroupHitSameShape(cs, m, masks[p - 1], i, i + 1);
  }

  /** The older script's multiple-choice rule: one pass over the inputs per
      answer, checking every input whose text equals that answer. A checkbox ends
      up checked when it was or matches some answer. A radio group that no answer
      matches keeps its state; otherwise the last answer the group matches
      decides, and the checked member is the last member matching that answer. */
  function CheckMatching(cs: seq<ChoiceInput>, answers: seq<string>): (r: seq<ChoiceInput>)
    ensures SameShape(cs, r)
    ensures forall i :: 0 <= i < |cs| && cs[i].kind == Checkbox ==>
              r[i].checked == (cs[i].checked || MatchesExactly(cs[i], answers))
    ensures forall i :: 0 <= i < |cs| && cs[i].kind == Radio ==>
              r[i].checked == RadioAfterPasses(cs, ExactMasks(cs, answers), |answers|, i)
  {
    var masks := ExactMasks(cs, answers);
    var r := Passes(cs, masks, |answers|);
    forall i | 0 <= i < |cs| && cs[i].kind == Checkbox
      ensures (exists q :: 0 <= q < |answers| && masks[q][i]) <==> MatchesExactly(cs[i], answers)
    {
      MaskedSomewhere(cs, answers, i);
    }
    r
  }

  lemma MaskedSomewhere(cs: seq<ChoiceInput>, answers: seq<string>, i: nat)
    requires i < |cs|
    ensures (exists q :: 0 <= q < |answers| && ExactMasks(cs, answers)[q][i]) <==> MatchesExactly(cs[i], answers)
  {
    var masks := ExactMasks(cs, answers);
    if MatchesExactly(cs[i], answers) {
      var a :| a in answers && ExactHit(cs[i], a);
      var q :| 0 <= q < |answers| && answers[q] == a;
      assert masks[q][i];
    }
    if exists q :: 0 <= q < |answers| && masks[q][i] {
      var q :| 0 <= q < |answers| && masks[q][i];
      assert ExactHit(cs[i], answers[q]);
    }
  }

  /** Running the rule again with the same answers changes nothing: the hits
      depend on labels alone, and every group a hit decides is decided the same
      way again. */
  lemma CheckMatchingIdempotent(cs: seq<ChoiceInput>, answers: seq<string>)
    ensures CheckMatching(CheckMatching(cs, answers), answers) == CheckMatching(cs, answers)
  {
    var once := CheckMatching(cs, answers);
    var twice := CheckMatching(once, answers);
    ExactMasksSameShape(cs, once, answers);
    forall i | 0 <= i < |cs| ensures twice[i].checked == once[i].checked {
      if cs[i].kind == Radio {
        RadioSettles(cs, once, answers, i, twice[i].checked);
      } else {
        assert once[i].labelText == cs[i].labelText;
      }
    }
  }

  /** Hits depend on labels alone. */
  lemma ExactMasksSameShape(cs: seq<ChoiceInput>, ds: seq<ChoiceInput>, answers: seq<string>)
    requires SameShape(cs, ds)
    ensures ExactMasks(ds, answers) == ExactMasks(cs, answers)
  {
    forall q | 0 <= q < |answers| ensures ExactMask(ds, answers[q]) == ExactMask(cs, answers[q]) {
      forall k | 0 <= k < |cs| ensures ExactMask(ds, answers[q])[k] == ExactMask(cs, answers[q])[k] {
        assert ds[k].labelText == cs[k].labelText;
      }
    }
  }

  lemma RadioSettles(cs: seq<ChoiceInput>, once: seq<ChoiceInput>, answers: seq<string>, i: nat, after: bool)
    requires SameShape(cs, once) && i < |cs| && cs[i].kind == Radio
    requires ExactMasks(once, answers) == ExactMasks(cs, answers)
    requires once[i].checked == RadioAfterPasses(cs, ExactMasks(cs, answers), |answers|, i)
    requires after == RadioAfterPasses(once, ExactMasks(cs, answers), |answers|, i)
    ensures after == once[i].checked
  {
    var masks := ExactMasks(cs, answers);
    LastGroupPassSameShape(cs, once, masks, |answers|, i);
    match LastGroupPass(cs, masks, |answers|, i)
    case None =>
    case Some(q) => GroupHitSameShape(cs, once, masks[q], i, i + 1);
  }

  /** The pass that decides a group depends only on kinds and names. */
  lemma {:induction false} LastGroupPassSameShape(cs: seq<ChoiceInput>, ds: seq<ChoiceInput>, masks: seq<seq<bool>>, p: nat, i: nat)
    requires SameShape(cs, ds) && MasksFit(cs, masks) && p <= |masks| && i < |cs|
    ensures LastGroupPass(ds, masks, p, i) == LastGroupPass(cs, masks, p, i)
    decreases p
  {
    if p > 0 {
      GroupHitSameShape(cs, ds, masks[p - 1], i, 0);
      LastGroupPassSameShape(cs, ds, masks, p - 1, i);
    }
  }

  /** One question: untouched without parsed answers or of another type. */
  function OldFillQuestion(q: Question, answers: Answers): (r: Question)
    ensures r.id == q.id && r.kind == q.kind && r.previews == q.previews
    ensures q.id !in answers || q.kind == OtherKind ==> r == q
    ensures q.kind == Choice && q.id in answers ==> r == q.(choices := CheckMatching(q.choices, answers[q.id]))
    ensures q.kind == Blank && q.id in answers ==> r == q.(fields := FillInOrder(q.fields, OldFillSelector, answers[q.id]))
  {
    if q.id !in answers then q
    else match q.kind
      case Choice => q.(choices := CheckMatching(q.choices, answers[q.id]))
      case Blank => q.(fields := FillInOrder(q.fields, OldFillSelector, answers[q.id]))
      case OtherKind => q
  }

  function OldFill(input: string, qs: seq<Question>): (r: seq<Question>)
    ensures |r| == |qs|
    ensures forall k :: 0 <= k < |qs| ==> r[k] == OldFillQuestion(qs[k], Parse(input))
  {
    var answers := Parse(input);
    seq(|qs|, k requires 0 <= k < |qs| => OldFillQuestion(qs[k], answers))
  }

  /** Filling twice with the same answers is filling once. */
  lemma OldFillIdempotent(input: string, qs: seq<Question>)
    ensures OldFill(input, OldFill(input, qs)) == OldFill(input, qs)
  {
    var answers := Parse(input);
    forall k | 0 <= k < |qs|
      ensures OldFillQuestion(OldFillQuestion(qs[k], answers), answers) == OldFillQuestion(qs[k], answers)
    {
      var q := qs[k];
      if q.id in answers && q.kind == Blank {
        FillInOrderIdempotent(q.fields, OldFillSelector, answers[q.id]);
      } else if q.id in answers && q.kind == Choice {
        CheckMatchingIdempotent(q.choices, answers[q.id]);
      }
    }
  }

  /** As shipped, the script's literal parses to nothing, so running it leaves the
      page as it found it. */
  lemma ShippedScriptChangesNothing(qs: seq<Question>)
    ensures OldFill(ShippedAnswers, qs) == qs
  {
    assert forall i :: 0 <= i < |ShippedAnswers| ==> ShippedAnswers[i] == '\n';
    BlankInputParsesEmpty(ShippedAnswers);
    var r := OldFill(ShippedAnswers, qs);
    forall k | 0 <= k < |qs| ensures r[k] == qs[k] {
      assert qs[k].id !in Parse(ShippedAnswers);
    }
  }
}
