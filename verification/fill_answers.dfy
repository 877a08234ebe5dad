/** The fill script run on the live exam: parse the answer text, work out how
    many questions to get wrong for the target score, pick those questions at
    random, and fill every question accordingly. `Math.random` is an oracle: the
    draws of the wrong-question loop come from `stream`, and the draw for a wrongly
    answered multiple-choice question `k` is `optionPicks[k]`. */
module FillAnswers {
  import opened Text
  import opened Wrappers
  import opened Sets
  import opened Page
  import opened AnswerParser

  /** The target passes `isNaN(t) || t < 0 || t > 100` unrejected (a real is never NaN). */
  predicate ValidTarget(target: real) {
    0.0 <= target <= 100.0
  }

  /** `Math.ceil` on an exact rational: the least integer not below `x`. */
  function Ceil(x: real): (n: int)
    ensures n as real - 1.0 < x <= n as real
  {
    if x == x.Floor as real then x.Floor else x.Floor + 1
  }

  lemma ScaleBounds(target: real, total: nat)
    ensures target / 100.0 * total as real * 100.0 == target * total as real
    ensures ValidTarget(target) ==> 0.0 <= target / 100.0 * total as real <= total as real
  {
    var p := target / 100.0;
    if ValidTarget(target) {
      assert 0.0 <= p <= 1.0;
      assert p * total as real <= 1.0 * total as real;
    }
  }

  lemma FullMarksBounds(c: int, total: nat)
    requires c as real * 100.0 >= 100.0 * total as real
    requires (c as real - 1.0) * 100.0 < 100.0 * total as real
    ensures c == total
  {
  }

  /** `Math.ceil((target / 100) * total)`: the fewest correct answers whose share
      of `total` reaches the target percentage. */
  function CorrectNeeded(target: real, total: nat): (n: int)
    ensures n as real * 100.0 >= target * total as real
    ensures (n as real - 1.0) * 100.0 < target * total as real
    ensures ValidTarget(target) ==> 0 <= n <= total
  {
    var x := target / 100.0 * total as real;
    ScaleBounds(target, total);
    CeilScaled(x);
    if ValidTarget(target) then CeilWithin(x, total); Ceil(x) else Ceil(x)
  }

  lemma CeilScaled(x: real)
    ensures Ceil(x) as real * 100.0 >= x * 100.0
    ensures (Ceil(x) as real - 1.0) * 100.0 < x * 100.0
  {
  }

  lemma CeilWithin(x: real, bound: nat)
    requires 0.0 <= x <= bound as real
    ensures 0 <= Ceil(x) <= bound
  {
    var n := Ceil(x);
    assert (n - 1) as real < bound as real;
  }

  /** `total - correctQuestionsNeeded`. */
  function WrongNeeded(target: real, total: nat): (w: int)
    ensures ValidTarget(target) ==> 0 <= w <= total
    ensures target == 100.0 ==> w == 0
    ensures target == 0.0 ==> w == total
  {
    var c := CorrectNeeded(target, total);
    if target == 100.0 then FullMarksBounds(c, total); total - c
    else total - c
  }

  // ---------------------------------------------------------------------------
  // choosing the questions to get wrong

  /** The loop `while (wrong.length < need)`: draw `ids[r % |ids|]` for the next
      `r` of the stream and keep it if it is new. `None` means the stream ran out
      before `need` distinct ids were drawn, standing for a loop that has not ended. */
  function PickWrong(ids: seq<string>, need: nat, stream: seq<nat>, chosen: seq<string>): (r: Option<seq<string>>)
    requires |chosen| <= need <= |ids|
    requires Distinct(chosen) && forall x :: x in chosen ==> x in ids
    ensures r.Some? ==> |r.value| == need && Distinct(r.value)
    ensures r.Some? ==> forall x :: x in r.value ==> x in ids
    ensures r.Some? ==> r.value[..|chosen|] == chosen
    decreases |stream|
  {
    if |chosen| == need then Some(chosen)
    else if |stream| == 0 then None
    else
      var id := ids[stream[0] % |ids|];
      var next := if id in chosen then chosen else chosen + [id];
      var r := PickWrong(ids, need, stream[1..], next);
      assert r.Some? ==> r.value[..|chosen|] == r.value[..|next|][..|chosen|];
      r
  }

  /** `0, 1, ..., n - 1` from `k`. */
  function Range(k: nat, n: nat): (s: seq<nat>)
    requires k <= n
    ensures |s| == n - k
    ensures forall i :: 0 <= i < |s| ==> s[i] == k + i
    decreases n - k
  {
    if k == n then [] else [k] + Range(k + 1, n)
  }

  /** With distinct ids the loop can end: drawing the ids in order picks the
      first `need` of them. */
  lemma {:induction false} PickWrongCanFinish(ids: seq<string>, need: nat, k: nat)
    requires Distinct(ids) && k <= need <= |ids|
    ensures PickWrong(ids, need, Range(k, need), ids[..k]) == Some(ids[..need])
    decreases need - k
  {
    if k < need {
      var s := Range(k, need);
      assert s[0] % |ids| == k;
      assert ids[k] !in ids[..k] by {
        assert forall i :: 0 <= i < k ==> ids[..k][i] == ids[i];
      }
      assert ids[..k] + [ids[k]] == ids[..k + 1];
      assert s[1..] == Range(k + 1, need);
      assert PickWrong(ids, need, s, ids[..k]) == PickWrong(ids, need, s[1..], ids[..k + 1]);
      PickWrongCanFinish(ids, need, k + 1);
    }
  }

  /** When the page has fewer distinct ids than wrong answers are needed, no
      sequence of draws ends the loop: the script hangs. */
  lemma {:induction false} PickWrongNeverFinishes(ids: seq<string>, need: nat, stream: seq<nat>, chosen: seq<string>)
    requires |chosen| <= need <= |ids|
    requires Distinct(chosen) && forall x :: x in chosen ==> x in ids
    requires |set x | x in ids| < need
    ensures PickWrong(ids, need, stream, chosen) == None
    decreases |stream|
  {
    ChosenBelowNeed(ids, need, chosen);
    if |stream| > 0 {
      var id := ids[stream[0] % |ids|];
      var next := if id in chosen then chosen else chosen + [id];
      if id !in chosen {
        assert forall i :: 0 <= i < |chosen| ==> next[i] == chosen[i];
      }
      ChosenBelowNeed(ids, need, next);
      PickWrongNeverFinishes(ids, need, stream[1..], next);
    }
  }

  /** Distinct picks from `ids` number at most the distinct ids. */
  lemma ChosenBelowNeed(ids: seq<string>, need: nat, chosen: seq<string>)
    requires Distinct(chosen) && forall x :: x in chosen ==> x in ids
    requires |set x | x in ids| < need
    ensures |chosen| < need
  {
    DistinctCard(chosen);
    SubsetCard(set x | x in chosen, set x | x in ids);
  }

  // ---------------------------------------------------------------------------
  // filling one question

  /** An option matches when its lower-cased text is among the lower-cased answers. */
  predicate Matches(c: ChoiceInput, answers: seq<string>) {
    exists a :: a in answers && Lower(a) == Lower(OptionText(c))
  }

  /** The positions from index `i` on that the mask leaves unset. */
  function Misses(hits: seq<bool>, i: nat): (idx: seq<nat>)
    requires i <= |hits|
    ensures forall k :: 0 <= k < |idx| ==> i <= idx[k] < |hits| && !hits[idx[k]]
    ensures forall j :: i <= j < |hits| && !hits[j] ==> j in idx
    ensures forall a, b :: 0 <= a < b < |idx| ==> idx[a] < idx[b]
    decreases |hits| - i
  {
    if i == |hits| then []
    else
      var rest := Misses(hits, i + 1);
      if hits[i] then rest else [i] + rest
  }

  /** Which inputs match, position by position. */
  function MatchMask(cs: seq<ChoiceInput>, answers: seq<string>): (hits: seq<bool>)
    ensures |hits| == |cs|
    ensures forall i :: 0 <= i < |cs| ==> hits[i] == Matches(cs[i], answers)
  {
    seq(|cs|, i requires 0 <= i < |cs| => Matches(cs[i], answers))
  }

  /** A multiple-choice question answered correctly: the inputs are visited in
      order and every matching one is checked. A checkbox ends up checked when it
      was or matches. Checking a radio button unchecks the rest of its group, so in
      a group with a matching member exactly the last matching member stays
      checked; a group without one keeps its state. Nothing but checked states changes. */
  function CheckMatches(cs: seq<ChoiceInput>, answers: seq<string>): (r: seq<ChoiceInput>)
    ensures |r| == |cs|
    ensures forall i :: 0 <= i < |cs| ==> r[i] == cs[i].(checked := r[i].checked)
    ensures forall i :: 0 <= i < |cs| && cs[i].kind == Checkbox ==>
              r[i].checked == (cs[i].checked || Matches(cs[i], answers))
    ensures forall i :: 0 <= i < |cs| && cs[i].kind == Radio ==>
              if exists k :: 0 <= k < |cs| && SameGroup(cs[k], cs[i]) && Matches(cs[k], answers)
              then r[i].checked == (Matches(cs[i], answers) &&
                     forall k :: i < k < |cs| && SameGroup(cs[k], cs[i]) ==> !Matches(cs[k], answers))
              else r[i] == cs[i]
  {
    var hits := MatchMask(cs, answers);
    MatchMaskGroups(cs, answers);
    CheckHits(cs, hits, |cs|)
  }

  /** A group hit of the match mask is a matching member of the group. */
  lemma MatchMaskGroups(cs: seq<ChoiceInput>, answers: seq<string>)
    ensures forall i :: 0 <= i < |cs| ==>
              (GroupHit(cs, MatchMask(cs, answers), i, 0, |cs|) <==>
                 exists k :: 0 <= k < |cs| && SameGroup(cs[k], cs[i]) && Matches(cs[k], answers))
    ensures forall i :: 0 <= i < |cs| ==>
              (GroupHit(cs, MatchMask(cs, answers), i, i + 1, |cs|) <==>
                 exists k :: i < k < |cs| && SameGroup(cs[k], cs[i]) && Matches(cs[k], answers))
  {
    var hits := MatchMask(cs, answers);
    forall i, lo | 0 <= i < |cs| && 0 <= lo <= |cs|
      ensures GroupHit(cs, hits, i, lo, |cs|) <==>
                exists k :: lo <= k < |cs| && SameGroup(cs[k], cs[i]) && Matches(cs[k], answers)
    {
      if k :| lo <= k < |cs| && SameGroup(cs[k], cs[i]) && Matches(cs[k], answers) {
        assert hits[k];
      }
    }
  }

  /** A matching input ends up checked when it is a checkbox, and when it is a
      radio button exactly when no later member of its group matches too. */
  lemma MatchingInputChecked(cs: seq<ChoiceInput>, answers: seq<string>, i: nat)
    requires i < |cs| && Matches(cs[i], answers)
    ensures cs[i].kind == Checkbox ==> CheckMatches(cs, answers)[i].checked
    ensures cs[i].kind == Radio ==>
              (CheckMatches(cs, answers)[i].checked <==>
                 forall k :: i < k < |cs| && SameGroup(cs[k], cs[i]) ==> !Matches(cs[k], answers))
  {
    if cs[i].kind == Radio {
      assert SameGroup(cs[i], cs[i]);
    }
  }

  /** A multiple-choice question answered wrongly: one non-matching input, chosen
      by `pick`, is checked, which unchecks the rest of its radio group when it is
      a radio button; every other input keeps its state. When every input
      matches, every input is unchecked instead. */
  function CheckWrong(cs: seq<ChoiceInput>, answers: seq<string>, pick: nat): (r: seq<ChoiceInput>)
    ensures |r| == |cs|
    ensures forall i :: 0 <= i < |cs| ==> r[i] == cs[i].(checked := r[i].checked)
    ensures (exists i :: 0 <= i < |cs| && !Matches(cs[i], answers)) ==>
              exists j :: 0 <= j < |cs| && !Matches(cs[j], answers) && r[j].checked &&
                forall i :: 0 <= i < |cs| && i != j ==> r[i].checked == (cs[i].checked && !SameGroup(cs[i], cs[j]))
    ensures (forall i :: 0 <= i < |cs| ==> Matches(cs[i], answers)) ==>
              forall i :: 0 <= i < |cs| ==> !r[i].checked
  {
    var idx := Misses(MatchMask(cs, answers), 0);
    if |idx| > 0 then
      var j := idx[pick % |idx|];
      Check(cs, j)
    else
      seq(|cs|, i requires 0 <= i < |cs| => cs[i].(checked := false))
  }

  /** A multiple-choice question: checked correctly or wrongly. */
  function FillChoices(cs: seq<ChoiceInput>, answers: seq<string>, wrong: bool, pick: nat): (r: seq<ChoiceInput>)
    ensures |r| == |cs|
    ensures forall i :: 0 <= i < |cs| ==> r[i] == cs[i].(checked := r[i].checked)
  {
    if wrong then CheckWrong(cs, answers, pick) else CheckMatches(cs, answers)
  }

  /** A fill-in-the-blank question. Answered correctly, the matched field of rank
      `k` takes answer `k`; answered wrongly, every matched field becomes `" "`. */
  function FillBlanks(fs: seq<TextField>, answers: seq<string>, wrong: bool): (r: seq<TextField>)
    ensures |r| == |fs|
    ensures forall i :: 0 <= i < |fs| && !Selects(FillSelector, fs[i]) ==> r[i] == fs[i]
    ensures wrong ==> forall i :: 0 <= i < |fs| && Selects(FillSelector, fs[i]) ==> r[i] == fs[i].(value := " ")
    ensures !wrong ==> forall i :: 0 <= i < |fs| && Selects(FillSelector, fs[i]) ==>
              r[i] == fs[i].(value := if Rank(fs, FillSelector, i) < |answers| then answers[Rank(fs, FillSelector, i)] else fs[i].value)
  {
    if wrong then SetMatched(fs, FillSelector, " ") else FillInOrder(fs, FillSelector, answers)
  }

  /** One question: untouched without parsed answers or of another type. */
  function FillQuestion(q: Question, answers: Answers, wrongIds: seq<string>, pick: nat): (r: Question)
    ensures r.id == q.id && r.kind == q.kind && r.previews == q.previews
    ensures q.id !in answers || q.kind == OtherKind ==> r == q
    ensures q.kind == Choice && q.id in answers ==>
              r == q.(choices := FillChoices(q.choices, answers[q.id], q.id in wrongIds, pick))
    ensures q.kind == Blank && q.id in answers ==>
              r == q.(fields := FillBlanks(q.fields, answers[q.id], q.id in wrongIds))
  {
    if q.id !in answers then q
    else
      var wrong := q.id in wrongIds;
      match q.kind
      case Choice => q.(choices := FillChoices(q.choices, answers[q.id], wrong, pick))
      case Blank => q.(fields := FillBlanks(q.fields, answers[q.id], wrong))
      case OtherKind => q
  }

  // ---------------------------------------------------------------------------
  // the whole script

  datatype Outcome =
    | InvalidTarget                                              // alert and return: nothing touched
    | Endless                                                    // the wrong-question loop has not ended
    | Filled(questions: seq<Question>, wrongIds: seq<string>)

  function OptionPick(picks: seq<nat>, k: nat): nat {
    if k < |picks| then picks[k] else 0
  }

  function FillAll(qs: seq<Question>, answers: Answers, wrongIds: seq<string>, picks: seq<nat>): (r: seq<Question>)
    ensures |r| == |qs|
    ensures forall k :: 0 <= k < |qs| ==> r[k] == FillQuestion(qs[k], answers, wrongIds, OptionPick(picks, k))
  {
    seq(|qs|, k requires 0 <= k < |qs| => FillQuestion(qs[k], answers, wrongIds, OptionPick(picks, k)))
  }

  function Fill(input: string, target: real, qs: seq<Question>, stream: seq<nat>, picks: seq<nat>): (r: Outcome)
    ensures r.InvalidTarget? <==> !ValidTarget(target)
    ensures r.Filled? ==> |r.wrongIds| == WrongNeeded(target, |qs|) && Distinct(r.wrongIds)
    ensures r.Filled? ==> forall x :: x in r.wrongIds ==> x in Ids(qs)
    ensures r.Filled? ==> r.questions == FillAll(qs, Parse(input), r.wrongIds, picks)
    // a full-marks target draws nothing and answers every question correctly
    ensures target == 100.0 ==> r == Filled(FillAll(qs, Parse(input), [], picks), [])
  {
    if !ValidTarget(target) then InvalidTarget
    else
      var answers := Parse(input);
      var wrong := WrongNeeded(target, |qs|);
      var picked := if wrong > 0 then PickWrong(Ids(qs), wrong, stream, []) else Some([]);
      match picked
      case None => Endless
      case Some(wrongIds) => Filled(FillAll(qs, answers, wrongIds, picks), wrongIds)
  }

  /** With distinct question ids and a valid target some draws end the loop. */
  lemma FillCanFinish(input: string, target: real, qs: seq<Question>, picks: seq<nat>)
    requires ValidTarget(target) && Distinct(Ids(qs))
    ensures exists stream :: Fill(input, target, qs, stream, picks).Filled?
  {
    var wrong := WrongNeeded(target, |qs|);
    if wrong > 0 {
      PickWrongCanFinish(Ids(qs), wrong, 0);
      assert Ids(qs)[..0] == [];
      assert Fill(input, target, qs, Range(0, wrong), picks).Filled?;
    } else {
      assert Fill(input, target, qs, [], picks).Filled?;
    }
  }

  /** With repeated ids and more wrong answers needed than there are distinct ids
      (for example ids `["q", "q"]` and target 0), the script never finishes. */
  lemma FillHangsOnRepeatedIds(input: string, target: real, qs: seq<Question>, stream: seq<nat>, picks: seq<nat>)
    requires ValidTarget(target)
    requires |set x | x in Ids(qs)| < WrongNeeded(target, |qs|)
    ensures Fill(input, target, qs, stream, picks) == Endless
  {
    PickWrongNeverFinishes(Ids(qs), WrongNeeded(target, |qs|), stream, []);
  }
}
