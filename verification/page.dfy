/** Abstract question records standing in for the exam page's DOM. Every script
    receives the question items its own selector returns, in document order. */
module Page {
  import opened Text

  /** The `type` attribute of a question item: `"1"` is multiple choice,
      `"2"` is fill-in-the-blank, anything else is ignored by the scripts. */
  datatype Kind = Choice | Blank | OtherKind

  datatype ChoiceKind = Checkbox | Radio

  /** A checkbox or radio input with the text of its enclosing `<label>`, its
      `name` attribute (`group`), its `value` attribute, and its checked state.
      On the answer view `checked` stands for the server-rendered `checked`
      attribute, which the extractor's `[checked]` selector reads; on the exam
      page it is the live state the fill scripts set and `input:checked` reads. */
  datatype ChoiceInput = ChoiceInput(kind: ChoiceKind, labelText: string, group: string, checked: bool, value: string)

  datatype FieldKind = TextInput | TextArea | OtherElement

  /** An element that can hold typed text: an `input[type="text"]`, a `textarea`
      or some other element; `gapClass` records the `gap-input` class. */
  datatype TextField = TextField(kind: FieldKind, gapClass: bool, value: string)

  /** A question item: its `data-id`, its `type`, its choice inputs, its text
      fields, and the texts of its `span.gap-preview` elements (the filled blanks
      shown by the answer view). */
  datatype Question = Question(
    id: string,
    kind: Kind,
    choices: seq<ChoiceInput>,
    fields: seq<TextField>,
    previews: seq<string>)

  /** The text an option is matched by: its label text, trimmed, without the
      option letter. */
  function OptionText(c: ChoiceInput): string {
    StripOptionLetter(Trim(c.labelText))
  }

  /** Option texts carry no edge whitespace: the label is trimmed, and removing a
      letter prefix also removes the whitespace after it. */
  lemma OptionTextTrimmed(c: ChoiceInput)
    ensures IsTrimmed(OptionText(c))
  {
    var t := Trim(c.labelText);
    var r := OptionText(c);
    if |t| >= 2 && 'A' <= t[0] <= 'Z' && t[1] == '.' && |r| > 0 {
      assert r[|r| - 1] == t[|t| - 1];
    }
  }

  /** `questions.map(q => q.getAttribute('data-id'))`. */
  function Ids(qs: seq<Question>): (ids: seq<string>)
    ensures |ids| == |qs|
    ensures forall i :: 0 <= i < |qs| ==> ids[i] == qs[i].id
  {
    seq(|qs|, i requires 0 <= i < |qs| => qs[i].id)
  }

  /** No element occurs twice. */
  predicate Distinct<T(==)>(s: seq<T>) {
    forall i, j :: 0 <= i < j < |s| ==> s[i] != s[j]
  }

  /** A sequence without repeats has as many distinct elements as positions. */
  lemma {:induction false} DistinctCard<T>(s: seq<T>)
    requires Distinct(s)
    ensures |set x | x in s| == |s|
    decreases |s|
  {
    if |s| > 0 {
      var init := s[..|s| - 1];
      DistinctCard(init);
      assert s == init + [s[|s| - 1]];
      assert (set x | x in s) == (set x | x in init) + {s[|s| - 1]};
      assert s[|s| - 1] !in init;
    }
  }

  // ---------------------------------------------------------------------------
  // text-field selectors

  /** The three `querySelectorAll` selectors over text fields:
      `.gap-input, input[type="text"], textarea` (the fill script),
      `.gap-input, input[type="text"]` (the older fill script) and
      `input[type="text"], textarea` (the exam page's own counters). */
  datatype Selector = FillSelector | OldFillSelector | PageSelector

  predicate Selects(sel: Selector, f: TextField) {
    match sel
    case FillSelector => f.gapClass || f.kind == TextInput || f.kind == TextArea
    case OldFillSelector => f.gapClass || f.kind == TextInput
    case PageSelector => f.kind == TextInput || f.kind == TextArea
  }

  /** How many of `fs` the selector matches. */
  function CountMatched(fs: seq<TextField>, sel: Selector): (n: nat)
    ensures n <= |fs|
  {
    if |fs| == 0 then 0 else (if Selects(sel, fs[0]) then 1 else 0) + CountMatched(fs[1..], sel)
  }

  /** The position of field `i` in the selector's result list. */
  function Rank(fs: seq<TextField>, sel: Selector, i: nat): nat
    requires i <= |fs|
  {
    CountMatched(fs[..i], sel)
  }

  lemma RankStep(fs: seq<TextField>, sel: Selector, i: nat)
    requires 0 < i <= |fs|
    ensures Rank(fs, sel, i) == (if Selects(sel, fs[0]) then 1 else 0) + Rank(fs[1..], sel, i - 1)
  {
    assert fs[..i][1..] == fs[1..][..i - 1];
  }

  /** `answers.forEach((ans, idx) => { if (inputs[idx]) inputs[idx].value = ans; })`
      where `inputs` are the matched fields: the matched field of rank `k` takes
      answer `k` while answers last; every other field keeps its value. */
  function FillInOrder(fs: seq<TextField>, sel: Selector, answers: seq<string>): (r: seq<TextField>)
    ensures |r| == |fs|
    ensures forall i :: 0 <= i < |fs| ==> r[i] == fs[i].(value := r[i].value)
    ensures forall i :: 0 <= i < |fs| && !Selects(sel, fs[i]) ==> r[i] == fs[i]
    ensures forall i :: 0 <= i < |fs| && Selects(sel, fs[i]) ==>
              r[i].value == (if Rank(fs, sel, i) < |answers| then answers[Rank(fs, sel, i)] else fs[i].value)
    decreases |fs|
  {
    if |fs| == 0 then []
    else
      var f := fs[0];
      var taken := Selects(sel, f) && |answers| > 0;
      var head := if taken then f.(value := answers[0]) else f;
      var rest := FillInOrder(fs[1..], sel, if taken then answers[1..] else if Selects(sel, f) then [] else answers);
      var r := [head] + rest;
      assert forall i :: 0 < i < |fs| ==> r[i] == rest[i - 1];
      forall i | 0 < i < |fs| ensures Rank(fs, sel, i) == (if Selects(sel, f) then 1 else 0) + Rank(fs[1..], sel, i - 1) {
        RankStep(fs, sel, i);
      }
      r
  }

  /** `inputs.forEach(input => { input.value = text; })` over the matched fields. */
  function SetMatched(fs: seq<TextField>, sel: Selector, text: string): (r: seq<TextField>)
    ensures |r| == |fs|
    ensures forall i :: 0 <= i < |fs| ==> r[i] == fs[i].(value := r[i].value)
    ensures forall i :: 0 <= i < |fs| && Selects(sel, fs[i]) ==> r[i].value == text
    ensures forall i :: 0 <= i < |fs| && !Selects(sel, fs[i]) ==> r[i] == fs[i]
  {
    seq(|fs|, i requires 0 <= i < |fs| => if Selects(sel, fs[i]) then fs[i].(value := text) else fs[i])
  }

  /** Setting the matched fields keeps every field's rank and the number of
      matched fields, and setting them again to the same text changes nothing. */
  lemma SetMatchedSettles(fs: seq<TextField>, sel: Selector, text: string)
    ensures var r := SetMatched(fs, sel, text);
      && CountMatched(r, sel) == CountMatched(fs, sel)
      && (forall i :: 0 <= i <= |fs| ==> Rank(r, sel, i) == Rank(fs, sel, i))
      && SetMatched(r, sel, text) == r
  {
    var r := SetMatched(fs, sel, text);
    forall i | 0 <= i <= |fs| ensures Rank(r, sel, i) == Rank(fs, sel, i) {
      SameRank(fs, r, sel, i);
    }
    assert r[..|r|] == r && fs[..|fs|] == fs;
    assert Rank(r, sel, |fs|) == Rank(fs, sel, |fs|);
  }

  /** Changing values alone does not move a field's rank. */
  lemma {:induction false} SameRank(fs: seq<TextField>, gs: seq<TextField>, sel: Selector, i: nat)
    requires |fs| == |gs| && i <= |fs|
    requires forall k :: 0 <= k < |fs| ==> gs[k] == fs[k].(value := gs[k].value)
    ensures Rank(gs, sel, i) == Rank(fs, sel, i)
    decreases i
  {
    if i > 0 {
      RankStep(fs, sel, i);
      RankStep(gs, sel, i);
      SameRank(fs[1..], gs[1..], sel, i - 1);
    }
  }

  /** Filling the blanks twice with the same answers is filling them once. */
  lemma FillInOrderIdempotent(fs: seq<TextField>, sel: Selector, answers: seq<string>)
    ensures FillInOrder(FillInOrder(fs, sel, answers), sel, answers) == FillInOrder(fs, sel, answers)
  {
    var once := FillInOrder(fs, sel, answers);
    forall i | 0 <= i < |fs| ensures Rank(once, sel, i) == Rank(fs, sel, i) {
      SameRank(fs, once, sel, i);
    }
  }

  // ---------------------------------------------------------------------------
  // checking choice inputs

  /** `ds` differs from `cs` in checked states alone. */
  predicate SameShape(cs: seq<ChoiceInput>, ds: seq<ChoiceInput>) {
    |ds| == |cs| && forall k :: 0 <= k < |cs| ==> ds[k] == cs[k].(checked := ds[k].checked)
  }

  /** Two radio buttons of one question that share a `name` form a group: at most
      one of them is checked at a time. */
  predicate SameGroup(a: ChoiceInput, b: ChoiceInput) {
    a.kind == Radio && b.kind == Radio && a.group == b.group
  }

  /** `input.checked = true` on input `j`: a radio button unchecks the other
      members of its group; nothing else changes. */
  function Check(cs: seq<ChoiceInput>, j: nat): (r: seq<ChoiceInput>)
    requires j < |cs|
    ensures |r| == |cs|
    ensures r[j].checked
    ensures forall i :: 0 <= i < |cs| ==> r[i] == cs[i].(checked := r[i].checked)
    ensures forall i :: 0 <= i < |cs| && i != j ==> r[i].checked == (cs[i].checked && !SameGroup(cs[i], cs[j]))
  {
    seq(|cs|, i requires 0 <= i < |cs| =>
      if i == j then cs[i].(checked := true)
      else if SameGroup(cs[i], cs[j]) then cs[i].(checked := false)
      else cs[i])
  }

  /** Some input at a position in `[lo, hi)` is marked in `hits` and shares input
      `i`'s radio group. */
  predicate GroupHit(cs: seq<ChoiceInput>, hits: seq<bool>, i: nat, lo: nat, hi: nat)
    requires |hits| == |cs| && i < |cs| && hi <= |cs|
  {
    exists k :: lo <= k < hi && hits[k] && SameGroup(cs[k], cs[i])
  }

  /** `r` is what checking the hit inputs among the first `n` leaves: only checked
      states differ; a checkbox is checked when it was or is hit; in a radio group
      with a hit exactly the last hit member is checked, and a group without a hit
      is left as it was. */
  predicate ChecksHits(cs: seq<ChoiceInput>, hits: seq<bool>, n: nat, r: seq<ChoiceInput>)
    requires |hits| == |cs| && n <= |cs|
  {
    && |r| == |cs|
    && (forall i :: 0 <= i < |cs| ==> r[i] == cs[i].(checked := r[i].checked))
    && (forall i :: 0 <= i < |cs| && cs[i].kind == Checkbox ==>
          r[i].checked == (cs[i].checked || (i < n && hits[i])))
    && (forall i :: 0 <= i < |cs| && cs[i].kind == Radio ==> r[i].checked == RadioAfter(cs, hits, n, i))
  }

  /** `inputs.forEach(input => { if (hit) input.checked = true; })` over the first
      `n` inputs, `hits` marking the inputs whose text matches. */
  function CheckHits(cs: seq<ChoiceInput>, hits: seq<bool>, n: nat): (r: seq<ChoiceInput>)
    requires |hits| == |cs| && n <= |cs|
    ensures ChecksHits(cs, hits, n, r)
    decreases n
  {
    if n == 0 then cs
    else
      var m := CheckHits(cs, hits, n - 1);
      CheckHitsStep(cs, hits, n, m);
      if hits[n - 1] then Check(m, n - 1) else m
  }

  /** The radio state the characterization asks for, after the first `n` inputs. */
  function RadioAfter(cs: seq<ChoiceInput>, hits: seq<bool>, n: nat, i: nat): bool
    requires |hits| == |cs| && n <= |cs| && i < |cs|
  {
    if GroupHit(cs, hits, i, 0, n) then i < n && hits[i] && !GroupHit(cs, hits, i, i + 1, n)
    else cs[i].checked
  }

  /** One radio button when input `n - 1` is hit and checked. */
  lemma RadioStepHit(cs: seq<ChoiceInput>, hits: seq<bool>, n: nat, i: nat, before: bool)
    requires |hits| == |cs| && 0 < n <= |cs| && i < |cs| && cs[i].kind == Radio && hits[n - 1]
    requires before == RadioAfter(cs, hits, n - 1, i)
    ensures RadioAfter(cs, hits, n, i) == (if i == n - 1 then true else before && !SameGroup(cs[i], cs[n - 1]))
  {
    var j := n - 1;
    if i == j {
      assert GroupHit(cs, hits, i, 0, n);
    } else if SameGroup(cs[i], cs[j]) {
      assert GroupHit(cs, hits, i, 0, n);
      if i < n {
        assert GroupHit(cs, hits, i, i + 1, n);
      }
    } else {
      assert GroupHit(cs, hits, i, 0, n) == GroupHit(cs, hits, i, 0, j);
      assert GroupHit(cs, hits, i, i + 1, n) == GroupHit(cs, hits, i, i + 1, j);
    }
  }

  /** One radio button when input `n - 1` is not hit. */
  lemma RadioStepMiss(cs: seq<ChoiceInput>, hits: seq<bool>, n: nat, i: nat)
    requires |hits| == |cs| && 0 < n <= |cs| && i < |cs| && cs[i].kind == Radio && !hits[n - 1]
    ensures RadioAfter(cs, hits, n, i) == RadioAfter(cs, hits, n - 1, i)
  {
    assert GroupHit(cs, hits, i, 0, n) == GroupHit(cs, hits, i, 0, n - 1);
    assert GroupHit(cs, hits, i, i + 1, n) == GroupHit(cs, hits, i, i + 1, n - 1);
  }

  /** One more input: checking it when hit extends the characterization. */
  lemma CheckHitsStep(cs: seq<ChoiceInput>, hits: seq<bool>, n: nat, m: seq<ChoiceInput>)
    requires |hits| == |cs| && 0 < n <= |cs|
    requires ChecksHits(cs, hits, n - 1, m)
    ensures ChecksHits(cs, hits, n, if hits[n - 1] then Check(m, n - 1) else m)
  {
    if hits[n - 1] {
      CheckHitsStepHit(cs, hits, n, m);
    } else {
      CheckHitsStepMiss(cs, hits, n, m);
    }
  }

  lemma CheckHitsStepMiss(cs: seq<ChoiceInput>, hits: seq<bool>, n: nat, m: seq<ChoiceInput>)
    requires |hits| == |cs| && 0 < n <= |cs| && !hits[n - 1]
    requires ChecksHits(cs, hits, n - 1, m)
    ensures ChecksHits(cs, hits, n, m)
  {
    assert forall i :: 0 <= i < |cs| && cs[i].kind == Checkbox ==>
             m[i].checked == (cs[i].checked || (i < n && hits[i]));
    forall i | 0 <= i < |cs| && cs[i].kind == Radio ensures m[i].checked == RadioAfter(cs, hits, n, i) {
      RadioStepMiss(cs, hits, n, i);
    }
  }

  lemma CheckHitsStepHit(cs: seq<ChoiceInput>, hits: seq<bool>, n: nat, m: seq<ChoiceInput>)
    requires |hits| == |cs| && 0 < n <= |cs| && hits[n - 1]
    requires ChecksHits(cs, hits, n - 1, m)
    ensures ChecksHits(cs, hits, n, Check(m, n - 1))
  {
    var j := n - 1;
    var r := Check(m, j);
    assert forall i :: 0 <= i < |cs| ==> r[i] == cs[i].(checked := r[i].checked);
    assert forall i :: 0 <= i < |cs| && cs[i].kind == Checkbox ==>
             r[i].checked == (cs[i].checked || (i < n && hits[i]));
    forall i | 0 <= i < |cs| && cs[i].kind == Radio ensures r[i].checked == RadioAfter(cs, hits, n, i) {
      assert SameGroup(m[i], m[j]) == SameGroup(cs[i], cs[j]);
      RadioStepHit(cs, hits, n, i, m[i].checked);
    }
  }

  /** Group hits depend only on kinds and names, which checking never changes. */
  lemma GroupHitSameShape(cs: seq<ChoiceInput>, ds: seq<ChoiceInput>, hits: seq<bool>, i: nat, lo: nat)
    requires SameShape(cs, ds) && |hits| == |cs| && i < |cs|
    ensures GroupHit(ds, hits, i, lo, |cs|) == GroupHit(cs, hits, i, lo, |cs|)
  {
    assert forall k :: 0 <= k < |cs| ==> SameGroup(ds[k], ds[i]) == SameGroup(cs[k], cs[i]);
  }
}
