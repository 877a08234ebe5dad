/** The answer extractor run on the read-only answer view: one line
    `id - a, b, c` per multiple-choice or fill-in-the-blank question. */
module ExtractAnswers {
  import opened Text
  import opened Page
  import opened Sets

  const NoCorrectAnswer: string := "No correct answer found"
  const NoAnswers: string := "No answers provided"

  /** Only multiple-choice and fill-in-the-blank questions produce a line. */
  predicate Reportable(q: Question) {
    q.kind == Choice || q.kind == Blank
  }

  predicate HasCheckbox(q: Question) {
    exists i :: 0 <= i < |q.choices| && q.choices[i].kind == Checkbox
  }

  /** The kind of input whose marks are read: checkboxes when the question has
      any checkbox, radio buttons otherwise. */
  function MarkedKind(q: Question): (k: ChoiceKind)
    ensures k == Checkbox <==> exists c :: c in q.choices && c.kind == Checkbox
  {
    if HasCheckbox(q) then Checkbox else Radio
  }

  /** The checked inputs of kind `k`, in document order. */
  function CheckedOf(cs: seq<ChoiceInput>, k: ChoiceKind): (r: seq<ChoiceInput>)
    ensures |r| <= |cs|
    ensures forall c :: c in r <==> c in cs && c.checked && c.kind == k
  {
    if |cs| == 0 then []
    else (if cs[0].checked && cs[0].kind == k then [cs[0]] else []) + CheckedOf(cs[1..], k)
  }

  /** The checked inputs of a concatenation are those of the first part followed
      by those of the second: with `CheckedOf([], k) == []` and the one-input case
      this fixes the result as the selected inputs in document order, each as
      often as it occurs. */
  lemma {:induction false} CheckedOfAppend(a: seq<ChoiceInput>, b: seq<ChoiceInput>, k: ChoiceKind)
    ensures CheckedOf(a + b, k) == CheckedOf(a, k) + CheckedOf(b, k)
    decreases |a|
  {
    if |a| == 0 {
      assert a + b == b;
    } else {
      var head := if a[0].checked && a[0].kind == k then [a[0]] else [];
      assert (a + b)[0] == a[0];
      assert (a + b)[1..] == a[1..] + b;
      CheckedOfAppend(a[1..], b, k);
      AppendAssoc(head, CheckedOf(a[1..], k), CheckedOf(b, k));
    }
  }

  /** A single input is kept exactly when it is checked and of kind `k`. */
  lemma CheckedOfOne(c: ChoiceInput, k: ChoiceKind)
    ensures CheckedOf([c], k) == if c.checked && c.kind == k then [c] else []
  {
    assert [c][1..] == [];
  }

  function OptionTexts(cs: seq<ChoiceInput>): (r: seq<string>)
    ensures |r| == |cs|
    ensures forall i :: 0 <= i < |cs| ==> r[i] == OptionText(cs[i])
    ensures forall a :: a in r <==> exists c :: c in cs && a == OptionText(c)
  {
    var r := seq(|cs|, i requires 0 <= i < |cs| => OptionText(cs[i]));
    OptionTextsMembers(cs, r);
    r
  }

  lemma OptionTextsMembers(cs: seq<ChoiceInput>, r: seq<string>)
    requires |r| == |cs| && forall i :: 0 <= i < |cs| ==> r[i] == OptionText(cs[i])
    ensures forall a :: a in r <==> exists c :: c in cs && a == OptionText(c)
  {
    forall c | c in cs ensures OptionText(c) in r {
      var i :| 0 <= i < |cs| && cs[i] == c;
      assert r[i] == OptionText(c);
    }
    forall a | a in r ensures exists c :: c in cs && a == OptionText(c) {
      var i :| 0 <= i < |r| && r[i] == a;
      assert cs[i] in cs;
    }
  }

  /** The answers a question shows: the option texts of its marked inputs for
      multiple choice, the trimmed preview texts for fill-in-the-blank. */
  function AnswerList(q: Question): (r: seq<string>)
    requires Reportable(q)
    ensures q.kind == Choice ==>
              var marked := CheckedOf(q.choices, MarkedKind(q));
              |r| == |marked| && forall i :: 0 <= i < |r| ==> r[i] == OptionText(marked[i])
    ensures q.kind == Choice ==>
              forall a :: a in r <==>
                exists c :: c in q.choices && c.checked && c.kind == MarkedKind(q) && a == OptionText(c)
    ensures q.kind == Blank ==> |r| == |q.previews| && forall i :: 0 <= i < |r| ==> r[i] == Trim(q.previews[i])
  {
    if q.kind == Choice then
      OptionTexts(CheckedOf(q.choices, MarkedKind(q)))
    else TrimAll(q.previews)
  }

  function Fallback(k: Kind): string
    requires k != OtherKind
  {
    if k == Choice then NoCorrectAnswer else NoAnswers
  }

  /** The text after the separator: the answers joined with `", "`, or the
      fallback text when that join is empty. */
  function AnswerText(q: Question): (t: string)
    requires Reportable(q)
    ensures t != ""
    ensures Join(AnswerList(q), ", ") == "" ==> t == Fallback(q.kind)
    ensures Join(AnswerList(q), ", ") != "" ==> t == Join(AnswerList(q), ", ")
  {
    var joined := Join(AnswerList(q), ", ");
    if joined == "" then Fallback(q.kind) else joined
  }

  function Line(q: Question): string {
    if Reportable(q) then q.id + " - " + AnswerText(q) + "\n" else ""
  }

  /** The whole output: the lines of the questions, in document order. */
  function Extract(qs: seq<Question>): (r: string)
    ensures r == "" <==> forall i :: 0 <= i < |qs| ==> !Reportable(qs[i])
    ensures r != "" ==> r[|r| - 1] == '\n'
  {
    if |qs| == 0 then "" else Line(qs[0]) + Extract(qs[1..])
  }

  // ---------------------------------------------------------------------------
  // the output as a list of entries

  /** One reported question: its id and its answers. */
  datatype Entry = Entry(id: string, answers: seq<string>)

  /** The answers a line carries, with the fallback text standing for an empty join. */
  function Reported(q: Question): seq<string>
    requires Reportable(q)
  {
    if Join(AnswerList(q), ", ") == "" then [Fallback(q.kind)] else AnswerList(q)
  }

  function EntryOf(q: Question): Entry
    requires Reportable(q)
  {
    Entry(q.id, Reported(q))
  }

  /** The entries of the reportable questions, in document order. */
  function Entries(qs: seq<Question>): (es: seq<Entry>)
    ensures |es| <= |qs|
    ensures forall e :: e in es ==> exists q :: q in qs && Reportable(q) && e == EntryOf(q)
    ensures forall q :: q in qs && Reportable(q) ==> EntryOf(q) in es
  {
    if |qs| == 0 then []
    else
      var rest := Entries(qs[1..]);
      assert forall q :: q in qs ==> q == qs[0] || q in qs[1..];
      (if Reportable(qs[0]) then [EntryOf(qs[0])] else []) + rest
  }

  function EntryLine(e: Entry): string {
    e.id + " - " + Join(e.answers, ", ")
  }

  /** Entries written one per line, each line ended by a newline. */
  function Render(es: seq<Entry>): string {
    if |es| == 0 then "" else EntryLine(es[0]) + "\n" + Render(es[1..])
  }

  /** The extractor writes exactly the lines of its entries: one per multiple-choice
      or fill-in-the-blank question, in document order, nothing for the others. */
  lemma {:induction false} ExtractRendersEntries(qs: seq<Question>)
    ensures Extract(qs) == Render(Entries(qs))
    decreases |qs|
  {
    if |qs| > 0 {
      ExtractRendersEntries(qs[1..]);
      var q := qs[0];
      if Reportable(q) {
        assert Join(Reported(q), ", ") == AnswerText(q);
        assert Entries(qs) == [EntryOf(q)] + Entries(qs[1..]);
      } else {
        assert Entries(qs) == Entries(qs[1..]);
      }
    }
  }
}
