/** The extractor's output read back by the fill scripts' parser. Parsing the
    rendered entries gives back exactly the id-to-answers map, provided ids and
    answers cannot be confused with the separators:
    - an id is non-empty, trimmed, has no newline and no `" -"` (so that `" - "`
      cannot start inside it);
    - an answer is non-empty, trimmed, has no newline, no comma and no `"- "`.
    Forbidding `" - "` alone would not do: the id `"a -"` renders as
    `"a - - x"`, which splits at index 1. */
module AnswerRoundTrip {
  import opened Text
  import opened Wrappers
  import opened Page
  import opened ExtractAnswers
  import opened AnswerParser

  predicate CleanId(id: string) {
    id != "" && IsTrimmed(id) && '\n' !in id && !Contains(id, " -")
  }

  predicate CleanAnswer(a: string) {
    a != "" && IsTrimmed(a) && '\n' !in a && ',' !in a && !Contains(a, "- ")
  }

  predicate CleanEntry(e: Entry) {
    && CleanId(e.id)
    && |e.answers| > 0
    && forall k :: 0 <= k < |e.answers| ==> CleanAnswer(e.answers[k])
  }

  function EntryIds(es: seq<Entry>): (ids: seq<string>)
    ensures |ids| == |es|
    ensures forall i :: 0 <= i < |es| ==> ids[i] == es[i].id
  {
    seq(|es|, i requires 0 <= i < |es| => es[i].id)
  }

  /** The map the entries describe, a later entry overriding an earlier one. */
  function ToMapFrom(acc: Answers, es: seq<Entry>): Answers
    decreases |es|
  {
    if |es| == 0 then acc else ToMapFrom(acc[es[0].id := es[0].answers], es[1..])
  }

  function ToMap(es: seq<Entry>): Answers {
    ToMapFrom(map[], es)
  }

  // ---------------------------------------------------------------------------
  // character-level facts about the separators

  /** No `'-'` is directly followed by a space. */
  predicate NoDashSpace(s: string) {
    forall i :: 0 <= i < |s| - 1 ==> !(s[i] == '-' && s[i + 1] == ' ')
  }

  lemma PairOccurs(s: string, x: char, y: char, i: nat)
    ensures OccursAt(s, [x, y], i) <==> i + 1 < |s| && s[i] == x && s[i + 1] == y
  {
    if i + 1 < |s| {
      assert s[i..i + 2] == [s[i], s[i + 1]];
    }
  }

  lemma SeparatorOccurs(s: string, i: nat)
    ensures OccursAt(s, " - ", i) ==> i + 2 < |s| && s[i] == ' ' && s[i + 1] == '-' && s[i + 2] == ' '
  {
    if OccursAt(s, " - ", i) {
      assert s[i..i + 3] == " - ";
      assert s[i] == s[i..i + 3][0] && s[i + 1] == s[i..i + 3][1] && s[i + 2] == s[i..i + 3][2];
    }
  }

  lemma NoDashSpaceOfClean(a: string)
    requires !Contains(a, "- ")
    ensures NoDashSpace(a)
  {
    forall i | 0 <= i < |a| - 1 ensures !(a[i] == '-' && a[i + 1] == ' ') {
      PairOccurs(a, '-', ' ', i);
      assert !OccursAt(a, "- ", i);
    }
  }

  lemma {:induction false} NoDashSpaceJoin(xs: seq<string>)
    requires forall k :: 0 <= k < |xs| ==> NoDashSpace(xs[k])
    ensures NoDashSpace(Join(xs, ", "))
    decreases |xs|
  {
    if |xs| > 1 {
      var a := xs[0];
      var r := Join(xs[1..], ", ");
      NoDashSpaceJoin(xs[1..]);
      var s := a + ", " + r;
      assert Join(xs, ", ") == s;
      forall i | 0 <= i < |s| - 1 ensures !(s[i] == '-' && s[i + 1] == ' ') {
        if i + 1 < |a| {
          assert s[i] == a[i] && s[i + 1] == a[i + 1];
        } else if i + 1 == |a| {
          assert s[i + 1] == ',';
        } else if i == |a| {
          assert s[i] == ',';
        } else if i == |a| + 1 {
          assert s[i] == ' ';
        } else {
          assert s[i] == r[i - |a| - 2] && s[i + 1] == r[i - |a| - 1];
        }
      }
    }
  }

  lemma NoSeparatorIn(j: string)
    requires NoDashSpace(j)
    ensures forall i: nat :: !OccursAt(j, " - ", i)
  {
    forall i: nat ensures !OccursAt(j, " - ", i) {
      SeparatorOccurs(j, i);
      if i + 2 < |j| {
        assert !(j[i + 1] == '-' && j[i + 2] == ' ');
      }
    }
  }

  lemma NoSeparatorInsideId(id: string, j: string)
    requires CleanId(id)
    ensures forall i: nat :: i < |id| ==> !OccursAt(id + " - " + j, " - ", i)
  {
    var s := id + " - " + j;
    forall i: nat | i < |id| ensures !OccursAt(s, " - ", i) {
      SeparatorOccurs(s, i);
      if i + 1 < |id| {
        PairOccurs(id, ' ', '-', i);
        assert !OccursAt(id, " -", i);
        assert s[i] == id[i] && s[i + 1] == id[i + 1];
      } else {
        assert s[i] == id[|id| - 1];
      }
    }
  }

  lemma {:induction false} CharNotInJoin(xs: seq<string>, sep: string, c: char)
    requires c !in sep
    requires forall k :: 0 <= k < |xs| ==> c !in xs[k]
    ensures c !in Join(xs, sep)
    decreases |xs|
  {
    if |xs| > 1 {
      CharNotInJoin(xs[1..], sep, c);
    }
  }

  /** A join of non-empty trimmed pieces is non-empty and trimmed. */
  lemma {:induction false} JoinTrimmed(xs: seq<string>, sep: string)
    requires |xs| > 0
    requires forall k :: 0 <= k < |xs| ==> xs[k] != "" && IsTrimmed(xs[k])
    ensures Join(xs, sep) != "" && IsTrimmed(Join(xs, sep))
    decreases |xs|
  {
    if |xs| > 1 {
      JoinTrimmed(xs[1..], sep);
      var s := xs[0] + sep + Join(xs[1..], sep);
      assert s[0] == xs[0][0];
      assert s[|s| - 1] == Join(xs[1..], sep)[|Join(xs[1..], sep)| - 1];
    }
  }

  // ---------------------------------------------------------------------------
  // one line, then the whole text

  /** Parsing the line of a clean entry gives back its id and answers. */
  lemma LineRoundTrip(e: Entry)
    requires CleanEntry(e)
    ensures ParseLine(EntryLine(e)) == Some((e.id, e.answers))
  {
    var j := Join(e.answers, ", ");
    forall k | 0 <= k < |e.answers| ensures NoDashSpace(e.answers[k]) {
      NoDashSpaceOfClean(e.answers[k]);
    }
    NoDashSpaceJoin(e.answers);
    NoSeparatorIn(j);
    SplitWithoutSeparator(j, " - ");
    NoSeparatorInsideId(e.id, j);
    SplitAtFirst(e.id, " - ", j);
    assert Split(EntryLine(e), " - ") == [e.id, j];
    JoinTrimmed(e.answers, ", ");
    SplitTrimJoin(e.answers);
  }

  lemma LineShape(e: Entry)
    requires CleanEntry(e)
    ensures EntryLine(e) != "" && IsTrimmed(EntryLine(e)) && '\n' !in EntryLine(e)
  {
    var j := Join(e.answers, ", ");
    JoinTrimmed(e.answers, ", ");
    CharNotInJoin(e.answers, ", ", '\n');
    var s := e.id + " - " + j;
    assert s[0] == e.id[0];
    assert s[|s| - 1] == j[|j| - 1];
  }

  function Lines(es: seq<Entry>): (ls: seq<string>)
    ensures |ls| == |es|
    ensures forall i :: 0 <= i < |es| ==> ls[i] == EntryLine(es[i])
  {
    seq(|es|, i requires 0 <= i < |es| => EntryLine(es[i]))
  }

  lemma {:induction false} RenderIsJoin(es: seq<Entry>)
    requires |es| > 0
    ensures Render(es) == Join(Lines(es), "\n") + "\n"
    decreases |es|
  {
    if |es| > 1 {
      RenderIsJoin(es[1..]);
      assert Lines(es)[1..] == Lines(es[1..]);
    }
  }

  lemma {:induction false} AddRenderedLines(acc: Answers, es: seq<Entry>)
    requires forall k :: 0 <= k < |es| ==> CleanEntry(es[k])
    ensures AddLines(acc, Lines(es)) == ToMapFrom(acc, es)
    decreases |es|
  {
    if |es| > 0 {
      var next := acc[es[0].id := es[0].answers];
      var ls := Lines(es);
      assert AddLine(acc, ls[0]) == next by {
        LineRoundTrip(es[0]);
      }
      assert ls[1..] == Lines(es[1..]);
      AddRenderedLines(next, es[1..]);
    }
  }

  /** Parsing rendered clean entries yields exactly the map they describe. */
  lemma RoundTrip(es: seq<Entry>)
    requires forall k :: 0 <= k < |es| ==> CleanEntry(es[k])
    ensures Parse(Render(es)) == ToMap(es)
  {
    if |es| == 0 {
      BlankInputParsesEmpty("");
    } else {
      var ls := Lines(es);
      forall k | 0 <= k < |ls| ensures ls[k] != "" && IsTrimmed(ls[k]) && '\n' !in ls[k] {
        LineShape(es[k]);
      }
      RenderIsJoin(es);
      JoinTrimmed(ls, "\n");
      TrimBeforeNewline(Join(ls, "\n"));
      SplitJoinChar(ls, '\n');
      AddRenderedLines(map[], es);
    }
  }

  // ---------------------------------------------------------------------------
  // the map the entries describe

  /** The keys of the map are the starting keys and the entries' ids. */
  lemma {:induction false} ToMapFromKeys(acc: Answers, es: seq<Entry>)
    ensures forall k :: k in ToMapFrom(acc, es) <==> k in acc || exists i :: 0 <= i < |es| && es[i].id == k
    decreases |es|
  {
    if |es| > 0 {
      var rest, acc' := es[1..], acc[es[0].id := es[0].answers];
      ToMapFromKeys(acc', rest);
      forall k ensures k in ToMapFrom(acc', rest) <==> k in acc || exists i :: 0 <= i < |es| && es[i].id == k {
        if exists i :: 0 <= i < |es| && es[i].id == k {
          var i :| 0 <= i < |es| && es[i].id == k;
          if i > 0 { assert rest[i - 1].id == k; }
        }
        if k !in acc && k != es[0].id && k in ToMapFrom(acc', rest) {
          var i :| 0 <= i < |rest| && rest[i].id == k;
          assert es[i + 1].id == k;
        }
      }
    }
  }

  /** A starting key that no entry names keeps its starting value. */
  lemma {:induction false} ToMapFromKeeps(acc: Answers, es: seq<Entry>, k: string)
    requires k in acc && forall i :: 0 <= i < |es| ==> es[i].id != k
    ensures k in ToMapFrom(acc, es) && ToMapFrom(acc, es)[k] == acc[k]
    decreases |es|
  {
    if |es| > 0 {
      assert forall i :: 0 <= i < |es| - 1 ==> es[1..][i] == es[i + 1];
      ToMapFromKeeps(acc[es[0].id := es[0].answers], es[1..], k);
    }
  }

  /** With distinct ids every entry's answers are found under its id, and
      nothing else is in the map. */
  lemma {:induction false} ToMapFromDistinct(acc: Answers, es: seq<Entry>)
    requires Distinct(EntryIds(es))
    ensures forall i :: 0 <= i < |es| ==> es[i].id in ToMapFrom(acc, es) && ToMapFrom(acc, es)[es[i].id] == es[i].answers
    ensures forall k :: k in ToMapFrom(acc, es) <==> k in acc || exists i :: 0 <= i < |es| && es[i].id == k
    ensures forall k :: k in acc && (forall i :: 0 <= i < |es| ==> es[i].id != k) ==> ToMapFrom(acc, es)[k] == acc[k]
    decreases |es|
  {
    ToMapFromKeys(acc, es);
    forall k | k in acc && (forall i :: 0 <= i < |es| ==> es[i].id != k) ensures ToMapFrom(acc, es)[k] == acc[k] {
      ToMapFromKeeps(acc, es, k);
    }
    if |es| > 0 {
      var rest, acc' := es[1..], acc[es[0].id := es[0].answers];
      assert forall i :: 0 <= i < |rest| ==> EntryIds(rest)[i] == EntryIds(es)[i + 1];
      ToMapFromDistinct(acc', rest);
      forall i | 0 <= i < |es| ensures es[i].id in ToMapFrom(acc', rest) && ToMapFrom(acc', rest)[es[i].id] == es[i].answers {
        if i == 0 {
          assert forall j :: 0 <= j < |rest| ==> rest[j].id != es[0].id by {
            forall j | 0 <= j < |rest| ensures rest[j].id != es[0].id {
              assert EntryIds(es)[j + 1] == rest[j].id;
            }
          }
          ToMapFromKeeps(acc', rest, es[0].id);
        } else {
          assert es[i] == rest[i - 1];
        }
      }
    }
  }

  // ---------------------------------------------------------------------------
  // the extractor's output, question by question

  lemma FallbacksClean()
    ensures CleanAnswer(NoCorrectAnswer) && CleanAnswer(NoAnswers)
  {
    assert '-' !in NoCorrectAnswer && '-' !in NoAnswers;
    DashFreeClean(NoCorrectAnswer);
    DashFreeClean(NoAnswers);
  }

  /** A text without `'-'` cannot contain `"- "`. */
  lemma DashFreeClean(s: string)
    requires s != "" && IsTrimmed(s) && '\n' !in s && ',' !in s && '-' !in s
    ensures CleanAnswer(s)
  {
    forall i: nat | i <= |s| ensures !OccursAt(s, "- ", i) {
      PairOccurs(s, '-', ' ', i);
      if i + 1 < |s| {
        assert s[i] in s;
      }
    }
  }

  /** Every question reports a non-empty list of clean answers when its own
      answers are clean: an empty list is replaced by the fallback text. */
  lemma ReportedClean(q: Question)
    requires Reportable(q) && CleanId(q.id)
    requires forall a :: a in AnswerList(q) ==> CleanAnswer(a)
    ensures CleanEntry(EntryOf(q))
  {
    var list := AnswerList(q);
    if |list| == 0 {
      FallbacksClean();
      assert Reported(q) == [Fallback(q.kind)];
    } else {
      forall k | 0 <= k < |list| ensures list[k] != "" && IsTrimmed(list[k]) {
        assert list[k] in list;
      }
      JoinTrimmed(list, ", ");
      assert Reported(q) == list;
      forall k | 0 <= k < |list| ensures CleanAnswer(list[k]) {
        assert list[k] in list;
      }
    }
  }

  lemma {:induction false} EntryIdsFromQuestions(qs: seq<Question>)
    ensures forall i :: 0 <= i < |Entries(qs)| ==> Entries(qs)[i].id in Ids(qs)
    decreases |qs|
  {
    if |qs| > 0 {
      EntryIdsFromQuestions(qs[1..]);
      assert forall i :: 0 <= i < |qs| - 1 ==> Ids(qs[1..])[i] == Ids(qs)[i + 1];
      assert forall x :: x in Ids(qs[1..]) ==> x in Ids(qs);
    }
  }

  lemma HeadIdNotInTail(qs: seq<Question>)
    requires |qs| > 0 && Distinct(Ids(qs))
    ensures qs[0].id !in Ids(qs[1..])
  {
    forall j | 0 <= j < |qs| - 1 ensures Ids(qs[1..])[j] != qs[0].id {
      assert Ids(qs)[0] != Ids(qs)[j + 1];
    }
  }

  lemma {:induction false} EntriesDistinct(qs: seq<Question>)
    requires Distinct(Ids(qs))
    ensures Distinct(EntryIds(Entries(qs)))
    decreases |qs|
  {
    if |qs| > 0 {
      var rest := qs[1..];
      assert Distinct(Ids(rest)) by {
        forall i, j | 0 <= i < j < |rest| ensures Ids(rest)[i] != Ids(rest)[j] {
          assert Ids(qs)[i + 1] != Ids(qs)[j + 1];
        }
      }
      EntriesDistinct(rest);
      var tail := Entries(rest);
      if Reportable(qs[0]) {
        var head := EntryOf(qs[0]);
        assert Entries(qs) == [head] + tail;
        EntryIdsFromQuestions(rest);
        HeadIdNotInTail(qs);
        DistinctCons(head, tail);
      }
    }
  }

  lemma DistinctCons(head: Entry, tail: seq<Entry>)
    requires Distinct(EntryIds(tail))
    requires forall i :: 0 <= i < |tail| ==> tail[i].id != head.id
    ensures Distinct(EntryIds([head] + tail))
  {
    var es := [head] + tail;
    forall i, j | 0 <= i < j < |es| ensures EntryIds(es)[i] != EntryIds(es)[j] {
      if i > 0 {
        assert EntryIds(tail)[i - 1] != EntryIds(tail)[j - 1];
      }
    }
  }

  /** The end-to-end property: when the questions have distinct clean ids and
      clean answers, the fill scripts' parser reads from the extractor's output
      exactly the answers of every multiple-choice and fill-in-the-blank question
      (the fallback text standing for an empty list), and no other id. */
  lemma ExtractThenParse(qs: seq<Question>)
    requires Distinct(Ids(qs))
    requires forall q :: q in qs && Reportable(q) ==>
               CleanId(q.id) && forall a :: a in AnswerList(q) ==> CleanAnswer(a)
    ensures forall q :: q in qs && Reportable(q) ==>
              q.id in Parse(Extract(qs)) && Parse(Extract(qs))[q.id] == Reported(q)
    ensures forall k :: k in Parse(Extract(qs)) ==> exists q :: q in qs && Reportable(q) && q.id == k
  {
    var es := Entries(qs);
    assert Parse(Extract(qs)) == ToMap(es) by {
      forall k | 0 <= k < |es| ensures CleanEntry(es[k]) {
        assert es[k] in es;
        var q :| q in qs && Reportable(q) && es[k] == EntryOf(q);
        ReportedClean(q);
      }
      ExtractRendersEntries(qs);
      RoundTrip(es);
    }
    EntriesDistinct(qs);
    ToMapFromDistinct(map[], es);
    forall q | q in qs && Reportable(q)
      ensures q.id in ToMap(es) && ToMap(es)[q.id] == Reported(q)
    {
      assert EntryOf(q) in es;
      var i :| 0 <= i < |es| && es[i] == EntryOf(q);
    }
    forall k | k in ToMap(es) ensures exists q :: q in qs && Reportable(q) && q.id == k {
      var i :| 0 <= i < |es| && es[i].id == k;
      assert es[i] in es;
    }
  }
}
