/** The answer-text parser at the top of both fill scripts: turns
    `id - a, b, c` lines into a map from question id to its answers. */
module AnswerParser {
  import opened Text
  import opened Wrappers

  type Answers = map<string, seq<string>>

  /** What one line contributes. The line is split on `" - "` and only the first
      two pieces are looked at; when the first piece or the second is empty (or
      missing) the line is ignored, otherwise the trimmed first piece maps to the
      second piece split on `,` with every answer trimmed. */
  function ParseLine(line: string): (r: Option<(string, seq<string>)>)
    ensures r.Some? ==> IsTrimmed(r.value.0) && |r.value.1| > 0
    ensures r.Some? ==> forall k :: 0 <= k < |r.value.1| ==> IsTrimmed(r.value.1[k])
  {
    var parts := Split(line, " - ");
    var answerPart := if |parts| > 1 then parts[1] else "";
    if parts[0] != "" && answerPart != "" then
      Some((Trim(parts[0]), TrimAll(Split(answerPart, ","))))
    else None
  }

  /** Every id is trimmed and maps to a non-empty list of trimmed answers. */
  predicate WellFormed(m: Answers) {
    forall id :: id in m ==> IsTrimmed(id) && |m[id]| > 0 && forall k :: 0 <= k < |m[id]| ==> IsTrimmed(m[id][k])
  }

  /** Records the line's answers, overwriting an earlier entry under the same id. */
  function AddLine(acc: Answers, line: string): (r: Answers)
    ensures WellFormed(acc) ==> WellFormed(r)
  {
    match ParseLine(line)
    case Some((id, answers)) => acc[id := answers]
    case None => acc
  }

  /** `lines.forEach(...)`: the lines folded into the map in order. */
  function AddLines(acc: Answers, lines: seq<string>): (r: Answers)
    ensures WellFormed(acc) ==> WellFormed(r)
    decreases |lines|
  {
    if |lines| == 0 then acc else AddLines(AddLine(acc, lines[0]), lines[1..])
  }

  /** The whole parser: trim the text, split it into lines, fold the lines. */
  function Parse(input: string): (r: Answers)
    ensures WellFormed(r)
  {
    AddLines(map[], Split(Trim(input), "\n"))
  }

  // ---------------------------------------------------------------------------
  // reference definition: the last line that mentions an id decides its answers

  /** The answers of the last line parsing to `id`, found by scanning from the end. */
  function Latest(lines: seq<string>, id: string): Option<seq<string>>
    decreases |lines|
  {
    if |lines| == 0 then None
    else match ParseLine(lines[|lines| - 1])
      case Some((k, answers)) =>
        if k == id then Some(answers) else Latest(lines[..|lines| - 1], id)
      case None => Latest(lines[..|lines| - 1], id)
  }

  lemma {:induction false} AddLinesSnoc(acc: Answers, lines: seq<string>, line: string)
    ensures AddLines(acc, lines + [line]) == AddLine(AddLines(acc, lines), line)
    decreases |lines|
  {
    if |lines| > 0 {
      assert (lines + [line])[1..] == lines[1..] + [line];
      AddLinesSnoc(AddLine(acc, lines[0]), lines[1..], line);
    }
  }

  /** Folding the lines keeps, for every id, the answers of the last line that
      mentions it, and an id appears only if some line mentions it. */
  lemma {:induction false} AddLinesIsLatest(lines: seq<string>)
    ensures forall id :: id in AddLines(map[], lines) <==> Latest(lines, id).Some?
    ensures forall id :: id in AddLines(map[], lines) ==> AddLines(map[], lines)[id] == Latest(lines, id).value
    decreases |lines|
  {
    if |lines| > 0 {
      var init := lines[..|lines| - 1];
      var last := lines[|lines| - 1];
      assert lines == init + [last];
      AddLinesSnoc(map[], init, last);
      AddLinesIsLatest(init);
    }
  }

  /** The parsed map holds exactly the ids of the lines, each with the answers of
      the last line that carries it. */
  lemma ParseKeepsLastLine(input: string)
    ensures forall id :: id in Parse(input) <==> Latest(Split(Trim(input), "\n"), id).Some?
    ensures forall id :: id in Parse(input) ==> Parse(input)[id] == Latest(Split(Trim(input), "\n"), id).value
  {
    AddLinesIsLatest(Split(Trim(input), "\n"));
  }

  /** A line without the `" - "` separator is ignored. */
  lemma LineWithoutSeparator(line: string)
    requires !Contains(line, " - ")
    ensures ParseLine(line).None?
  {
    forall i: nat ensures !OccursAt(line, " - ", i) {
      if i <= |line| {
        assert !OccursAt(line, " - ", i);
      }
    }
    SplitWithoutSeparator(line, " - ");
  }

  /** A line that starts with the separator has an empty id and is ignored. */
  lemma LineWithoutId(rest: string)
    ensures ParseLine(" - " + rest).None?
  {
    SplitAtFirst("", " - ", rest);
    assert "" + " - " + rest == " - " + rest;
  }

  /** Text made only of whitespace parses to the empty map. */
  lemma BlankInputParsesEmpty(input: string)
    requires forall i :: 0 <= i < |input| ==> IsSpace(input[i])
    ensures Parse(input) == map[]
  {
    assert TrimStart(input) == "";
    assert Split("", "\n") == [""];
    assert Split("", " - ") == [""];
  }
}
