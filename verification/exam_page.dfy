/** The script injected into the saved exam page: its countdown timer, the
    answered-question counter, the unanswered check and the answer collector. */
module ExamPage {
  import opened Text
  import opened Wrappers
  import opened Sets
  import opened Page

  // ---------------------------------------------------------------------------
  // the countdown timer

  /** The preset countdown, in minutes. It is positive, so the prompt asking for
      a duration is never shown. */
  const PresetMinutes: nat := 10
  const StartSeconds: nat := PresetMinutes * 60

  const TimeUp: string := "時間到！"

  /** `HH:MM:SS`, each part padded to two digits; the hours part grows past two
      digits rather than wrapping. */
  function FormatClock(t: nat): (s: string)
    ensures |s| >= 8
    ensures t < 360000 ==> |s| == 8
    ensures s[|s| - 6] == ':' && s[|s| - 3] == ':'
  {
    Pad2(t / 3600) + ":" + Pad2(t % 3600 / 60) + ":" + Pad2(t % 60)
  }

  /** Reads a clock display back into seconds: the last two digit pairs are the
      minutes and seconds, everything before them the hours. */
  function ReadClock(s: string): nat
    requires |s| >= 8
  {
    var n := |s|;
    ParseDecimal(s[..n - 6]) * 3600 + ParseDecimal(s[n - 5..n - 3]) * 60 + ParseDecimal(s[n - 2..])
  }

  /** Reading back three digit groups joined by colons, the last two of width two. */
  lemma ReadClockParts(s: string, h: string, m: string, sec: string)
    requires |s| >= 8
    requires s[..|s| - 6] == h && s[|s| - 5..|s| - 3] == m && s[|s| - 2..] == sec
    ensures ReadClock(s) == ParseDecimal(h) * 3600 + ParseDecimal(m) * 60 + ParseDecimal(sec)
  {
  }

  lemma ClockSlices(s: string, h: string, m: string, sec: string)
    requires |m| == 2 && |sec| == 2
    requires s == h + ":" + m + ":" + sec
    ensures |s| == |h| + 6
    ensures s[..|s| - 6] == h && s[|s| - 5..|s| - 3] == m && s[|s| - 2..] == sec
  {
  }

  /** The display determines the time: reading it back gives the seconds shown. */
  lemma ClockRoundTrip(t: nat)
    ensures ReadClock(FormatClock(t)) == t
  {
    var h, m, sec := Pad2(t / 3600), Pad2(t % 3600 / 60), Pad2(t % 60);
    ClockSlices(FormatClock(t), h, m, sec);
    ReadClockParts(FormatClock(t), h, m, sec);
    HoursMinutesSeconds(t);
  }

  lemma HoursMinutesSeconds(t: nat)
    ensures t / 3600 * 3600 + t % 3600 / 60 * 60 + t % 60 == t
  {
    assert t % 3600 == t % 3600 / 60 * 60 + t % 3600 % 60;
    assert t % 3600 % 60 == t % 60;
  }

  /** What the timer element shows: the page's own text before the first tick,
      a clock reading, or the time-up notice. */
  datatype Display = Original(text: string) | Clock(seconds: nat) | TimeUpNotice

  /** The element's text content. */
  function DisplayText(d: Display): (s: string)
    ensures d.Clock? ==> |s| >= 8 && ReadClock(s) == d.seconds
  {
    match d
    case Original(text) => text
    case Clock(seconds) => ClockRoundTrip(seconds); FormatClock(seconds)
    case TimeUpNotice => TimeUp
  }

  /** Two displays of clock readings show the same text only for the same time. */
  lemma ClockTextsDiffer(t: nat, u: nat)
    requires t != u
    ensures DisplayText(Clock(t)) != DisplayText(Clock(u))
  {
    ClockRoundTrip(t);
    ClockRoundTrip(u);
  }

  /** The timer: seconds left, what the element shows, and whether the interval
      has been cleared. */
  datatype Timer = Timer(remaining: nat, display: Display, stopped: bool)

  /** The timer before its first tick: the page's original display is kept. */
  function StartTimer(text: string): Timer {
    Timer(StartSeconds, Original(text), false)
  }

  /** One interval callback. While time remains, the display shows the time left
      before this tick and the count goes down by one; at zero the interval is
      cleared and the display reads `時間到！`. A cleared timer no longer ticks. */
  function Tick(t: Timer): (r: Timer)
    ensures t.stopped ==> r == t
    ensures !t.stopped && t.remaining > 0 ==>
              r.remaining == t.remaining - 1 && !r.stopped && r.display.Clock? && r.display.seconds == t.remaining
    ensures !t.stopped && t.remaining == 0 ==> r.stopped && r.remaining == 0 && DisplayText(r.display) == TimeUp
  {
    if t.stopped then t
    else if t.remaining > 0 then Timer(t.remaining - 1, Clock(t.remaining), false)
    else Timer(0, TimeUpNotice, true)
  }

  function Ticks(t: Timer, k: nat): Timer
    decreases k
  {
    if k == 0 then t else Ticks(Tick(t), k - 1)
  }

  /** A running timer with `n` seconds left shows `n - k + 1` after `k` ticks,
      `1 <= k <= n`, and is still running. */
  lemma {:induction false} TicksCountDown(t: Timer, k: nat)
    requires !t.stopped && 1 <= k <= t.remaining
    ensures Ticks(t, k) == Timer(t.remaining - k, Clock(t.remaining - k + 1), false)
    decreases k
  {
    if k > 1 {
      TicksCountDown(Tick(t), k - 1);
    }
  }

  /** Once stopped, the timer stays stopped. */
  lemma {:induction false} StoppedStays(t: Timer, k: nat)
    requires t.stopped
    ensures Ticks(t, k) == t
    decreases k
  {
    if k > 0 {
      StoppedStays(Tick(t), k - 1);
    }
  }

  /** From the preset, the last second is shown on tick 600, the timer stops on
      tick 601 with `時間到！`, and it never changes afterwards. */
  lemma PresetTimeline(text: string, k: nat)
    ensures Ticks(StartTimer(text), StartSeconds) == Timer(0, Clock(1), false)
    ensures k > StartSeconds ==> Ticks(StartTimer(text), k) == Timer(0, TimeUpNotice, true)
  {
    var t := StartTimer(text);
    TicksCountDown(t, StartSeconds);
    if k > StartSeconds {
      TicksSplit(t, StartSeconds, k - StartSeconds);
      var last := Ticks(t, StartSeconds);
      assert Ticks(last, k - StartSeconds) == Ticks(Tick(last), k - StartSeconds - 1);
      StoppedStays(Tick(last), k - StartSeconds - 1);
    }
  }

  lemma {:induction false} TicksSplit(t: Timer, a: nat, b: nat)
    ensures Ticks(t, a + b) == Ticks(Ticks(t, a), b)
    decreases a
  {
    if a > 0 {
      TicksSplit(Tick(t), a - 1, b);
    }
  }

  // ---------------------------------------------------------------------------
  // answered count and unanswered check

  predicate SomeChecked(q: Question) {
    exists i :: 0 <= i < |q.choices| && q.choices[i].checked
  }

  /** Every text input and textarea holds something besides whitespace
      (vacuously so when the question has none). */
  predicate AllFilled(q: Question) {
    forall i :: 0 <= i < |q.fields| && Selects(PageSelector, q.fields[i]) ==> Trim(q.fields[i].value) != ""
  }

  /** The rule of the answered counter: a multiple-choice question with a checked
      input, or a fill-in-the-blank question with every field filled. */
  predicate Answered(q: Question) {
    match q.kind
    case Choice => SomeChecked(q)
    case Blank => AllFilled(q)
    case OtherKind => false
  }

  /** The positions `0 .. n - 1`. */
  function Below(n: nat): (r: set<nat>)
    ensures forall k: nat :: k in r <==> k < n
    ensures |r| == n
  {
    if n == 0 then {} else Below(n - 1) + {n - 1}
  }

  /** The positions of the answered questions. */
  function AnsweredSet(qs: seq<Question>): set<nat> {
    set i: nat | i < |qs| && Answered(qs[i])
  }

  lemma AnsweredSetStep(qs: seq<Question>, i: nat)
    requires i < |qs|
    ensures AnsweredSet(qs[..i + 1]) == AnsweredSet(qs[..i]) + (if Answered(qs[i]) then {i} else {})
  {
  }

  method HasChecked(q: Question) returns (b: bool)
    ensures b == SomeChecked(q)
  {
    b := false;
    var j := 0;
    while j < |q.choices|
      invariant 0 <= j <= |q.choices|
      invariant b == exists i :: 0 <= i < j && q.choices[i].checked
    {
      b := b || q.choices[j].checked;
      j := j + 1;
    }
  }

  method Filled(q: Question) returns (b: bool)
    ensures b == AllFilled(q)
  {
    b := true;
    var j := 0;
    while j < |q.fields|
      invariant 0 <= j <= |q.fields|
      invariant b == forall i :: 0 <= i < j && Selects(PageSelector, q.fields[i]) ==> Trim(q.fields[i].value) != ""
    {
      if Selects(PageSelector, q.fields[j]) && Trim(q.fields[j].value) == "" {
        b := false;
      }
      j := j + 1;
    }
  }

  /** `updateAnsweredCount`: the number written into the counter is the number of
      answered questions, and it equals the number of questions exactly when all
      of them are answered. */
  method AnsweredCount(qs: seq<Question>) returns (count: nat)
    ensures count == |AnsweredSet(qs)|
    ensures count <= |qs|
    ensures count == |qs| <==> forall i :: 0 <= i < |qs| ==> Answered(qs[i])
  {
    count := 0;
    var i := 0;
    while i < |qs|
      invariant 0 <= i <= |qs|
      invariant count == |AnsweredSet(qs[..i])|
    {
      var q := qs[i];
      var answered := false;
      if q.kind == Choice {
        answered := HasChecked(q);
      } else if q.kind == Blank {
        answered := Filled(q);
      }
      AnsweredSetStep(qs, i);
      assert i !in AnsweredSet(qs[..i]);
      if answered {
        count := count + 1;
      }
      i := i + 1;
    }
    assert qs[..|qs|] == qs;
    AnsweredCountBound(qs);
  }

  /** At most every question is answered, and all of them exactly when the
      answered positions number as many as the questions. */
  lemma AnsweredCountBound(qs: seq<Question>)
    ensures |AnsweredSet(qs)| <= |qs|
    ensures |AnsweredSet(qs)| == |qs| <==> forall i :: 0 <= i < |qs| ==> Answered(qs[i])
  {
    var all := Below(|qs|);
    assert AnsweredSet(qs) <= all;
    SubsetCard(AnsweredSet(qs), all);
    if |AnsweredSet(qs)| == |qs| {
      EqualCardSubset(AnsweredSet(qs), all);
      forall i | 0 <= i < |qs| ensures Answered(qs[i]) {
        assert i in all;
      }
    }
    if forall i :: 0 <= i < |qs| ==> Answered(qs[i]) {
      assert AnsweredSet(qs) == all;
    }
  }

  /** `checkUnansweredQuestions`: some multiple-choice question has no checked input. */
  method CheckUnanswered(qs: seq<Question>) returns (b: bool)
    ensures b <==> exists i :: 0 <= i < |qs| && qs[i].kind == Choice && !SomeChecked(qs[i])
  {
    b := false;
    var i := 0;
    while i < |qs|
      invariant 0 <= i <= |qs|
      invariant b <==> exists k :: 0 <= k < i && qs[k].kind == Choice && !SomeChecked(qs[k])
    {
      if qs[i].kind == Choice {
        var checked := HasChecked(qs[i]);
        if !checked {
          b := true;
        }
      }
      i := i + 1;
    }
  }

  /** Every question the check misses is answered, as the counter sees it. */
  lemma NoUnansweredChoice(qs: seq<Question>)
    requires !exists i :: 0 <= i < |qs| && qs[i].kind == Choice && !SomeChecked(qs[i])
    ensures forall i :: 0 <= i < |qs| && qs[i].kind == Choice ==> i in AnsweredSet(qs)
  {
  }

  // ---------------------------------------------------------------------------
  // collecting the answers

  /** What one question contributes: the value of its first checked input, or the
      trimmed values of its text fields. */
  datatype Collected = Picked(value: string) | Typed(values: seq<string>)

  function FirstChecked(cs: seq<ChoiceInput>): (r: Option<string>)
    ensures r.None? <==> forall i :: 0 <= i < |cs| ==> !cs[i].checked
    ensures r.Some? ==> exists i :: 0 <= i < |cs| && cs[i].checked && r.value == cs[i].value &&
                          forall j :: 0 <= j < i ==> !cs[j].checked
  {
    if |cs| == 0 then None
    else if cs[0].checked then Some(cs[0].value)
    else
      var r := FirstChecked(cs[1..]);
      assert forall i :: 0 < i < |cs| ==> cs[i] == cs[1..][i - 1];
      r
  }

  /** The fields the page's own selector matches, in order. */
  function PageFields(fs: seq<TextField>): (r: seq<TextField>)
    ensures |r| == CountMatched(fs, PageSelector)
    ensures forall f :: f in r <==> f in fs && Selects(PageSelector, f)
  {
    if |fs| == 0 then []
    else (if Selects(PageSelector, fs[0]) then [fs[0]] else []) + PageFields(fs[1..])
  }

  function TrimmedValues(fs: seq<TextField>): (r: seq<string>)
    ensures |r| == |fs|
    ensures forall i :: 0 <= i < |fs| ==> r[i] == Trim(fs[i].value)
  {
    seq(|fs|, i requires 0 <= i < |fs| => Trim(fs[i].value))
  }

  /** A question's contribution, when it has one. */
  function CollectOf(q: Question): (r: Option<Collected>)
    ensures q.kind == OtherKind ==> r.None?
    ensures q.kind == Choice ==> (r.Some? <==> SomeChecked(q))
    ensures q.kind == Choice && r.Some? ==> r.value == Picked(FirstChecked(q.choices).value)
    ensures q.kind == Blank ==>
              var vs := TrimmedValues(PageFields(q.fields));
              && (r.Some? <==> |vs| > 0 && exists i :: 0 <= i < |vs| && vs[i] != "")
              && (r.Some? ==> r.value == Typed(vs))
  {
    match q.kind
    case Choice =>
      (match FirstChecked(q.choices)
       case Some(v) => Some(Picked(v))
       case None => None)
    case Blank =>
      var values := TrimmedValues(PageFields(q.fields));
      if |values| > 0 && exists i :: 0 <= i < |values| && values[i] != "" then Some(Typed(values)) else None
    case OtherKind => None
  }

  /** Reference definition: the contribution of the last question with this id
      that contributes anything, found by scanning from the end. */
  function LastCollected(qs: seq<Question>, id: string): Option<Collected>
    decreases |qs|
  {
    if |qs| == 0 then None
    else
      var q := qs[|qs| - 1];
      if q.id == id && CollectOf(q).Some? then CollectOf(q) else LastCollected(qs[..|qs| - 1], id)
  }

  /** `collectAnswers`: an id is present exactly when some question with that id
      contributes, and it holds the contribution of the last such question. */
  method CollectAnswers(qs: seq<Question>) returns (answers: map<string, Collected>)
    ensures forall id :: id in answers <==> LastCollected(qs, id).Some?
    ensures forall id :: id in answers ==> answers[id] == LastCollected(qs, id).value
  {
    answers := map[];
    var i := 0;
    while i < |qs|
      invariant 0 <= i <= |qs|
      invariant forall id :: id in answers <==> LastCollected(qs[..i], id).Some?
      invariant forall id :: id in answers ==> answers[id] == LastCollected(qs[..i], id).value
    {
      var q := qs[i];
      var c := CollectOf(q);
      if c.Some? {
        answers := answers[q.id := c.value];
      }
      assert qs[..i + 1][..i] == qs[..i];
      i := i + 1;
    }
    assert qs[..|qs|] == qs;
  }

  /** A contributing question is present in the collected answers. */
  lemma {:induction false} LastCollectedPresent(qs: seq<Question>, i: nat)
    requires i < |qs| && CollectOf(qs[i]).Some?
    ensures LastCollected(qs, qs[i].id).Some?
    decreases |qs|
  {
    if i < |qs| - 1 {
      var init := qs[..|qs| - 1];
      assert init[i] == qs[i];
      LastCollectedPresent(init, i);
    }
  }

  /** A question answered by the counter's rule with at least one field is
      collected too; with distinct ids its own contribution is the one kept. */
  lemma {:induction false} LastCollectedDistinct(qs: seq<Question>, i: nat)
    requires Distinct(Ids(qs)) && i < |qs|
    ensures LastCollected(qs, qs[i].id) == CollectOf(qs[i])
    decreases |qs|
  {
    var init := qs[..|qs| - 1];
    if i < |qs| - 1 {
      assert qs[|qs| - 1].id != qs[i].id by {
        assert Ids(qs)[i] != Ids(qs)[|qs| - 1];
      }
      DistinctInit(qs);
      assert init[i] == qs[i];
      LastCollectedDistinct(init, i);
      LastCollectedSkip(qs, qs[i].id);
    } else {
      forall k | 0 <= k < |init| ensures init[k].id != qs[i].id {
        assert Ids(qs)[k] != Ids(qs)[i];
      }
      LastCollectedAbsent(init, qs[i].id);
      LastCollectedLast(qs);
    }
  }

  lemma DistinctInit(qs: seq<Question>)
    requires Distinct(Ids(qs)) && |qs| > 0
    ensures Distinct(Ids(qs[..|qs| - 1]))
  {
    var init := qs[..|qs| - 1];
    forall a, b | 0 <= a < b < |init| ensures Ids(init)[a] != Ids(init)[b] {
      assert Ids(qs)[a] != Ids(qs)[b];
    }
  }

  /** A last question with another id does not affect the result. */
  lemma LastCollectedSkip(qs: seq<Question>, id: string)
    requires |qs| > 0 && qs[|qs| - 1].id != id
    ensures LastCollected(qs, id) == LastCollected(qs[..|qs| - 1], id)
  {
  }

  /** The last question decides its own id when it contributes, and otherwise
      leaves the earlier questions to decide. */
  lemma LastCollectedLast(qs: seq<Question>)
    requires |qs| > 0
    ensures var q := qs[|qs| - 1];
      LastCollected(qs, q.id) == if CollectOf(q).Some? then CollectOf(q) else LastCollected(qs[..|qs| - 1], q.id)
  {
  }

  /** An id that no question carries is never collected. */
  lemma {:induction false} LastCollectedAbsent(qs: seq<Question>, id: string)
    requires forall k :: 0 <= k < |qs| ==> qs[k].id != id
    ensures LastCollected(qs, id).None?
    decreases |qs|
  {
    if |qs| > 0 {
      LastCollectedAbsent(qs[..|qs| - 1], id);
    }
  }
}
