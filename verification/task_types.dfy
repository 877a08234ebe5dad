/** The task status labels and the task configuration record with its
    keyword-argument update. */
module TaskTypes {
  import opened Wrappers

  /** The four states a task row shows. */
  datatype Status = Waiting | Running | Completed | Failed

  /** The label shown for a status. */
  function Label(s: Status): (l: string)
    ensures ParseLabel(l) == Some(s)
  {
    match s
    case Waiting => "等待中"
    case Running => "執行中"
    case Completed => "已完成"
    case Failed => "執行失敗"
  }

  /** The status a label stands for, if any. */
  function ParseLabel(l: string): Option<Status> {
    if l == "等待中" then Some(Waiting)
    else if l == "執行中" then Some(Running)
    else if l == "已完成" then Some(Completed)
    else if l == "執行失敗" then Some(Failed)
    else None
  }

  /** The four labels are pairwise distinct, so a label names one status. */
  lemma LabelsDistinct(a: Status, b: Status)
    requires a != b
    ensures Label(a) != Label(b)
  {
    assert ParseLabel(Label(a)) != ParseLabel(Label(b));
  }

  /** The message sink a task reports to; only its identity matters here. */
  datatype Sink = Sink(id: nat)

  /** Scores and times are Python floats; they are modelled as exact reals. */
  datatype TaskConfig = TaskConfig(
    account: string,
    password: string,
    courseId: string,
    targetScore: real,
    answerTime: real,
    printCallback: Option<Sink>)

  /** A keyword argument's value. */
  datatype Value = Text(text: string) | Number(number: real) | Callback(sink: Option<Sink>)

  /** The attribute names an update recognises. */
  const FieldNames: set<string> := {"account", "password", "course_id", "target_score", "answer_time", "print_callback"}

  /** Each recognised name carries a value of its field's type. */
  predicate WellTyped(kw: map<string, Value>) {
    ("account" in kw ==> kw["account"].Text?) &&
    ("password" in kw ==> kw["password"].Text?) &&
    ("course_id" in kw ==> kw["course_id"].Text?) &&
    ("target_score" in kw ==> kw["target_score"].Number?) &&
    ("answer_time" in kw ==> kw["answer_time"].Number?) &&
    ("print_callback" in kw ==> kw["print_callback"].Callback?)
  }

  /** `update(**kwargs)`: every keyword naming a field sets that field; any other
      keyword is ignored. */
  function Update(c: TaskConfig, kw: map<string, Value>): (r: TaskConfig)
    requires WellTyped(kw)
    ensures r.account == (if "account" in kw then kw["account"].text else c.account)
    ensures r.password == (if "password" in kw then kw["password"].text else c.password)
    ensures r.courseId == (if "course_id" in kw then kw["course_id"].text else c.courseId)
    ensures r.targetScore == (if "target_score" in kw then kw["target_score"].number else c.targetScore)
    ensures r.answerTime == (if "answer_time" in kw then kw["answer_time"].number else c.answerTime)
    ensures r.printCallback == (if "print_callback" in kw then kw["print_callback"].sink else c.printCallback)
  {
    var c1 := if "account" in kw then c.(account := kw["account"].text) else c;
    var c2 := if "password" in kw then c1.(password := kw["password"].text) else c1;
    var c3 := if "course_id" in kw then c2.(courseId := kw["course_id"].text) else c2;
    var c4 := if "target_score" in kw then c3.(targetScore := kw["target_score"].number) else c3;
    var c5 := if "answer_time" in kw then c4.(answerTime := kw["answer_time"].number) else c4;
    if "print_callback" in kw then c5.(printCallback := kw["print_callback"].sink) else c5
  }

  /** Keywords that name no field change nothing. */
  lemma UnknownKeywordsIgnored(c: TaskConfig, kw: map<string, Value>)
    requires forall k :: k in kw ==> k !in FieldNames
    ensures Update(c, kw) == c
  {
  }

  /** Only the recognised keywords matter. */
  lemma OnlyFieldNamesMatter(c: TaskConfig, kw: map<string, Value>)
    requires WellTyped(kw)
    ensures Update(c, kw) == Update(c, map k | k in kw && k in FieldNames :: kw[k])
  {
  }

  /** Updating twice with the same keywords is updating once. */
  lemma UpdateIdempotent(c: TaskConfig, kw: map<string, Value>)
    requires WellTyped(kw)
    ensures Update(Update(c, kw), kw) == Update(c, kw)
  {
  }

  /** Updates with disjoint keywords commute. */
  lemma UpdatesCommute(c: TaskConfig, kw1: map<string, Value>, kw2: map<string, Value>)
    requires WellTyped(kw1) && WellTyped(kw2)
    requires kw1.Keys !! kw2.Keys
    ensures Update(Update(c, kw1), kw2) == Update(Update(c, kw2), kw1)
  {
  }
}
