/** The pure parts of the exam bot: the answer-view URL rewrite, the account
    check, the countdown before submitting, and how the outcomes of the browser
    steps decide what `login` and `run` return. */
module ExamBot {
  import opened Wrappers
  import opened Text
  import opened Page
  import opened ExtractAnswers

  // ---------------------------------------------------------------------------
  // the answer-view URL

  /** A query parameter, already percent-decoded. */
  type Param = (string, string)

  /** The six parts `urlparse` splits a URL into, with the query as its decoded
      name/value pairs in order. */
  datatype Url = Url(scheme: string, netloc: string, path: string, params: string, query: seq<Param>, fragment: string)

  /** The pairs named `n`, in order. */
  function Named(q: seq<Param>, n: string): (r: seq<Param>)
    ensures |r| <= |q|
    ensures forall p :: p in r <==> p in q && p.0 == n
  {
    if |q| == 0 then [] else (if q[0].0 == n then [q[0]] else []) + Named(q[1..], n)
  }

  /** The pairs not named `n`, in order. */
  function Unnamed(q: seq<Param>, n: string): (r: seq<Param>)
    ensures |r| <= |q|
    ensures forall p :: p in r <==> p in q && p.0 != n
  {
    if |q| == 0 then [] else (if q[0].0 != n then [q[0]] else []) + Unnamed(q[1..], n)
  }

  /** `parse_qs` then `urlencode(doseq=True)`: the pairs regrouped by name, the
      names in order of first appearance, each name's values in their order. */
  function Grouped(q: seq<Param>): (r: seq<Param>)
    ensures forall p :: p in r <==> p in q
    decreases |q|
  {
    if |q| == 0 then []
    else
      var rest := Unnamed(q, q[0].0);
      assert |rest| < |q| by {
        assert |Unnamed(q[1..], q[0].0)| <= |q| - 1;
      }
      Named(q, q[0].0) + Grouped(rest)
  }

  /** Names kept by the rewrite. */
  predicate Kept(p: Param) {
    (p.0 == "key" || p.0 == "title") && p.1 != ""
  }

  /** The pairs `parse_qs` keeps (it drops blank values) and the filter keeps. */
  function KeptPairs(q: seq<Param>): (r: seq<Param>)
    ensures forall p :: p in r <==> p in q && Kept(p)
  {
    if |q| == 0 then [] else (if Kept(q[0]) then [q[0]] else []) + KeptPairs(q[1..])
  }

  const ViewMode: Param := ("mode", "view")

  /** `modify_url`: only the non-blank `key` and `title` parameters survive, with
      every one of their values, followed by `mode=view`; the other parts of the
      URL are unchanged. */
  function ModifyUrl(u: Url): (r: Url)
    ensures r.scheme == u.scheme && r.netloc == u.netloc && r.path == u.path
    ensures r.params == u.params && r.fragment == u.fragment
    ensures Named(r.query, "mode") == [ViewMode]
    ensures Named(r.query, "key") == Named(KeptPairs(u.query), "key")
    ensures Named(r.query, "title") == Named(KeptPairs(u.query), "title")
    ensures forall p :: p in r.query ==> p == ViewMode || (p in u.query && Kept(p))
  {
    var kept := KeptPairs(u.query);
    var grouped := Grouped(kept);
    NamedAppend(grouped, [ViewMode], "mode");
    NamedAppend(grouped, [ViewMode], "key");
    NamedAppend(grouped, [ViewMode], "title");
    NoneNamed(grouped, "mode");
    GroupedNamed(kept, "key");
    GroupedNamed(kept, "title");
    u.(query := grouped + [ViewMode])
  }

  lemma {:induction false} NamedAppend(a: seq<Param>, b: seq<Param>, n: string)
    ensures Named(a + b, n) == Named(a, n) + Named(b, n)
    decreases |a|
  {
    if |a| == 0 {
      assert a + b == b;
    } else {
      assert (a + b)[1..] == a[1..] + b;
      NamedAppend(a[1..], b, n);
      var h := if a[0].0 == n then [a[0]] else [];
      assert Named(a + b, n) == h + (Named(a[1..], n) + Named(b, n));
      assert h + (Named(a[1..], n) + Named(b, n)) == (h + Named(a[1..], n)) + Named(b, n);
    }
  }

  lemma {:induction false} UnnamedAppend(a: seq<Param>, b: seq<Param>, n: string)
    ensures Unnamed(a + b, n) == Unnamed(a, n) + Unnamed(b, n)
    decreases |a|
  {
    if |a| == 0 {
      assert a + b == b;
    } else {
      assert (a + b)[1..] == a[1..] + b;
      UnnamedAppend(a[1..], b, n);
      var h := if a[0].0 != n then [a[0]] else [];
      assert Unnamed(a + b, n) == h + (Unnamed(a[1..], n) + Unnamed(b, n));
      assert h + (Unnamed(a[1..], n) + Unnamed(b, n)) == (h + Unnamed(a[1..], n)) + Unnamed(b, n);
    }
  }

  lemma {:induction false} NoneNamed(q: seq<Param>, n: string)
    requires forall p :: p in q ==> p.0 != n
    ensures Named(q, n) == [] && Unnamed(q, n) == q
    decreases |q|
  {
    if |q| > 0 {
      NoneNamed(q[1..], n);
    }
  }

  lemma {:induction false} AllNamed(q: seq<Param>, n: string)
    requires forall p :: p in q ==> p.0 == n
    ensures Named(q, n) == q && Unnamed(q, n) == []
    decreases |q|
  {
    if |q| > 0 {
      AllNamed(q[1..], n);
    }
  }

  /** Selecting one name twice, or two different names in either order. */
  lemma {:induction false} NamedOfUnnamed(q: seq<Param>, n: string, m: string)
    ensures Named(Unnamed(q, m), n) == if n == m then [] else Named(q, n)
    decreases |q|
  {
    if |q| > 0 {
      NamedOfUnnamed(q[1..], n, m);
      var h := if q[0].0 != m then [q[0]] else [];
      NamedAppend(h, Unnamed(q[1..], m), n);
    }
  }

  /** Regrouping keeps every name's values, in their order. */
  lemma {:induction false} GroupedNamed(q: seq<Param>, n: string)
    ensures Named(Grouped(q), n) == Named(q, n)
    decreases |q|
  {
    if |q| > 0 {
      var m := q[0].0;
      var rest := Unnamed(q, m);
      NamedAppend(Named(q, m), Grouped(rest), n);
      GroupedNamed(rest, n);
      NamedOfUnnamed(q, n, m);
      if n == m {
        AllNamed(Named(q, m), n);
      } else {
        NoneNamed(Named(q, m), n);
      }
    }
  }

  /** Regrouping grouped pairs changes nothing. */
  lemma {:induction false} GroupedIdempotent(q: seq<Param>)
    ensures Grouped(Grouped(q)) == Grouped(q)
    decreases |q|
  {
    if |q| > 0 {
      var m := q[0].0;
      var head := Named(q, m);
      var rest := Unnamed(q, m);
      var g := Grouped(q);
      assert g == head + Grouped(rest);
      assert q[0] in head;
      assert g[0].0 == m;
      AllNamed(head, m);
      NoneNamed(Grouped(rest), m);
      NamedAppend(head, Grouped(rest), m);
      UnnamedAppend(head, Grouped(rest), m);
      assert Named(g, m) == head;
      assert Unnamed(g, m) == Grouped(rest);
      assert |rest| < |q| by {
        assert |Unnamed(q[1..], m)| <= |q| - 1;
      }
      GroupedIdempotent(rest);
    }
  }

  lemma {:induction false} KeptPairsOfKept(q: seq<Param>)
    requires forall p :: p in q ==> Kept(p)
    ensures KeptPairs(q) == q
    decreases |q|
  {
    if |q| > 0 {
      KeptPairsOfKept(q[1..]);
    }
  }

  lemma {:induction false} KeptPairsAppend(a: seq<Param>, b: seq<Param>)
    ensures KeptPairs(a + b) == KeptPairs(a) + KeptPairs(b)
    decreases |a|
  {
    if |a| == 0 {
      assert a + b == b;
    } else {
      assert (a + b)[1..] == a[1..] + b;
      KeptPairsAppend(a[1..], b);
      var h := if Kept(a[0]) then [a[0]] else [];
      assert KeptPairs(a + b) == h + (KeptPairs(a[1..]) + KeptPairs(b));
      assert h + (KeptPairs(a[1..]) + KeptPairs(b)) == (h + KeptPairs(a[1..])) + KeptPairs(b);
    }
  }

  /** Rewriting an answer-view URL again gives the same URL. */
  lemma ModifyUrlIdempotent(u: Url)
    ensures ModifyUrl(ModifyUrl(u)) == ModifyUrl(u)
  {
    var g := Grouped(KeptPairs(u.query));
    var once := ModifyUrl(u);
    assert once.query == g + [ViewMode];
    KeptPairsAppend(g, [ViewMode]);
    KeptPairsOfKept(g);
    assert KeptPairs([ViewMode]) == [];
    assert KeptPairs(once.query) == g;
    GroupedIdempotent(KeptPairs(u.query));
    assert ModifyUrl(once).query == once.query;
  }

  // ---------------------------------------------------------------------------
  // account check

  /** `validate_account`: an account is exactly eight characters long. */
  function ValidateAccount(a: string): (ok: bool)
    ensures ok <==> |a| == 8
  {
    |a| == 8
  }

  // ---------------------------------------------------------------------------
  // waiting before submitting

  datatype Level = Info | Warning

  /** One progress message of the wait: its text and level. */
  datatype Notice = Notice(text: string, level: Level)

  const RemainingPrefix: string := "剩餘時間: "
  const EndingSuffix: string := " (即將結束!)"

  /** `range(total, 0, -5)`: the remaining seconds at each step. */
  function Steps(total: nat): (r: seq<nat>)
    ensures |r| == (total + 4) / 5
    ensures forall i :: 0 <= i < |r| ==> r[i] == total - 5 * i && r[i] > 0
    decreases total
  {
    if total == 0 then []
    else if total <= 5 then [total]
    else [total] + Steps(total - 5)
  }

  /** The time left as the message spells it: seconds alone below a minute,
      otherwise two-digit minutes and seconds. */
  function RemainingText(remaining: nat): (r: string)
    ensures |r| > |RemainingPrefix| && r[..|RemainingPrefix|] == RemainingPrefix && r[|r| - 1] == '秒'
    ensures remaining < 60 <==> '分' !in r
  {
    if remaining < 60 then
      var r := RemainingPrefix + Decimal(remaining % 60) + "秒";
      assert forall j :: 0 <= j < |r| ==> r[j] != '分' by {
        forall j | 0 <= j < |r| ensures r[j] != '分' {
          if |RemainingPrefix| <= j < |r| - 1 {
            assert r[j] == Decimal(remaining % 60)[j - |RemainingPrefix|];
          }
        }
      }
      r
    else
      var m := Pad2(remaining / 60);
      var r := RemainingPrefix + m + "分" + Pad2(remaining % 60) + "秒";
      assert r[|RemainingPrefix| + |m|] == '分';
      r
  }

  /** The message for one step: a warning, flagged as ending, in the last thirty
      seconds. */
  function CountdownNotice(remaining: nat): (n: Notice)
    ensures n.level == Warning <==> remaining <= 30
  {
    if remaining <= 30 then Notice(RemainingText(remaining) + EndingSuffix, Warning)
    else Notice(RemainingText(remaining), Info)
  }

  /** The messages and the sleeps of the wait, step by step. */
  function Notices(total: nat): (r: seq<Notice>)
    ensures |r| == (total + 4) / 5
    ensures forall i :: 0 <= i < |r| ==> r[i] == CountdownNotice(total - 5 * i)
  {
    var steps := Steps(total);
    seq(|steps|, i requires 0 <= i < |steps| => CountdownNotice(steps[i]))
  }

  function Sleeps(total: nat): (r: seq<nat>)
    ensures |r| == (total + 4) / 5
    ensures forall i :: 0 <= i < |r| ==> r[i] == if total - 5 * i < 5 then total - 5 * i else 5
  {
    var steps := Steps(total);
    seq(|steps|, i requires 0 <= i < |steps| => if steps[i] < 5 then steps[i] else 5)
  }

  function Sum(s: seq<nat>): nat {
    if |s| == 0 then 0 else s[0] + Sum(s[1..])
  }

  /** The sleeps add up to the whole answer time. */
  lemma {:induction false} SleepsCoverTotal(total: nat)
    ensures Sum(Sleeps(total)) == total
    decreases total
  {
    if total > 5 {
      SleepsCoverTotal(total - 5);
      assert Sleeps(total)[1..] == Sleeps(total - 5);
    }
  }

  /** Exactly the messages of the last thirty seconds are warnings: with `w` of
      them, they are the last `w` messages. */
  lemma WarningsAreLast(total: nat, i: nat)
    requires i < |Notices(total)|
    ensures Notices(total)[i].level == Warning <==> 5 * i >= total - 30
  {
  }

  /** Reading the seconds back: the digits after the prefix, and when they are
      followed by `分`, the two digits after that as well. */
  function ReadRemaining(text: string): nat {
    if |text| < |RemainingPrefix| then 0
    else
      var body := text[|RemainingPrefix|..];
      var k := DigitRun(body);
      if k < |body| && body[k] == '分' && k + 3 <= |body| then
        ParseDecimal(body[..k]) * 60 + ParseDecimal(body[k + 1..k + 3])
      else ParseDecimal(body[..k])
  }

  /** The length of the run of digits that starts `s`. */
  function DigitRun(s: string): (k: nat)
    ensures k <= |s|
    ensures forall i :: 0 <= i < k ==> '0' <= s[i] <= '9'
    ensures k < |s| ==> !('0' <= s[k] <= '9')
  {
    if |s| == 0 || !('0' <= s[0] <= '9') then 0 else 1 + DigitRun(s[1..])
  }

  lemma {:induction false} DigitRunOf(d: string, rest: string)
    requires forall i :: 0 <= i < |d| ==> '0' <= d[i] <= '9'
    requires |rest| > 0 && !('0' <= rest[0] <= '9')
    ensures DigitRun(d + rest) == |d|
    decreases |d|
  {
    if |d| > 0 {
      assert (d + rest)[1..] == d[1..] + rest;
      DigitRunOf(d[1..], rest);
    }
  }

  predicate AllDigits(d: string) {
    forall i :: 0 <= i < |d| ==> '0' <= d[i] <= '9'
  }

  /** Reading the seconds-only form. */
  lemma ReadSecondsForm(d: string, tail: string)
    requires AllDigits(d) && |tail| > 0 && tail[0] == '秒'
    ensures ReadRemaining(RemainingPrefix + d + tail) == ParseDecimal(d)
  {
    var body := (RemainingPrefix + d + tail)[|RemainingPrefix|..];
    assert body == d + tail;
    DigitRunOf(d, tail);
    assert body[..|d|] == d;
  }

  /** Reading the minutes-and-seconds form. */
  lemma ReadMinutesForm(m: string, sec: string, tail: string)
    requires AllDigits(m) && |sec| == 2
    ensures ReadRemaining(RemainingPrefix + m + "分" + sec + tail) == ParseDecimal(m) * 60 + ParseDecimal(sec)
  {
    var text := RemainingPrefix + m + "分" + sec + tail;
    var body := text[|RemainingPrefix|..];
    assert body == m + ("分" + sec + tail);
    DigitRunOf(m, "分" + sec + tail);
    assert body[..|m|] == m;
    assert body[|m| + 1..|m| + 3] == sec;
  }

  /** The message determines the seconds left. */
  lemma NoticeShowsRemaining(remaining: nat)
    ensures ReadRemaining(CountdownNotice(remaining).text) == remaining
  {
    if remaining < 60 {
      SecondsNoticeRead(remaining);
    } else {
      MinutesNoticeRead(remaining);
    }
  }

  lemma SecondsNoticeRead(remaining: nat)
    requires remaining < 60
    ensures ReadRemaining(CountdownNotice(remaining).text) == remaining
  {
    var tail := if remaining <= 30 then EndingSuffix else "";
    var d := Decimal(remaining);
    var text := CountdownNotice(remaining).text;
    assert text == RemainingPrefix + d + ("秒" + tail) by {
      assert RemainingText(remaining) == RemainingPrefix + d + "秒";
    }
    ReadSecondsForm(d, "秒" + tail);
    ParseDecimalOfDecimal(remaining);
  }

  lemma MinutesNoticeRead(remaining: nat)
    requires remaining >= 60
    ensures ReadRemaining(CountdownNotice(remaining).text) == remaining
  {
    var m, sec := Pad2(remaining / 60), Pad2(remaining % 60);
    assert CountdownNotice(remaining).text == RemainingPrefix + m + "分" + sec + "秒";
    ReadMinutesForm(m, sec, "秒");
  }

  lemma NoticesDiffer(a: nat, b: nat)
    requires a != b
    ensures CountdownNotice(a) != CountdownNotice(b)
  {
    NoticeShowsRemaining(a);
    NoticeShowsRemaining(b);
  }

  // ---------------------------------------------------------------------------
  // login and run

  /** What the login page showed: whether the form was filled and submitted
      without error, whether the keep-login prompt appeared within the short
      wait, whether the dashboard appeared after it, and the error element. */
  datatype ErrorElement = NoErrorElement | HiddenError | ShownError

  datatype LoginPage = LoginPage(formSubmitted: bool, keepLoginPrompt: bool, dashboard: bool, error: ErrorElement)

  /** `login`: true after the keep-login prompt and the dashboard; `None` when it
      falls off its end, which is when an error element is present but hidden;
      false otherwise. */
  function Login(p: LoginPage): (r: Option<bool>)
    ensures r == Some(true) <==> p.formSubmitted && p.keepLoginPrompt && p.dashboard
    ensures r.None? <==> p.formSubmitted && !(p.keepLoginPrompt && p.dashboard) && p.error == HiddenError
  {
    if !p.formSubmitted then Some(false)
    else if p.keepLoginPrompt && p.dashboard then Some(true)
    else match p.error
      case NoErrorElement => Some(false)
      case ShownError => Some(false)
      case HiddenError => None
  }

  /** The outcome of each browser step of `run`; `true` means the step finished
      without raising. `view` is the answer view the extractor reads, `None` when
      the script failed. */
  datatype Session = Session(
    browserReady: bool,
    login: LoginPage,
    courseOpened: bool,
    urlsFound: bool,
    answerViewLoaded: bool,
    view: Option<seq<Question>>,
    examPageLoaded: bool,
    examReady: bool,
    filledAndSubmitted: bool,
    scoreRead: bool)

  /** What the extractor hands back: its output, or nothing. */
  function Extracted(s: Session): Option<string> {
    match s.view
    case Some(qs) => Some(Extract(qs))
    case None => None
  }

  /** `run`: true exactly when every step succeeds, login returns exactly true
      and the extractor returns a non-empty text. Reading the score does not
      matter. */
  function Run(s: Session): (ok: bool)
    ensures ok <==> s.browserReady && Login(s.login) == Some(true) && s.courseOpened && s.urlsFound &&
                    s.answerViewLoaded && s.view.Some? && (exists q :: q in s.view.value && Reportable(q)) &&
                    s.examPageLoaded && s.examReady && s.filledAndSubmitted
  {
    var answers := Extracted(s);
    ExtractEmptyIffNothingReported(s.view.GetOr([]));
    s.browserReady &&
    Login(s.login).GetOr(false) &&
    s.courseOpened && s.urlsFound && s.answerViewLoaded &&
    answers.Some? && answers.value != "" &&
    s.examPageLoaded && s.examReady && s.filledAndSubmitted
  }

  /** The extractor's output is empty exactly when the view has no multiple-choice
      or fill-in-the-blank question. */
  lemma {:induction false} ExtractEmptyIffNothingReported(qs: seq<Question>)
    ensures Extract(qs) == "" <==> forall q :: q in qs ==> !Reportable(q)
    decreases |qs|
  {
    if |qs| > 0 {
      ExtractEmptyIffNothingReported(qs[1..]);
      assert forall q :: q in qs ==> q == qs[0] || q in qs[1..];
    }
  }

  /** A failed score read does not turn a successful run into a failed one. */
  lemma ScoreIgnored(s: Session)
    ensures Run(s.(scoreRead := false)) == Run(s.(scoreRead := true))
  {
  }

  /** A login that falls off its end stops the run just like a failed one. */
  lemma LoginNoneStops(s: Session)
    requires Login(s.login).None?
    ensures !Run(s)
  {
  }
}
