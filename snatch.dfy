/**
 * Posting the `addParam` forms to `volunteer.do`: one pass of `course_snatch`,
 * the fixed number of passes `main` makes, and the stop-event loop of
 * `JNUCourseSnatcher.start_snatching`.
 *
 * The server is never contacted here: what the k-th post of a round gets back
 * is an input, and `response.json()` is the parameter `decode`.
 */
module Snatch {
  import opened Base
  import opened CompactJson
  import opened Courses

  /** The passes `main` makes (`repeat_snatch_time`). */
  const RepeatSnatchTime: nat := 3

  /** What a POST comes back with: a reply body, or an exception from `requests.post`. */
  datatype Reply = Answered(text: string) | TransportError

  /** `k` passes over the same list, one after the other. */
  function Repeat<T>(xs: seq<T>, k: nat): seq<T>
  {
    if k == 0 then [] else Repeat(xs, k - 1) + xs
  }

  /** Each pass contributes the whole list. */
  lemma {:induction false} RepeatLength<T>(xs: seq<T>, k: nat)
    ensures |Repeat(xs, k)| == k * |xs|
  {
    if k > 0 {
      RepeatLength(xs, k - 1);
    }
  }

  /** Position `j` of pass `r` holds the list's `j`-th element: every pass is in list order. */
  lemma {:induction false} RepeatIndex<T>(xs: seq<T>, k: nat, r: nat, j: nat)
    requires r < k && j < |xs|
    ensures r * |xs| + j < |Repeat(xs, k)|
    ensures Repeat(xs, k)[r * |xs| + j] == xs[j]
  {
    RepeatLength(xs, k - 1);
    if r < k - 1 {
      RepeatIndex(xs, k - 1, r, j);
    } else {
      assert r * |xs| == (k - 1) * |xs|;
    }
  }

  /** The reply a pass can show: a body that `response.json()` accepts. */
  function Shown(reply: Reply, decode: string -> Option<Value>): Option<Value>
  {
    match reply
    case TransportError => None
    case Answered(text) => decode(text)
  }

  /** Every post of round `i` is answered with a body `response.json()` accepts. */
  predicate RoundOk(forms: seq<Form>, reply: (nat, nat) -> Reply, decode: string -> Option<Value>, i: nat)
  {
    forall j :: 0 <= j < |forms| ==> Shown(reply(i, j), decode).Some?
  }

  /** Post `k` of round `i` is the first of that round whose reply cannot be shown. */
  predicate FirstFailure(reply: (nat, nat) -> Reply, decode: string -> Option<Value>, i: nat, k: nat)
  {
    Shown(reply(i, k), decode).None? && forall j :: 0 <= j < k ==> Shown(reply(i, j), decode).Some?
  }

  /**
   * `course_snatch`: posts the forms in order and shows each reply. The first
   * post that fails, or whose reply is not JSON, raises, and no later form is
   * posted. `reply(j)` is what the j-th post gets back.
   */
  method CourseSnatch(forms: seq<Form>, reply: nat -> Reply, decode: string -> Option<Value>)
    returns (posted: seq<Form>, shown: seq<Value>, failed: bool)
    ensures !failed ==> posted == forms && |shown| == |forms|
    ensures failed ==> |shown| < |forms| && posted == forms[..|shown| + 1] && Shown(reply(|shown|), decode).None?
    ensures forall j :: 0 <= j < |shown| ==> Shown(reply(j), decode) == Some(shown[j])
  {
    posted := [];
    shown := [];
    failed := false;
    for j := 0 to |forms|
      invariant posted == forms[..j] && |shown| == j
      invariant forall k :: 0 <= k < j ==> Shown(reply(k), decode) == Some(shown[k])
    {
      posted := posted + [forms[j]];
      var answer := reply(j);
      if answer.TransportError? {
        failed := true;
        return;
      }
      var json := decode(answer.text);
      if json.None? {
        failed := true;
        return;
      }
      shown := shown + [json.value];
    }
  }

  /**
   * The round loop of `main`: `RepeatSnatchTime` passes of `course_snatch`. A
   * pass that raises ends the program, so no later pass starts. `reply(i, j)`
   * is what the j-th post of pass i gets back.
   */
  method MainRounds(forms: seq<Form>, reply: (nat, nat) -> Reply, decode: string -> Option<Value>)
    returns (posted: seq<Form>, rounds: nat, failed: bool)
    ensures rounds <= RepeatSnatchTime
    ensures !failed ==> rounds == RepeatSnatchTime && posted == Repeat(forms, RepeatSnatchTime)
    ensures failed ==> rounds < RepeatSnatchTime
    ensures failed ==> |Repeat(forms, rounds)| < |posted| <= |Repeat(forms, rounds)| + |forms|
    ensures failed ==> posted == Repeat(forms, rounds) + forms[..|posted| - |Repeat(forms, rounds)|]
    ensures !failed <==> forall i :: 0 <= i < RepeatSnatchTime ==> RoundOk(forms, reply, decode, i)
    ensures forall i :: 0 <= i < rounds ==> RoundOk(forms, reply, decode, i)
    ensures failed ==> FirstFailure(reply, decode, rounds, |posted| - |Repeat(forms, rounds)| - 1)
  {
    posted := [];
    rounds := 0;
    failed := false;
    while rounds < RepeatSnatchTime
      invariant rounds <= RepeatSnatchTime
      invariant posted == Repeat(forms, rounds)
      invariant forall i :: 0 <= i < rounds ==> RoundOk(forms, reply, decode, i)
    {
      var roundReply := (j: nat) => reply(rounds, j);
      var sent, shown, roundFailed := CourseSnatch(forms, roundReply, decode);
      forall j: nat | j <= |shown|
        ensures Shown(reply(rounds, j), decode) == Shown(roundReply(j), decode)
      {
      }
      if roundFailed {
        assert !RoundOk(forms, reply, decode, rounds);
        posted := posted + sent;
        failed := true;
        return;
      }
      assert RoundOk(forms, reply, decode, rounds);
      posted := posted + sent;
      rounds := rounds + 1;
    }
  }

  /** When every post is answered with JSON, `main` runs all its passes, each posting every form. */
  method AllAnsweredPostsEveryRound(forms: seq<Form>, reply: (nat, nat) -> Reply, decode: string -> Option<Value>)
    returns (posted: seq<Form>)
    requires forall i: nat, j: nat :: Shown(reply(i, j), decode).Some?
    ensures posted == Repeat(forms, RepeatSnatchTime)
  {
    var rounds, failed;
    posted, rounds, failed := MainRounds(forms, reply, decode);
  }

  /** What `start_snatching` reports through its callback for one post. */
  datatype Report = Response(course: Course, text: string) | Error(course: Course)

  /** The report for one post. */
  function ReportOf(course: Course, reply: Reply): Report
  {
    match reply
    case Answered(text) => Response(course, text)
    case TransportError => Error(course)
  }

  /** The reports of round `r`: one per course, in list order. */
  function RoundReports(courses: seq<Course>, reply: (nat, nat) -> Reply, r: nat): (out: seq<Report>)
    ensures |out| == |courses|
    ensures forall j :: 0 <= j < |courses| ==> out[j] == ReportOf(courses[j], reply(r, j))
  {
    seq(|courses|, j requires 0 <= j < |courses| => ReportOf(courses[j], reply(r, j)))
  }

  /** The reports of the first `k` rounds. */
  function Reports(courses: seq<Course>, reply: (nat, nat) -> Reply, k: nat): seq<Report>
  {
    if k == 0 then [] else Reports(courses, reply, k - 1) + RoundReports(courses, reply, k - 1)
  }

  /**
   * `JNUCourseSnatcher.start_snatching`. The stop event is looked at only before
   * a round; `stopRound` is the first round before which it is found set. Every
   * round posts every course in list order, and a failed post is reported and
   * the round goes on.
   */
  method StartSnatching(courses: seq<Course>, reply: (nat, nat) -> Reply, stopRound: nat)
    returns (reports: seq<Report>)
    ensures reports == Reports(courses, reply, stopRound)
  {
    reports := [];
    var round := 0;
    while round < stopRound
      invariant round <= stopRound
      invariant reports == Reports(courses, reply, round)
    {
      for j := 0 to |courses|
        invariant reports == Reports(courses, reply, round) + RoundReports(courses, reply, round)[..j]
      {
        var course := courses[j];
        var answer := reply(round, j);
        if answer.Answered? {
          reports := reports + [Response(course, answer.text)];
        } else {
          reports := reports + [Error(course)];
        }
        assert RoundReports(courses, reply, round)[..j + 1] == RoundReports(courses, reply, round)[..j] + [ReportOf(course, answer)];
      }
      assert RoundReports(courses, reply, round)[..|courses|] == RoundReports(courses, reply, round);
      round := round + 1;
    }
  }

  /** The courses of a list of reports. */
  function CoursesOf(reports: seq<Report>): (out: seq<Course>)
    ensures |out| == |reports|
    ensures forall i :: 0 <= i < |reports| ==> out[i] == reports[i].course
  {
    if reports == [] then [] else CoursesOf(reports[..|reports| - 1]) + [reports[|reports| - 1].course]
  }

  lemma {:induction false} CoursesOfConcat(a: seq<Report>, b: seq<Report>)
    ensures CoursesOf(a + b) == CoursesOf(a) + CoursesOf(b)
    decreases |b|
  {
    if b == [] {
      assert a + b == a;
    } else {
      CoursesOfConcat(a, b[..|b| - 1]);
      assert (a + b)[..|a + b| - 1] == a + b[..|b| - 1];
    }
  }

  /**
   * Whatever the replies, the k rounds report every course once per round, in
   * list order: no failure ends a round or the loop early.
   */
  lemma {:induction false} ReportsCoverEveryCourse(courses: seq<Course>, reply: (nat, nat) -> Reply, k: nat)
    ensures CoursesOf(Reports(courses, reply, k)) == Repeat(courses, k)
  {
    if k > 0 {
      ReportsCoverEveryCourse(courses, reply, k - 1);
      CoursesOfConcat(Reports(courses, reply, k - 1), RoundReports(courses, reply, k - 1));
      assert CoursesOf(RoundReports(courses, reply, k - 1)) == courses;
    }
  }

  /** Position `j` of round `r` is an error report exactly when that post failed. */
  lemma ReportIsErrorIffFailed(courses: seq<Course>, reply: (nat, nat) -> Reply, k: nat, r: nat, j: nat)
    requires r < k && j < |courses|
    ensures r * |courses| + j < |Reports(courses, reply, k)|
    ensures Reports(courses, reply, k)[r * |courses| + j].Error? <==> reply(r, j).TransportError?
  {
    ReportsAt(courses, reply, k, r, j);
  }

  /** Position `j` of round `r` is the report of that post. */
  lemma {:induction false} ReportsAt(courses: seq<Course>, reply: (nat, nat) -> Reply, k: nat, r: nat, j: nat)
    requires r < k && j < |courses|
    ensures |Reports(courses, reply, k)| == k * |courses|
    ensures Reports(courses, reply, k)[r * |courses| + j] == ReportOf(courses[j], reply(r, j))
  {
    ReportsLength(courses, reply, k);
    ReportsLength(courses, reply, k - 1);
    var before := Reports(courses, reply, k - 1);
    assert Reports(courses, reply, k) == before + RoundReports(courses, reply, k - 1);
    if r < k - 1 {
      IndexInEarlierPass(r, k - 1, |courses|, j);
      ReportsAt(courses, reply, k - 1, r, j);
    } else {
      assert r * |courses| == |before|;
    }
  }

  /** Position `j` of pass `r` lies before pass `k`. */
  lemma IndexInEarlierPass(r: nat, k: nat, n: nat, j: nat)
    requires r < k && j < n
    ensures r * n + j < k * n
  {
    assert (r + 1) * n <= k * n;
  }

  lemma {:induction false} ReportsLength(courses: seq<Course>, reply: (nat, nat) -> Reply, k: nat)
    ensures |Reports(courses, reply, k)| == k * |courses|
  {
    if k > 0 {
      ReportsLength(courses, reply, k - 1);
    }
  }
}
