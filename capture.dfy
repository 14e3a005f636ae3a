/**
 * Capturing the login credentials from the browser's recorded traffic.
 *
 * The browser is never driven here: what it has recorded by the i-th look is
 * `polls[i]`, a sequence of exchanges in recording order, and the number of
 * polls is the bound the program puts on its waiting (`max_retry` in
 * `get_cookie_and_token`, the deadline in `sniff_requests`). `json.loads` is
 * the parameter `decode`, and the pretty-printing of `sniff_requests` the
 * parameter `pretty`.
 */
module Capture {
  import opened Base
  import opened Strs
  import CompactJson

  /** One recorded request with the response it got, if any. */
  datatype Exchange = Exchange(
    url: string,
    headers: map<string, string>,
    requestBody: string,
    response: Option<string>)

  const BaseUrl: string := "https://jwxk.jnu.edu.cn/"
  const StudentPath: string := "xsxkapp/sys/xsxkapp/student/"
  const RegisterUrl: string := BaseUrl + StudentPath + "register.do"
  const UserAgent: string := "Mozilla/5.0 (Windows NT 10.0; Win64; x64) AppleWebKit/537.36 (KHTML, like Gecko) Chrome/126.0.0.0 Safari/537.36 Edg/126.0.0.0"
  const DefaultMaxRetry: nat := 20

  /** The page the student's own data is fetched from once the number is known. */
  function StudentUrl(code: string): string
  {
    BaseUrl + StudentPath + code + ".do"
  }

  /** The bundle `get_cookie_and_token` returns. */
  datatype Credentials = Credentials(studentCode: string, cookie: string, token: string, userAgent: string)

  datatype Failure = CredentialsNotFound

  /** What the register check makes of one exchange. */
  datatype Reading =
    | Keep            // not a register reply, or one whose code is not "1": the student number stays
    | Skip            // the reply could not be read: the rest of this exchange is skipped
    | Number(number: string)  // a register reply with code "1": its data.number

  /** The exchange is a `register.do` request that got a response. */
  predicate AnsweredRegister(x: Exchange)
  {
    x.response.Some? && StartsWith(x.url, RegisterUrl)
  }

  /**
   * Phase A of core.py: the student number in a `register.do` reply whose `code`
   * is "1". A reply that does not parse, is not an object, or has code "1" but no
   * `data` object with a `number` in it raises inside the `try`: Skip.
   */
  function ReadRegister(x: Exchange, decode: string -> Option<CompactJson.Value>): (r: Reading)
    ensures r.Number? ==>
      AnsweredRegister(x) && decode(x.response.value).Some? &&
      CompactJson.Get(decode(x.response.value).value, "code") == Some(CompactJson.Str("1"))
    ensures !AnsweredRegister(x) ==> r == Keep
    ensures AnsweredRegister(x) && decode(x.response.value).None? ==> r == Skip
    ensures AnsweredRegister(x) && decode(x.response.value).Some? ==>
      var reply := decode(x.response.value).value;
      (!reply.Obj? ==> r == Skip) &&
      (reply.Obj? && CompactJson.Get(reply, "code") != Some(CompactJson.Str("1")) ==> r == Keep)
    ensures (AnsweredRegister(x) && decode(x.response.value).Some? &&
             CompactJson.Get(decode(x.response.value).value, "code") == Some(CompactJson.Str("1"))) ==>
      var data := CompactJson.Get(decode(x.response.value).value, "data");
      (data.None? || !data.value.Obj? ==> r == Skip) &&
      (data.Some? && data.value.Obj? ==>
        var number := CompactJson.Get(data.value, "number");
        (number.None? ==> r == Skip) &&
        (number.Some? && number.value.Str? ==> r == Number(number.value.s)))
  {
    if x.response.None? || !StartsWith(x.url, RegisterUrl) then Keep
    else
      match decode(x.response.value)
      case None => Skip
      case Some(reply) =>
        if !reply.Obj? then Skip
        else if CompactJson.Get(reply, "code") != Some(CompactJson.Str("1")) then Keep
        else
          var data := CompactJson.Get(reply, "data");
          if data.None? || !data.value.Obj? then Skip
          else
            var number := CompactJson.GetMember(data.value.members, "number");
            if number.None? then Skip
            else if number.value.Str? then Number(number.value.s)
            // an empty object is falsy in Python: the number read is none
            else if number.value.members == [] then Number("")
            else Skip
  }

  /** The header is present and non-empty. */
  predicate HasHeader(x: Exchange, name: string)
  {
    name in x.headers && x.headers[name] != ""
  }

  /** The exchange is the request for the student's page carrying exactly these cookie and token. */
  predicate Supplies(x: Exchange, c: Credentials)
  {
    StartsWith(x.url, StudentUrl(c.studentCode)) &&
    "Cookie" in x.headers && x.headers["Cookie"] == c.cookie &&
    "token" in x.headers && x.headers["token"] == c.token
  }

  /** Every field of the bundle is there and non-empty. */
  predicate Complete(c: Credentials)
  {
    c.studentCode != "" && c.cookie != "" && c.token != "" && c.userAgent == UserAgent
  }

  /** The state of the scan: still looking with the number known so far ("" for none), or done. */
  datatype Scan = Searching(code: string) | Found(creds: Credentials)

  /** Phases A and B on one exchange. */
  function Step(code: string, x: Exchange, decode: string -> Option<CompactJson.Value>): Scan
  {
    var reading := ReadRegister(x, decode);
    if reading.Skip? then Searching(code)
    else
      var known := if reading.Number? then reading.number else code;
      if known != "" && StartsWith(x.url, StudentUrl(known)) && HasHeader(x, "Cookie") && HasHeader(x, "token")
      then Found(Credentials(known, x.headers["Cookie"], x.headers["token"], UserAgent))
      else Searching(known)
  }

  /** One look at the recorded exchanges, in order, starting with the number `code`. */
  function ScanPoll(code: string, xs: seq<Exchange>, decode: string -> Option<CompactJson.Value>): Scan
    decreases |xs|
  {
    if xs == [] then Searching(code)
    else
      match Step(code, xs[0], decode)
      case Found(c) => Found(c)
      case Searching(next) => ScanPoll(next, xs[1..], decode)
  }

  /**
   * A bundle the scan finds is complete and is supplied by one of the exchanges,
   * under the number it started with or one read from a register reply; the
   * number it ends with is likewise the one it started with or one it read.
   */
  lemma {:induction false} ScanPollMeaning(code: string, xs: seq<Exchange>, decode: string -> Option<CompactJson.Value>)
    ensures var r := ScanPoll(code, xs, decode);
      r.Found? ==> Complete(r.creds) && exists j :: 0 <= j < |xs| && Supplies(xs[j], r.creds)
    ensures var r := ScanPoll(code, xs, decode);
      r.Found? ==> (r.creds.studentCode == code ||
        exists j :: 0 <= j < |xs| && ReadRegister(xs[j], decode) == Number(r.creds.studentCode))
    ensures var r := ScanPoll(code, xs, decode);
      r.Searching? ==> r.code == code || exists j :: 0 <= j < |xs| && ReadRegister(xs[j], decode) == Number(r.code)
    decreases |xs|
  {
    if xs != [] {
      match Step(code, xs[0], decode)
      case Found(c) =>
      case Searching(next) =>
        ScanPollMeaning(next, xs[1..], decode);
        assert forall j :: 0 <= j < |xs[1..]| ==> xs[1..][j] == xs[j + 1];
    }
  }

  /**
   * The retry loop of `get_cookie_and_token` from attempt `retry` on: it polls
   * again only while no number is known.
   */
  function Attempt(polls: seq<seq<Exchange>>, retry: nat, code: string, decode: string -> Option<CompactJson.Value>): Result<Credentials, Failure>
    decreases |polls| - retry
  {
    if retry < |polls| && code == "" then
      match ScanPoll(code, polls[retry], decode)
      case Found(c) => Ok(c)
      case Searching(next) => Attempt(polls, retry + 1, next, decode)
    else Err(CredentialsNotFound)
  }

  /** A bundle the retry loop returns is complete, supplied in some poll, under a number read in some poll. */
  lemma {:induction false} AttemptMeaning(polls: seq<seq<Exchange>>, retry: nat, code: string, decode: string -> Option<CompactJson.Value>)
    requires Attempt(polls, retry, code, decode).Ok?
    ensures Complete(Attempt(polls, retry, code, decode).value)
    ensures exists i, j :: retry <= i < |polls| && 0 <= j < |polls[i]| && Supplies(polls[i][j], Attempt(polls, retry, code, decode).value)
    ensures exists i, j :: (retry <= i < |polls| && 0 <= j < |polls[i]| &&
      ReadRegister(polls[i][j], decode) == Number(Attempt(polls, retry, code, decode).value.studentCode))
    decreases |polls| - retry
  {
    ScanPollMeaning(code, polls[retry], decode);
    match ScanPoll(code, polls[retry], decode)
    case Found(c) =>
    case Searching(next) =>
      AttemptMeaning(polls, retry + 1, next, decode);
  }

  /** `get_cookie_and_token` with `max_retry` = |polls|. */
  function CaptureCredentials(polls: seq<seq<Exchange>>, decode: string -> Option<CompactJson.Value>): Result<Credentials, Failure>
  {
    Attempt(polls, 0, "", decode)
  }

  /**
   * `JNUCourseSnatcher.get_cookie_and_token`. The browser is quit only when a
   * bundle is returned; on failure it is left open.
   */
  method GetCookieAndToken(polls: seq<seq<Exchange>>, decode: string -> Option<CompactJson.Value>)
    returns (r: Result<Credentials, Failure>, browserQuit: bool)
    ensures r == CaptureCredentials(polls, decode)
    ensures browserQuit <==> r.Ok?
  {
    var code := "";
    var retry := 0;
    while retry < |polls| && code == ""
      invariant retry <= |polls|
      invariant Attempt(polls, retry, code, decode) == CaptureCredentials(polls, decode)
      decreases |polls| - retry
    {
      var poll := polls[retry];
      ghost var start := code;
      var i := 0;
      while i < |poll|
        invariant i <= |poll|
        invariant ScanPoll(start, poll, decode) == ScanPoll(code, poll[i..], decode)
      {
        var x := poll[i];
        assert poll[i..][0] == x && poll[i..][1..] == poll[i + 1..];
        var reading := ReadRegister(x, decode);
        if !reading.Skip? {
          if reading.Number? {
            code := reading.number;
          }
          if code != "" && StartsWith(x.url, StudentUrl(code)) && HasHeader(x, "Cookie") && HasHeader(x, "token") {
            r := Ok(Credentials(code, x.headers["Cookie"], x.headers["token"], UserAgent));
            browserQuit := true;
            return;
          }
        }
        i := i + 1;
      }
      retry := retry + 1;
    }
    r := Err(CredentialsNotFound);
    browserQuit := false;
  }

  /** A reply that cannot be parsed is passed over: the scan goes on as if it were not there. */
  lemma UnreadableReplySkipped(code: string, x: Exchange, rest: seq<Exchange>, decode: string -> Option<CompactJson.Value>)
    requires x.response.Some? && StartsWith(x.url, RegisterUrl) && decode(x.response.value).None?
    ensures ScanPoll(code, [x] + rest, decode) == ScanPoll(code, rest, decode)
  {
    assert ([x] + rest)[1..] == rest;
  }

  /**
   * The loop guard of core.py:45: once a poll ends with a number known and no
   * bundle, no further poll starts, whatever the later polls would show.
   */
  lemma {:induction false} NumberEndsPolling(polls: seq<seq<Exchange>>, k: nat, decode: string -> Option<CompactJson.Value>)
    requires k < |polls|
    requires forall i :: 0 <= i < k ==> ScanPoll("", polls[i], decode) == Searching("")
    requires ScanPoll("", polls[k], decode).Searching? && ScanPoll("", polls[k], decode).code != ""
    ensures CaptureCredentials(polls, decode) == Err(CredentialsNotFound)
  {
    var i := 0;
    while i < k
      invariant i <= k
      invariant Attempt(polls, i, "", decode) == CaptureCredentials(polls, decode)
    {
      i := i + 1;
    }
  }

  /**
   * The polling as evidently intended: keep looking, with the number found so
   * far, until a bundle turns up or `max_retry` polls have been made.
   */
  function AttemptUntilFound(polls: seq<seq<Exchange>>, retry: nat, code: string, decode: string -> Option<CompactJson.Value>): Result<Credentials, Failure>
    decreases |polls| - retry
  {
    if retry < |polls| then
      match ScanPoll(code, polls[retry], decode)
      case Found(c) => Ok(c)
      case Searching(next) => AttemptUntilFound(polls, retry + 1, next, decode)
    else Err(CredentialsNotFound)
  }

  /** A bundle the intended polling returns is complete and supplied in some poll. */
  lemma {:induction false} AttemptUntilFoundMeaning(polls: seq<seq<Exchange>>, retry: nat, code: string, decode: string -> Option<CompactJson.Value>)
    requires AttemptUntilFound(polls, retry, code, decode).Ok?
    ensures Complete(AttemptUntilFound(polls, retry, code, decode).value)
    ensures exists i, j :: retry <= i < |polls| && 0 <= j < |polls[i]| && Supplies(polls[i][j], AttemptUntilFound(polls, retry, code, decode).value)
    decreases |polls| - retry
  {
    ScanPollMeaning(code, polls[retry], decode);
    match ScanPoll(code, polls[retry], decode)
    case Found(c) =>
    case Searching(next) =>
      AttemptUntilFoundMeaning(polls, retry + 1, next, decode);
  }

  function CaptureUntilFound(polls: seq<seq<Exchange>>, decode: string -> Option<CompactJson.Value>): Result<Credentials, Failure>
  {
    AttemptUntilFound(polls, 0, "", decode)
  }

  /**
   * A login recorded in one poll: a register reply with number `n` at `j`, then
   * the request for that student's page with both headers at `l`, and no other
   * number read in between.
   */
  predicate LoginAt(xs: seq<Exchange>, j: nat, l: nat, n: string, decode: string -> Option<CompactJson.Value>)
  {
    j < l < |xs| && n != "" &&
    ReadRegister(xs[j], decode) == Number(n) &&
    (forall k :: j < k < l ==> !ReadRegister(xs[k], decode).Number?) &&
    ReadRegister(xs[l], decode) == Keep &&
    StartsWith(xs[l].url, StudentUrl(n)) && HasHeader(xs[l], "Cookie") && HasHeader(xs[l], "token")
  }

  /** With `n` known and no other number read before `l`, the scan finds a bundle by `l`. */
  lemma {:induction false} ScanFindsKnown(n: string, xs: seq<Exchange>, l: nat, decode: string -> Option<CompactJson.Value>)
    requires l < |xs| && n != ""
    requires forall k :: 0 <= k < l ==> !ReadRegister(xs[k], decode).Number?
    requires ReadRegister(xs[l], decode) == Keep
    requires StartsWith(xs[l].url, StudentUrl(n)) && HasHeader(xs[l], "Cookie") && HasHeader(xs[l], "token")
    ensures ScanPoll(n, xs, decode).Found?
    decreases l
  {
    if l > 0 {
      match Step(n, xs[0], decode)
      case Found(_) =>
      case Searching(next) =>
        assert next == n;
        ScanFindsKnown(n, xs[1..], l - 1, decode);
    }
  }

  /** A login later in the poll is still a login once the first exchange is dropped. */
  lemma LoginShift(xs: seq<Exchange>, j: nat, l: nat, n: string, decode: string -> Option<CompactJson.Value>)
    requires LoginAt(xs, j, l, n, decode) && j > 0
    ensures LoginAt(xs[1..], j - 1, l - 1, n, decode)
  {
    assert forall k :: 0 <= k < |xs| - 1 ==> xs[1..][k] == xs[k + 1];
  }

  /** After the register reply of a login, the rest of the poll meets the conditions of `ScanFindsKnown`. */
  lemma LoginRest(xs: seq<Exchange>, l: nat, n: string, decode: string -> Option<CompactJson.Value>)
    requires LoginAt(xs, 0, l, n, decode)
    ensures l - 1 < |xs[1..]| && n != ""
    ensures forall k :: 0 <= k < l - 1 ==> !ReadRegister(xs[1..][k], decode).Number?
    ensures ReadRegister(xs[1..][l - 1], decode) == Keep
    ensures StartsWith(xs[1..][l - 1].url, StudentUrl(n)) && HasHeader(xs[1..][l - 1], "Cookie") && HasHeader(xs[1..][l - 1], "token")
  {
    assert forall k :: 0 <= k < |xs| - 1 ==> xs[1..][k] == xs[k + 1];
  }

  /** A poll holding a login yields a bundle, whatever number was known before it. */
  lemma {:induction false} ScanFindsLogin(code: string, xs: seq<Exchange>, j: nat, l: nat, n: string, decode: string -> Option<CompactJson.Value>)
    requires LoginAt(xs, j, l, n, decode)
    ensures ScanPoll(code, xs, decode).Found?
    decreases j
  {
    match Step(code, xs[0], decode)
    case Found(_) =>
    case Searching(next) =>
      if j == 0 {
        assert next == n;
        LoginRest(xs, l, n, decode);
        ScanFindsKnown(n, xs[1..], l - 1, decode);
      } else {
        LoginShift(xs, j, l, n, decode);
        ScanFindsLogin(next, xs[1..], j - 1, l - 1, n, decode);
      }
  }

  /** The intended guarantee: a login recorded in any of the `max_retry` polls is captured. */
  lemma {:induction false} CaptureUntilFoundFindsLogin(polls: seq<seq<Exchange>>, m: nat, j: nat, l: nat, n: string, decode: string -> Option<CompactJson.Value>)
    requires m < |polls| && LoginAt(polls[m], j, l, n, decode)
    ensures CaptureUntilFound(polls, decode).Ok?
  {
    var i := 0;
    var code := "";
    while i < m
      invariant i <= m
      invariant AttemptUntilFound(polls, i, code, decode) == CaptureUntilFound(polls, decode)
    {
      match ScanPoll(code, polls[i], decode)
      case Found(_) =>
        return;
      case Searching(next) =>
        code := next;
        i := i + 1;
    }
    ScanFindsLogin(code, polls[m], j, l, n, decode);
  }

  /** Whenever the code as written returns a bundle, the intended polling returns the same one. */
  lemma {:induction false} UntilFoundExtends(polls: seq<seq<Exchange>>, decode: string -> Option<CompactJson.Value>)
    requires CaptureCredentials(polls, decode).Ok?
    ensures CaptureUntilFound(polls, decode) == CaptureCredentials(polls, decode)
  {
    var i := 0;
    var code := "";
    while i < |polls| && code == ""
      invariant i <= |polls|
      invariant Attempt(polls, i, code, decode) == CaptureCredentials(polls, decode)
      invariant AttemptUntilFound(polls, i, code, decode) == CaptureUntilFound(polls, decode)
      decreases |polls| - i
    {
      match ScanPoll(code, polls[i], decode)
      case Found(_) =>
        return;
      case Searching(next) =>
        code := next;
        i := i + 1;
    }
  }

  /** The register reply of a successful login, as the server sends it. */
  function RegisterReply(n: string): CompactJson.Value
  {
    CompactJson.Obj([
      CompactJson.Member("code", CompactJson.Str("1")),
      CompactJson.Member("data", CompactJson.Obj([CompactJson.Member("number", CompactJson.Str(n))]))])
  }

  const SampleNumber: string := "2023101001"

  function SampleRegister(): Exchange
  {
    Exchange(RegisterUrl, map[], "", Some(CompactJson.Encode(RegisterReply(SampleNumber))))
  }

  function SampleStudent(): Exchange
  {
    Exchange(StudentUrl(SampleNumber), map["Cookie" := "JSESSIONID=abc", "token" := "t0k"], "", Some(""))
  }

  /** Any register reply of a successful login yields the number it carries. */
  lemma RegisterRead(n: string, h: map<string, string>, b: string)
    requires CompactJson.Plain(n)
    ensures ReadRegister(Exchange(RegisterUrl, h, b, Some(CompactJson.Encode(RegisterReply(n)))), CompactJson.Decode) == Number(n)
  {
    var reply := RegisterReply(n);
    var data := reply.members[1].value;
    assert CompactJson.MembersWellFormed(data.members[1..]);
    assert CompactJson.WellFormed(data);
    assert CompactJson.MembersWellFormed(reply.members[2..]);
    assert CompactJson.MembersWellFormed(reply.members[1..]);
    assert CompactJson.WellFormed(reply);
    CompactJson.DecodeEncode(reply);
    assert StartsWith(RegisterUrl, RegisterUrl);
    assert CompactJson.Get(reply, "code") == Some(CompactJson.Str("1"));
    assert CompactJson.Get(reply, "data") == Some(data);
  }

  lemma SampleUrls()
    ensures !StartsWith(RegisterUrl, StudentUrl(SampleNumber))
    ensures !StartsWith(StudentUrl(SampleNumber), RegisterUrl)
    ensures StartsWith(StudentUrl(SampleNumber), StudentUrl(SampleNumber))
  {
    var prefix := BaseUrl + StudentPath;
    assert RegisterUrl[|prefix|] == 'r';
    assert StudentUrl(SampleNumber)[|prefix|] == '2';
  }

  /**
   * The register reply shows up in the first poll and the request for the
   * student's page only in the second: the code as written stops after the first
   * poll and fails, though the second poll holds a complete login.
   */
  lemma CaptureStopsEarly()
    ensures var polls := seq(DefaultMaxRetry, i => if i == 0 then [SampleRegister()] else [SampleRegister(), SampleStudent()]);
      LoginAt(polls[1], 0, 1, SampleNumber, CompactJson.Decode) &&
      CaptureCredentials(polls, CompactJson.Decode) == Err(CredentialsNotFound) &&
      CaptureUntilFound(polls, CompactJson.Decode).Ok?
  {
    var polls := seq(DefaultMaxRetry, i => if i == 0 then [SampleRegister()] else [SampleRegister(), SampleStudent()]);
    RegisterRead(SampleNumber, map[], "");
    SampleUrls();
    assert polls[0] == [SampleRegister()];
    assert polls[1] == [SampleRegister(), SampleStudent()];
    assert Step("", SampleRegister(), CompactJson.Decode) == Searching(SampleNumber);
    assert ScanPoll("", polls[0], CompactJson.Decode) == Searching(SampleNumber);
    NumberEndsPolling(polls, 0, CompactJson.Decode);
    assert ReadRegister(SampleStudent(), CompactJson.Decode) == Keep;
    assert LoginAt(polls[1], 0, 1, SampleNumber, CompactJson.Decode);
    CaptureUntilFoundFindsLogin(polls, 1, 0, 1, SampleNumber, CompactJson.Decode);
  }

  /** The record `sniff_requests` returns for the exchange it caught. */
  datatype Captured = Captured(url: string, requestHeaders: map<string, string>, requestPayload: string, responseBody: string)

  const NoContent: string := "\U{65E0}"

  /** A body as `sniff_requests` shows it: "无" when empty, pretty-printed when it is JSON, else as is. */
  function Render(text: string, pretty: string -> Option<string>): string
  {
    if text == "" then NoContent
    else match pretty(text)
      case Some(p) => p
      case None => text
  }

  /** The exchange `sniff_requests` waits for: answered, with the target inside its URL. */
  predicate IsTarget(x: Exchange, target: string)
  {
    x.response.Some? && Contains(x.url, target)
  }

  /** The first target exchange of one poll. */
  function FirstTarget(xs: seq<Exchange>, target: string): (r: Option<nat>)
    ensures r.Some? ==> r.value < |xs| && IsTarget(xs[r.value], target)
    ensures r.Some? ==> forall j :: 0 <= j < r.value ==> !IsTarget(xs[j], target)
    ensures r.None? ==> forall j :: 0 <= j < |xs| ==> !IsTarget(xs[j], target)
  {
    if xs == [] then None
    else if IsTarget(xs[0], target) then Some(0)
    else
      match FirstTarget(xs[1..], target)
      case None =>
        assert forall j :: 1 <= j < |xs| ==> xs[j] == xs[1..][j - 1];
        None
      case Some(k) =>
        assert forall j :: 1 <= j <= k ==> xs[j] == xs[1..][j - 1];
        Some(k + 1)
  }

  /** The poll and position of the first target exchange, looking from poll `from` on. */
  function Sniffed(polls: seq<seq<Exchange>>, from: nat, target: string): (r: Option<(nat, nat)>)
    requires from <= |polls|
    ensures r.Some? ==> from <= r.value.0 < |polls| && r.value.1 < |polls[r.value.0]|
    ensures r.Some? ==> IsTarget(polls[r.value.0][r.value.1], target)
    ensures r.Some? ==> forall i, j :: from <= i < r.value.0 && 0 <= j < |polls[i]| ==> !IsTarget(polls[i][j], target)
    ensures r.Some? ==> forall j :: 0 <= j < r.value.1 ==> !IsTarget(polls[r.value.0][j], target)
    ensures r.None? <==> forall i, j :: from <= i < |polls| && 0 <= j < |polls[i]| ==> !IsTarget(polls[i][j], target)
    decreases |polls| - from
  {
    if from == |polls| then None
    else
      match FirstTarget(polls[from], target)
      case Some(j) => Some((from, j))
      case None => Sniffed(polls, from + 1, target)
  }

  /** The record made from a caught exchange. */
  function Record(x: Exchange, pretty: string -> Option<string>): Captured
    requires x.response.Some?
  {
    Captured(x.url, x.headers, Render(x.requestBody, pretty), Render(x.response.value, pretty))
  }

  /**
   * `RequestSniffer.sniff_requests`: the first answered exchange whose URL
   * contains `target`, or nothing once the polls allowed by the deadline are
   * used up. The browser is quit on every path.
   */
  method SniffRequests(polls: seq<seq<Exchange>>, target: string, pretty: string -> Option<string>)
    returns (captured: Option<Captured>, browserQuit: bool)
    ensures Sniffed(polls, 0, target).None? ==> captured == None
    ensures Sniffed(polls, 0, target).Some? ==>
      var (i, j) := Sniffed(polls, 0, target).value;
      captured == Some(Record(polls[i][j], pretty))
    ensures browserQuit
  {
    captured := None;
    var t := 0;
    while t < |polls|
      invariant t <= |polls|
      invariant captured == None
      invariant Sniffed(polls, t, target) == Sniffed(polls, 0, target)
    {
      var poll := polls[t];
      var j := 0;
      while j < |poll|
        invariant j <= |poll|
        invariant forall k :: 0 <= k < j ==> !IsTarget(poll[k], target)
      {
        if poll[j].response.Some? && Contains(poll[j].url, target) {
          captured := Some(Captured(poll[j].url, poll[j].headers, Render(poll[j].requestBody, pretty), Render(poll[j].response.value, pretty)));
          break;
        }
        j := j + 1;
      }
      if captured.Some? {
        assert FirstTarget(poll, target) == Some(j);
        break;
      }
      assert FirstTarget(poll, target) == None;
      t := t + 1;
    }
    browserQuit := true;
  }
}
