# JNU course snatcher — a verified model of its core

JNU_CourseSnatcher helps a student of Jinan University enrol in teaching
classes on the university's elective system (`jwxk.jnu.edu.cn`). It runs in
four steps:

1. It watches a browser while the student logs in and captures the
   credentials. `get_cookie_and_token` in core.py does this in two phases:
   the student number from `register.do`, then `Cookie` and `token` from the
   student's own page. `sniff_requests` in main.py is the one-phase variant:
   the first answered request to `xkxf.do`.
2. It cuts the student code (`xh=`) and the elective batch code (`xklcdm=`)
   out of the captured request body.
3. It looks up each class code (`course_search`) and builds one compact-JSON
   `addParam` form per class (`course_addParam_generate`).
4. It posts those forms round after round. `main` does a fixed number of
   rounds. The GUI's `SnatcherWorker` does a bounded number of rounds and can
   be stopped. `JNUCourseSnatcher.start_snatching` loops until a stop event
   is set.

core.py also parses pasted `addParam` lines (`parse_course_data`) and turns a
`Cookie` header into a map (`cookies_str_to_dict`). The GUI window keeps the
list of class codes free of duplicates.

## How the model is laid out

The browser, the server and the clock are never contacted. Everything they
would produce is an input:

- what the browser has recorded by the i-th look is `polls[i]`;
- what a lookup returns is an `Option<CourseInfo>`;
- what the j-th post of round i gets back is `reply(i, j)`;
- `json.loads` is a `decode` parameter;
- the moment the GUI's stop request lands is the index `stopAt` of the flag
  read it precedes.

| file | module | models |
|---|---|---|
| base.dfy | `Base` | `Option`, `Result` |
| strs.dfy | `Strs` | the Python `str` operations the code uses (`in`, `find`, `split`, `split(sep, 1)`, `startswith`, `strip`) |
| json.dfy | `CompactJson` | `json.dumps(..., separators=(',', ':'))` on strings and objects, a decoder for that subset, and `obj[key]` |
| cookies.dfy | `Cookies` | `cookies_str_to_dict` (core.py) |
| capture.dfy | `Capture` | `get_cookie_and_token` (core.py), `sniff_requests` (main.py) |
| courses.dfy | `Courses` | `course_search`'s query, `course_addParam_generate`, the `xh=`/`xklcdm=` extraction (main.py, gui.py), `parse_course_data` (core.py) |
| snatch.dfy | `Snatch` | `course_snatch` and the round loop of `main` (main.py), `start_snatching` (core.py) |
| worker.dfy | `Worker` | `SnatcherWorker` (gui.py): lookups, filter, rounds, stop flag |
| window.dfy | `Window` | `MainWindow` (gui.py): `on_data_captured`, `add_course`, `remove_course`, `start_snatching` |

Loops in the source are methods with loop invariants. Where a loop computes a
value (`cookies_str_to_dict`, `get_cookie_and_token`, `sniff_requests`,
`parse_course_data`, `start_snatching`, the lookups of `SnatcherWorker.run`),
its method is proved to return what a specification function gives, and the
properties are lemmas about that function. The posting loops (`course_snatch`,
the rounds of `main` and of `SnatcherWorker.run`) and
`course_addParam_generate` are specified by their contracts directly: what is
posted, in which order, when the loop stops, and, for the worker, how many
rounds and pauses the moment of the stop request allows. Objects whose fields the source updates are classes:
`SnatcherWorker` with its running flag, `MainWindow` with its headers, codes,
state and list.

## Model

| member | source | states |
|---|---|---|
| Strs.Find | core.py:27 | the index found is an occurrence of the separator and no earlier one exists; none is found exactly when the separator does not occur |
| Strs.Split | core.py:24 | the pieces joined with the separator give the input back, and no piece contains the separator |
| Strs.SplitOnce | core.py:27 | one piece (the whole string) when the separator is absent; otherwise two pieces around its first occurrence |
| Strs.SplitJoin | core.py:24 | splitting a join on a border-free separator that no piece contains gives the pieces back |
| Strs.FindAfter | core.py:27 | behind a prefix free of a border-free separator, the first occurrence of the separator is the one right after the prefix |
| Strs.StripNothing | core.py:28 | stripping a string with nothing strippable at its ends leaves it unchanged |
| CompactJson.DecodeEncode | main.py:246 | decoding the compact encoding of a value whose strings need no escaping gives the value back |
| CompactJson.Get | core.py:52-53 | a key lookup on an object finds a member with that key, and fails exactly when no member has it or the value is not an object |
| CompactJson.GetMemberLast | main.py:231-244 | a member whose key no later member repeats is the one the lookup finds |
| Cookies.Entry | core.py:26-28 | a segment without `=` gives nothing; otherwise the name before the first `=`, trimmed, and the rest, trimmed and without its quotes |
| Cookies.CookieMap | core.py:23-29 | the entries of the segments stored one after the other into an empty map, a later name overwriting an earlier one |
| Cookies.CookiesStrToDict | core.py:17-29 | the loop builds exactly the map of the `"; "`-separated segments, stored one after the other; it never fails |
| Cookies.EntryOfPair | core.py:26-28 | a segment is cut at its first `=`: the key is the trimmed name, the value is trimmed then loses its quotes, and a later `=` stays in the value |
| Cookies.CookieMapKeys | core.py:24-28 | a name is a key exactly when some segment containing `=` carries it |
| Cookies.CookieMapLastWins | core.py:28 | a repeated name keeps the value of its last segment |
| Cookies.SkipSegmentWithoutEquals | core.py:26 | a segment without `=` contributes nothing: dropping it leaves the map unchanged |
| Cookies.StoreAllKeys | core.py:25-28 | a key is stored exactly when some entry carries it |
| Cookies.StoreAllLastWins | core.py:28 | a later entry with the same key overwrites an earlier one |
| Cookies.EntryOfGoodPair | core.py:27-28 | a name/value pair with nothing to trim reads back as itself |
| Cookies.SplitSerialized | core.py:24 | a header written from well-behaved pairs splits back into its `name=value` segments |
| Cookies.CookieRoundTrip | core.py:17-29 | parsing a `Cookie` header written from well-behaved pairs gives the map those pairs denote, later pairs overriding earlier ones |
| Capture.ReadRegister | core.py:48-57 | an exchange that is not an answered `register.do` request keeps the number; an answered one whose reply does not parse or is not an object skips the rest of the exchange; a parsed object whose `code` is not "1" keeps the number; with `code` "1", a missing or non-object `data` or a missing `number` skips the exchange, and a string `data.number` is read as the number; a number is read only from a parsed reply with `code` "1" |
| Capture.Step | core.py:47-74 | phases A then B on one exchange: an unreadable register reply skips the exchange; a number read replaces the one known; a bundle is made when a number is known, the URL is that student's page and both `Cookie` and `token` are non-empty (its properties are the lemmas below) |
| Capture.ScanPoll | core.py:46-74 | one pass over everything recorded, exchange by exchange, stopping at the first bundle and carrying the number read so far |
| Capture.Attempt | core.py:45-80 | the retry loop: another poll only while polls remain and no number is known; failure once either runs out |
| Capture.CaptureCredentials | core.py:31-80 | `get_cookie_and_token` with no number known at the start and one poll per retry |
| Capture.ScanPollMeaning | core.py:46-74 | a bundle found in a poll is complete and supplied by one of its exchanges, under the known number or one read in that poll; an unfinished scan ends with the known number or one it read |
| Capture.AttemptMeaning | core.py:45-80 | a bundle the retry loop returns is complete, supplied by an exchange of some poll, under a number a register reply of some poll gave |
| Capture.GetCookieAndToken | core.py:31-80 | the nested loops return exactly what the retry loop specification gives; the browser is quit only when a bundle is returned |
| Capture.UnreadableReplySkipped | core.py:49-57 | a `register.do` reply that does not parse is passed over: the scan continues as if it were absent |
| Capture.NumberEndsPolling | core.py:45 | once a poll ends with a number known and no bundle, capture fails, whatever later polls hold |
| Capture.AttemptUntilFoundMeaning | core.py:45-80 | a bundle the intended polling returns is complete and supplied by an exchange of some poll |
| Capture.ScanFindsKnown | core.py:59-74 | with the number known, a poll holding the request for that student's page with both headers yields a bundle |
| Capture.ScanFindsLogin | core.py:46-74 | a poll holding a login (register reply, then the student's page request) yields a bundle, whatever number was known before |
| Capture.CaptureUntilFoundFindsLogin | core.py:45-80 | the intended polling captures a login recorded in any of the `max_retry` polls |
| Capture.UntilFoundExtends | core.py:45 | whenever the code as written returns a bundle, the intended polling returns the same one |
| Capture.RegisterRead | core.py:52-53 | for every plain string `n` and any request headers and body, the compact reply `{"code":"1","data":{"number":n}}` of `register.do` yields the number `n` |
| Capture.CaptureStopsEarly | core.py:45 | a register reply in the first poll and the page request only in the second: the code as written fails, the intended polling succeeds |
| Capture.FirstTarget | main.py:170-171 | the index found is the first answered exchange of the poll whose URL contains the target; none is found exactly when no exchange qualifies |
| Capture.Sniffed | main.py:168-214 | the first qualifying exchange in poll order, then recording order; none exactly when no poll holds one |
| Capture.SniffRequests | main.py:144-225 | the loops return the record of exactly that first qualifying exchange, or nothing; the browser is quit on every path |
| Courses.QuerySetting | main.py:231-244 | the `querySetting` object: its `data`, then `pageSize`, `pageNumber` and `order`; the repeated `isMajor` key keeps its first place |
| Courses.QueryForm | main.py:227-250 | the form `course_search` posts: the compact encoding of that object under `querySetting`, with `QXKC` as the default class type |
| Courses.QueryDataFields | main.py:232-240 | the query's `data` carries the given student code, batch code, search text and class type |
| Courses.QueryDataConstants | main.py:234-238 | the query's `data` has `isMajor` "1" and an empty `campus` |
| Courses.QuerySettingFields | main.py:231-244 | the query has `pageSize` "10", `pageNumber` "0", empty `order`, and its `data` object |
| Courses.QueryReadBack | main.py:246-250 | decoding the posted `querySetting` text gives exactly the query object that was built |
| Courses.AddParam | main.py:263-273 | the `addParam` object: a `data` object with the fields in the literal's order |
| Courses.PayloadFor | main.py:268-279 | the posted form for a reply: the compact `addParam` built from `teachingClassID` and `campus` of `dataList[0]` |
| Courses.CourseAddParamGenerate | main.py:259-290 | one payload per reply, in order, each built from `dataList[0]`; it fails exactly when some reply is unusable, naming the first such reply |
| Courses.AddParamDataFields | main.py:263-273 | the payload's `data` carries the student code, the batch code, and `teachingClassID` and `campus` of `dataList[0]` |
| Courses.AddParamDataConstants | main.py:265-271 | the payload's `data` has `operationType` "1", `isMajor` "1" and `teachingClassType` "QXKC" |
| Courses.AddParamFields | main.py:263-273 | the payload object has a single `data` member |
| Courses.AddParamReadBack | main.py:275-279 | decoding the posted `addParam` text gives exactly the payload object that was built |
| Courses.AddParamInjective | main.py:263-279 | different codes never give the same payload |
| Courses.Extract | main.py:338-339 | a value is cut out exactly when the marker occurs; it is a prefix of the text after the first marker, contains no `&` and no marker, and ends at the end, at an `&` or at a marker |
| Courses.StudentCodeOf | main.py:338 | the value after the first `xh=`, up to the next `&`; none when `xh=` is missing (the `IndexError`) |
| Courses.BatchCodeOf | main.py:339 | the value after the first `xklcdm=`, up to the next `&`; none when it is missing |
| Courses.ExtractField | gui.py:313-314 | a field written as `marker + value + "&"` behind text free of the marker is cut back out exactly |
| Courses.ValueEndsAtAmpersand | main.py:338-339 | in `value + "&" + rest`, a cut prefix with the extraction's properties is the value itself |
| Courses.Lines | core.py:99 | every kept line is non-blank |
| Courses.NonBlank | core.py:99 | trimming and dropping blank lines never adds lines, and none kept is blank |
| Courses.NonBlankKeeps | core.py:99 | lines already trimmed and non-blank are all kept, unchanged |
| Courses.LinesRoundTrip | core.py:99 | trimmed, non-blank lines without newlines, joined by newlines, are read back one for one |
| Courses.ParamText | core.py:103-104 | a line starting with `addParam:` or `addParam=` is cut after its first space, the rest trimmed (the whole line when it has no space); other lines are unchanged |
| Courses.CourseOf | core.py:106-111 | a record is made exactly when the text parses and its `data` has `teachingClassId` and `teachingClassType`; the record holds the text as its `addParam` and those two values |
| Courses.ParseLine | core.py:103-111 | one line: the text cut as written, then read as a record |
| Courses.ParseAll | core.py:101-115 | the lines read in order into records, stopping at the first that does not parse, whose index is the error |
| Courses.ParseAllOk | core.py:101-115 | a success holds one record per line, in order, each the line's own parse |
| Courses.ParseAllErr | core.py:101-114 | a failure names a line that does not parse, and every line before it parses |
| Courses.ParseAllOkIff | core.py:101-115 | the outcome is a success exactly when every line parses: all or nothing |
| Courses.ParseAllErrSticks | core.py:113-114 | a failure on the first lines is the failure of the whole input |
| Courses.ParseCourseData | core.py:92-115 | the loop returns exactly the all-or-nothing outcome on the trimmed non-blank lines |
| Courses.ParseGeneratedLine | core.py:101-112 | a payload written by the generator, pasted as a line, parses back to a record of that payload |
| Courses.DecodeRejectsPrefixed | core.py:106 | text starting with `addParam=` is not JSON |
| Courses.ParseColonSpaceLine | core.py:103-104 | behind `addParam: ` (colon and space) the line is read as the text after the space |
| Courses.EqualsPrefixRejected | core.py:103-106 | behind `addParam=` with no space, the whole line, prefix included, reaches the JSON parser and is rejected |
| Courses.ParamTextUnsplit | core.py:104 | a prefixed line without a space is kept whole by the cut as written |
| Courses.IntendedPrefixTransparent | core.py:103-104 | with the prefix removed as intended, a line reads the same behind `addParam:`, `addParam: ` or `addParam=` |
| Snatch.RepeatLength | main.py:352-354 | k rounds post k times the number of forms |
| Snatch.RepeatIndex | main.py:295-296 | position j of round r is the j-th form: every round posts in list order |
| Snatch.CourseSnatch | main.py:292-298 | the forms are posted in order; without failure all are posted and every reply shown; on the first failure the forms up to and including it are posted and nothing after |
| Snatch.MainRounds | main.py:292-354 | the program fails exactly when some post of its `repeat_snatch_time` (3) passes raises or gets a reply that is not JSON; without failure all 3 passes post every form; on failure the earlier passes are whole, and the failing pass stops at its first such post, after the posts before it |
| Snatch.AllAnsweredPostsEveryRound | main.py:352-354 | when every post is answered with JSON, all 3 passes post every form, in order |
| Snatch.ReportOf | core.py:125-133 | the report of one post: the reply text, or an error when `requests.post` raised |
| Snatch.Reports | core.py:123-133 | the reports of the first k rounds, round after round, each round one report per course in list order |
| Snatch.StartSnatching | core.py:117-136 | the loop reports exactly the reports of the rounds before the stop event is seen |
| Snatch.CoursesOf | core.py:131-133 | each report names its course |
| Snatch.ReportsCoverEveryCourse | core.py:123-133 | whatever the replies, every round reports every course once, in list order |
| Snatch.ReportIsErrorIffFailed | core.py:125-133 | the report of course j in round r is an error exactly when that post raised |
| Snatch.ReportsAt | core.py:124-133 | the report at position r·n + j is the report of post j of round r |
| Snatch.ReportsLength | core.py:123-124 | k rounds give k times the number of courses reports |
| Worker.Kept | gui.py:95-97 | the lookups kept, in order: those with a non-empty `dataList` |
| Worker.FailedCodes | gui.py:95-103 | the codes reported as failed, in order: those whose lookup has no or an empty `dataList` |
| Worker.LookupsMade | gui.py:90-91 | the lookups a run makes: all of them, or those before the flag read that first finds the stop, or none when the worker was already stopped |
| Worker.KeptConcat | gui.py:90-97 | the kept lookups of two stretches are those of each, in order |
| Worker.KeptMembers | gui.py:95-97 | a lookup is kept exactly when it is one of the lookups and has a non-empty `dataList` |
| Worker.KeptAll | gui.py:95-97 | when every lookup has a non-empty `dataList`, all are kept, in order |
| Worker.LookupsPartition | gui.py:95-103 | every lookup is either kept or reported as failed: the two sides together number the lookups, and a code is reported as failed exactly when a lookup of it did not resolve |
| Worker.RoundsStarted | gui.py:119-120 | the rounds that start when no post fails, given the number of the flag read before the first round |
| Worker.RoundsStartedMeaning | gui.py:119-120 | round i (of `repeat`) starts exactly when the worker was running and flag read number `firstRead + 2i` comes before the stop |
| Worker.PausesTaken | gui.py:124-125 | the pauses after the completed rounds: one after round i when it is not the last and the read after it still finds the flag up |
| Worker.PausesClosedForm | gui.py:119-125 | the pauses number the completed rounds, at most `repeat - 1`, and no more than the post-round reads before the stop; none when the stop lands before the first of them |
| Worker.SnatcherWorker.constructor | gui.py:71-78 | the worker stores its arguments and starts running |
| Worker.SnatcherWorker.Stop | gui.py:80-83 | the flag is down afterwards |
| Worker.SnatcherWorker.ReadFlag | gui.py:91 | the flag stays up unless the stop request lands at this read, and nothing raises it again |
| Worker.SnatcherWorker.LookUp | gui.py:90-103 | the flag is read before each lookup; the lookups made before it is found down are filtered into kept replies and failed codes, in order |
| Worker.SnatcherWorker.Rounds | gui.py:119-125 | without a failed post exactly `RoundsStarted` rounds run, each posting the whole list; a post fails exactly when some round that starts has a post that raises or whose reply is not JSON, and the loop then ends at the first such post of that round; the pauses are exactly `PausesTaken` of the completed rounds; the flag is read twice per completed round |
| Worker.SnatcherWorker.Run | gui.py:85-133 | stops without posting when stopped during lookups, or when nothing is kept; once every lookup is made and some are kept, payload generation fails exactly when a kept reply is unusable, at the first such reply; otherwise the rounds start from flag read number `|codes|` with `Rounds` guarantees, including failure exactly at the first post that raises or is not JSON; the completion message is logged exactly when every round ran and the stop lands after the last read |
| Worker.StopAtFirstRoundCheck | gui.py:119-120 | a worker stopped just before its first round check posts nothing, pauses never and logs no completion |
| Worker.UninterruptedRunCompletes | gui.py:85-128 | a worker never stopped, whose lookups all find a usable class and whose posts are all answered with JSON, runs every round, posts one form per code each round and logs its completion |
| Window.HeadersFrom | gui.py:307-311 | headers are built exactly when the captured request has `cookie` and `token`, and carry those values and the fixed user agent |
| Window.AddedTo | gui.py:325-333 | the list after `add_course`: the trimmed text is appended when it is non-empty and not yet listed; otherwise the list is unchanged |
| Window.AddedKeepsNoDup | gui.py:325-331 | adding keeps the list free of duplicates |
| Window.AddedMembers | gui.py:325-331 | a code is listed after adding exactly when it was listed before or is the trimmed non-empty input; the old codes keep their places |
| Window.AddedIdempotent | gui.py:327-331 | adding the same text twice is adding it once |
| Window.Survivors | gui.py:343-345 | the rows left are below the list length, not removed, and in increasing order |
| Window.SurvivorsMembers | gui.py:343-345 | a row is left exactly when it is below the list length and not removed |
| Window.SurvivorsDrop | gui.py:345 | taking one more item out removes exactly its row from the rows left |
| Window.SurvivorsLength | gui.py:343-345 | the rows left number the list length minus the rows removed |
| Window.Removed | gui.py:343-345 | the list after `remove_course`: the items whose original rows were selected are taken out, the others keep their order |
| Window.RemovedLength | gui.py:343-345 | removing selected rows shortens the list by the number of rows selected |
| Window.RemovedMembers | gui.py:343-345 | in a list without duplicates, a code remains exactly when its row was not selected |
| Window.RemovedKeepsNoDup | gui.py:343-345 | removing keeps the list free of duplicates |
| Window.RemovedNothing | gui.py:339-341 | removing no row leaves the list as it was |
| Window.RowOf | gui.py:345 | the row found holds the item |
| Window.MainWindow.constructor | gui.py:138-147 | a new window has no capture, headers or codes, is `Initial`, and its list is empty |
| Window.MainWindow.OnDataCaptured | gui.py:303-321 | headers are stored before the body is read, and each code as soon as it is cut out; the parse succeeds exactly when headers and both markers are present; the state is `Sniffed` on success and `Initial` otherwise, with the headers kept |
| Window.MainWindow.SniffingFinished | gui.py:299 | when the capture thread ends, the state is `Sniffed` whenever headers are set |
| Window.MainWindow.AddCourse | gui.py:323-335 | the list becomes the list after adding the trimmed input; empty input is an error that changes nothing; the text box is cleared otherwise; the list stays duplicate-free |
| Window.MainWindow.RemoveCourse | gui.py:337-345 | with nothing selected it is an error and nothing changes; otherwise exactly the selected rows are removed, in order; the list stays duplicate-free |
| Window.MainWindow.StartSnatching | gui.py:347-366 | it starts exactly when headers are set and the list is not empty, handing the listed codes to the worker |

## Notes on the code

- `parse_course_data` raises on the first line it cannot read and returns no
  record at all (core.py:113-114).
- A failed post is reported and the round goes on only in
  `start_snatching` (core.py:131-133). In `main` and in `SnatcherWorker.run`,
  an exception in `course_snatch` ends the whole run (main.py:296-297,
  gui.py:130-131).
- When `get_cookie_and_token` fails, it raises without quitting the browser
  (core.py:80). The model returns `browserQuit` false on that path.
- The checks at gui.py:99-101 and gui.py:112-114 can never fire. The first
  is behind a test that already requires a non-empty `dataList`. The second
  follows a generator that makes one payload per kept reply, and at least
  one reply is kept. `Run` asserts the second.
- If `on_data_captured` finds the headers but not a code, the headers stay
  set. The capture thread's end then puts the window back in `Sniffed`
  (gui.py:299). So snatching can start with a missing student or batch code.

## Left out

- Browser start-up, selenium-wire, temporary directories and `atexit`
  (core.py:82-90, main.py:29-142). The browser's recording is the input
  `polls`.
- HTTP. `requests.post` becomes `Reply` values and lookup results. The
  exceptions `course_search` catches become a `None` lookup.
- Timing. `time.sleep` and the deadline of `sniff_requests` become a count
  of polls; the sleeps of the round loops are counted (`sleeps`).
- PyQt: threads, signals, message boxes, log lines, widget enabling,
  `closeEvent`, stdout redirection. Log and error messages become returned
  outcomes.
- Console input in `main` (main.py:326-336, 349-350). The class codes are
  given directly, and the `y` prompt is taken as answered.
- JSON escapes, numbers, arrays, booleans and `null`. `json.loads` is a
  `decode` parameter; `CompactJson.Decode` is the instance the round-trip
  lemmas use.
- Pretty-printing in `sniff_requests` becomes the parameter `pretty`.
- Header names are compared case-sensitively. selenium-wire's header lookup
  ignores case.
- The text of `display_name` in `parse_course_data`. A record keeps the two
  values it shows.
- Capture.ReadRegister: JSON `null`, numbers, booleans and arrays are outside
  the value model, so a falsy `number` such as `null` or `0`, which Python
  assigns and which resets a number already read, is not modelled (an empty
  string or empty object does reset it, as in Python). A non-empty object as
  `number`, which Python assigns and prints into the page URL, is treated as
  an unreadable reply: the model keeps the old number and skips the
  exchange.
- Capture.GetCookieAndToken: `max_retry` is the number of polls given.
- Snatch.StartSnatching: a stop event that is never set means an endless
  loop. The model takes the round at which the event is first seen as
  `stopRound`.
- Worker.SnatcherWorker.Run: a stop request is seen only at the worker's
  reads of the flag, which covers every interleaving the worker can observe.
  The pause is modelled by the count `sleeps`, not by time.
- Window.MainWindow.StartSnatching: the worker thread itself is not created.
  The method returns the codes the worker would receive.
- Window.MainWindow.RemoveCourse: the selection is given as distinct row
  numbers. Qt's item identity is modelled by tracking each item's original
  row.

## Findings

| source | as written | input that shows it | evidently intended | confidence | as-written member | corrected member |
|---|---|---|---|---|---|---|
| core.py:45 | the loop guard `not student_code` stops polling after the first poll that finds the number, even when that poll does not hold the request for the student's page | poll 1 holds only the register reply; poll 2 holds the register reply and the page request with `Cookie` and `token` | keep polling with the known number until a bundle is found or `max_retry` polls are used | not executed | Capture.CaptureStopsEarly | Capture.CaptureUntilFoundFindsLogin |
| core.py:103-104 | a line starting with `addParam=` is cut at its first space, so without a space the whole line, prefix included, is parsed as JSON and raises | `addParam={"data":{...}}` | drop the prefix itself, so `addParam=`, `addParam:` and `addParam: ` all work | not executed | Courses.EqualsPrefixRejected | Courses.IntendedPrefixTransparent |
