/**
 * What the snatcher sends and reads about courses: the `querySetting` of
 * `course_search`, the `addParam` payloads of `course_addParam_generate`, the
 * student and batch codes cut out of the captured request body, and
 * `parse_course_data`'s reading of pasted payload lines.
 */
module Courses {
  import opened Base
  import opened Strs
  import opened CompactJson

  /** Form fields of a POST body. */
  type Form = map<string, string>

  /** The class type `course_search` asks for unless told otherwise, and the one every `addParam` carries. */
  const DefaultTeachingClassType: string := "QXKC"

  /** The `data` part of the `querySetting` object of `course_search`. */
  function QueryData(studentCode: string, batchCode: string, queryContent: string, teachingClassType: string): Value
  {
    Obj([
      Member("studentCode", Str(studentCode)),
      Member("campus", Str("")),
      Member("electiveBatchCode", Str(batchCode)),
      Member("isMajor", Str("1")),
      Member("teachingClassType", Str(teachingClassType)),
      Member("queryContent", Str(queryContent))])
  }

  /**
   * The `querySetting` object of `course_search`. The dictionary literal names
   * `isMajor` twice; the second entry only rewrites the value of the first, so the
   * key keeps its first position.
   */
  function QuerySetting(studentCode: string, batchCode: string, queryContent: string, teachingClassType: string): Value
  {
    Obj([
      Member("data", QueryData(studentCode, batchCode, queryContent, teachingClassType)),
      Member("pageSize", Str("10")),
      Member("pageNumber", Str("0")),
      Member("order", Str(""))])
  }

  /** The form `course_search` posts: the compact `querySetting` JSON under one key. */
  function QueryForm(studentCode: string, batchCode: string, queryContent: string, teachingClassType: string := DefaultTeachingClassType): Form
  {
    map["querySetting" := Encode(QuerySetting(studentCode, batchCode, queryContent, teachingClassType))]
  }

  /** The query's `data` carries the codes and search text it was given. */
  lemma QueryDataFields(studentCode: string, batchCode: string, queryContent: string, teachingClassType: string)
    ensures var d := QueryData(studentCode, batchCode, queryContent, teachingClassType);
      Get(d, "queryContent") == Some(Str(queryContent)) &&
      Get(d, "teachingClassType") == Some(Str(teachingClassType)) &&
      Get(d, "studentCode") == Some(Str(studentCode)) &&
      Get(d, "electiveBatchCode") == Some(Str(batchCode))
  {
    var d := QueryData(studentCode, batchCode, queryContent, teachingClassType);
    GetMemberLast(d.members, 0, "studentCode");
    GetMemberLast(d.members, 2, "electiveBatchCode");
    GetMemberLast(d.members, 4, "teachingClassType");
    GetMemberLast(d.members, 5, "queryContent");
  }

  /** The query's `data` asks for major courses on an unspecified campus. */
  lemma QueryDataConstants(studentCode: string, batchCode: string, queryContent: string, teachingClassType: string)
    ensures var d := QueryData(studentCode, batchCode, queryContent, teachingClassType);
      Get(d, "isMajor") == Some(Str("1")) && Get(d, "campus") == Some(Str(""))
  {
    var d := QueryData(studentCode, batchCode, queryContent, teachingClassType);
    GetMemberLast(d.members, 1, "campus");
    GetMemberLast(d.members, 3, "isMajor");
  }

  /** The query carries the fixed paging fields and its `data` object. */
  lemma QuerySettingFields(studentCode: string, batchCode: string, queryContent: string, teachingClassType: string)
    ensures var q := QuerySetting(studentCode, batchCode, queryContent, teachingClassType);
      Get(q, "pageSize") == Some(Str("10")) &&
      Get(q, "pageNumber") == Some(Str("0")) &&
      Get(q, "order") == Some(Str("")) &&
      Get(q, "data") == Some(QueryData(studentCode, batchCode, queryContent, teachingClassType))
  {
    var q := QuerySetting(studentCode, batchCode, queryContent, teachingClassType);
    GetMemberLast(q.members, 0, "data");
    GetMemberLast(q.members, 1, "pageSize");
    GetMemberLast(q.members, 2, "pageNumber");
    GetMemberLast(q.members, 3, "order");
  }

  lemma CodeKeysPlain()
    ensures Plain("studentCode") && Plain("electiveBatchCode") && Plain("isMajor") && Plain("campus")
  {
  }

  lemma QueryKeysPlain()
    ensures Plain("teachingClassType") && Plain("queryContent") && Plain("1") && Plain("")
  {
  }

  lemma QueryDataWellFormed(studentCode: string, batchCode: string, queryContent: string, teachingClassType: string)
    requires Plain(studentCode) && Plain(batchCode) && Plain(queryContent) && Plain(teachingClassType)
    ensures WellFormed(QueryData(studentCode, batchCode, queryContent, teachingClassType))
  {
    CodeKeysPlain();
    QueryKeysPlain();
    MembersWellFormedAll(QueryData(studentCode, batchCode, queryContent, teachingClassType).members);
  }

  lemma PagingKeysPlain()
    ensures Plain("data") && Plain("pageSize") && Plain("pageNumber") && Plain("order")
    ensures Plain("10") && Plain("0") && Plain("")
  {
  }

  lemma QuerySettingWellFormed(studentCode: string, batchCode: string, queryContent: string, teachingClassType: string)
    requires Plain(studentCode) && Plain(batchCode) && Plain(queryContent) && Plain(teachingClassType)
    ensures WellFormed(QuerySetting(studentCode, batchCode, queryContent, teachingClassType))
  {
    PagingKeysPlain();
    QueryDataWellFormed(studentCode, batchCode, queryContent, teachingClassType);
    MembersWellFormedAll(QuerySetting(studentCode, batchCode, queryContent, teachingClassType).members);
  }

  /** The server reads back from the posted form exactly the query object that was built. */
  lemma QueryReadBack(studentCode: string, batchCode: string, queryContent: string, teachingClassType: string)
    requires Plain(studentCode) && Plain(batchCode) && Plain(queryContent) && Plain(teachingClassType)
    ensures Decode(QueryForm(studentCode, batchCode, queryContent, teachingClassType)["querySetting"]) ==
      Some(QuerySetting(studentCode, batchCode, queryContent, teachingClassType))
  {
    QuerySettingWellFormed(studentCode, batchCode, queryContent, teachingClassType);
    DecodeEncode(QuerySetting(studentCode, batchCode, queryContent, teachingClassType));
  }

  /** The reply of `course_search` as far as the snatcher reads it: its `dataList`, if present. */
  datatype CourseInfo = CourseInfo(dataList: Option<seq<map<string, string>>>)

  /** The fields of `dataList[0]` that `course_addParam_generate` reads. */
  const RequiredFields: set<string> :=
    {"teachingClassID", "campus", "courseName", "courseNumber", "campusName", "teacherName", "teachingPlace"}

  /** A reply `course_addParam_generate` can use without raising. */
  predicate Usable(info: Option<CourseInfo>)
  {
    info.Some? && info.value.dataList.Some? && |info.value.dataList.value| > 0 &&
    RequiredFields <= info.value.dataList.value[0].Keys
  }

  /** The `data` part of an `addParam` object. */
  function AddParamData(studentCode: string, batchCode: string, classId: string, campus: string): Value
  {
    Obj([
      Member("operationType", Str("1")),
      Member("studentCode", Str(studentCode)),
      Member("electiveBatchCode", Str(batchCode)),
      Member("teachingClassId", Str(classId)),
      Member("isMajor", Str("1")),
      Member("campus", Str(campus)),
      Member("teachingClassType", Str(DefaultTeachingClassType))])
  }

  /** The `addParam` object that enrols the student in one teaching class. */
  function AddParam(studentCode: string, batchCode: string, classId: string, campus: string): Value
  {
    Obj([Member("data", AddParamData(studentCode, batchCode, classId, campus))])
  }

  function AddParamForm(studentCode: string, batchCode: string, classId: string, campus: string): Form
  {
    map["addParam" := Encode(AddParam(studentCode, batchCode, classId, campus))]
  }

  /** The payload made from the first class record of a usable reply. */
  function PayloadFor(info: Option<CourseInfo>, studentCode: string, batchCode: string): Form
    requires Usable(info)
  {
    var first := info.value.dataList.value[0];
    AddParamForm(studentCode, batchCode, first["teachingClassID"], first["campus"])
  }

  /**
   * `course_addParam_generate`: one payload per reply, in order; the first reply
   * it cannot use raises, and its index is the error.
   */
  method CourseAddParamGenerate(infos: seq<Option<CourseInfo>>, studentCode: string, batchCode: string)
    returns (r: Result<seq<Form>, nat>)
    ensures r.Ok? <==> forall i :: 0 <= i < |infos| ==> Usable(infos[i])
    ensures r.Ok? ==> |r.value| == |infos|
    ensures r.Ok? ==> forall i :: 0 <= i < |infos| ==> r.value[i] == PayloadFor(infos[i], studentCode, batchCode)
    ensures r.Err? ==> r.error < |infos| && !Usable(infos[r.error])
    ensures r.Err? ==> forall k :: 0 <= k < r.error ==> Usable(infos[k])
  {
    var forms: seq<Form> := [];
    for i := 0 to |infos|
      invariant |forms| == i
      invariant forall k :: 0 <= k < i ==> Usable(infos[k]) && forms[k] == PayloadFor(infos[k], studentCode, batchCode)
    {
      var info := infos[i];
      if info.None? || info.value.dataList.None? || |info.value.dataList.value| == 0 {
        return Err(i);
      }
      var first := info.value.dataList.value[0];
      if !("teachingClassID" in first && "campus" in first) {
        return Err(i);
      }
      forms := forms + [AddParamForm(studentCode, batchCode, first["teachingClassID"], first["campus"])];
      if !(RequiredFields <= first.Keys) {
        return Err(i);
      }
    }
    r := Ok(forms);
  }

  /** The payload's `data` holds the four given codes. */
  lemma AddParamDataFields(studentCode: string, batchCode: string, classId: string, campus: string)
    ensures var d := AddParamData(studentCode, batchCode, classId, campus);
      Get(d, "studentCode") == Some(Str(studentCode)) &&
      Get(d, "electiveBatchCode") == Some(Str(batchCode)) &&
      Get(d, "teachingClassId") == Some(Str(classId)) &&
      Get(d, "campus") == Some(Str(campus))
  {
    var d := AddParamData(studentCode, batchCode, classId, campus);
    GetMemberLast(d.members, 1, "studentCode");
    GetMemberLast(d.members, 2, "electiveBatchCode");
    GetMemberLast(d.members, 3, "teachingClassId");
    GetMemberLast(d.members, 5, "campus");
  }

  /** The payload's `data` asks to add (operation 1) a major course of the default class type. */
  lemma AddParamDataConstants(studentCode: string, batchCode: string, classId: string, campus: string)
    ensures var d := AddParamData(studentCode, batchCode, classId, campus);
      Get(d, "operationType") == Some(Str("1")) &&
      Get(d, "isMajor") == Some(Str("1")) &&
      Get(d, "teachingClassType") == Some(Str(DefaultTeachingClassType))
  {
    var d := AddParamData(studentCode, batchCode, classId, campus);
    GetMemberLast(d.members, 0, "operationType");
    GetMemberLast(d.members, 4, "isMajor");
    GetMemberLast(d.members, 6, "teachingClassType");
  }

  /** The payload is a single `data` member. */
  lemma AddParamFields(studentCode: string, batchCode: string, classId: string, campus: string)
    ensures var p := AddParam(studentCode, batchCode, classId, campus);
      p.Obj? && |p.members| == 1 && Get(p, "data") == Some(AddParamData(studentCode, batchCode, classId, campus))
  {
    GetMemberLast(AddParam(studentCode, batchCode, classId, campus).members, 0, "data");
  }

  lemma AddParamKeysPlain()
    ensures Plain("operationType") && Plain("teachingClassId") && Plain("teachingClassType") && Plain(DefaultTeachingClassType)
  {
  }

  lemma AddParamDataWellFormed(studentCode: string, batchCode: string, classId: string, campus: string)
    requires Plain(studentCode) && Plain(batchCode) && Plain(classId) && Plain(campus)
    ensures WellFormed(AddParamData(studentCode, batchCode, classId, campus))
  {
    CodeKeysPlain();
    QueryKeysPlain();
    AddParamKeysPlain();
    MembersWellFormedAll(AddParamData(studentCode, batchCode, classId, campus).members);
  }

  lemma AddParamWellFormed(studentCode: string, batchCode: string, classId: string, campus: string)
    requires Plain(studentCode) && Plain(batchCode) && Plain(classId) && Plain(campus)
    ensures WellFormed(AddParam(studentCode, batchCode, classId, campus))
  {
    PagingKeysPlain();
    AddParamDataWellFormed(studentCode, batchCode, classId, campus);
    MembersWellFormedAll(AddParam(studentCode, batchCode, classId, campus).members);
  }

  /** The server reads back from an `addParam` payload exactly the object that was built. */
  lemma AddParamReadBack(studentCode: string, batchCode: string, classId: string, campus: string)
    requires Plain(studentCode) && Plain(batchCode) && Plain(classId) && Plain(campus)
    ensures Decode(AddParamForm(studentCode, batchCode, classId, campus)["addParam"]) ==
      Some(AddParam(studentCode, batchCode, classId, campus))
  {
    AddParamWellFormed(studentCode, batchCode, classId, campus);
    DecodeEncode(AddParam(studentCode, batchCode, classId, campus));
  }

  /** Different codes never produce the same payload. */
  lemma AddParamInjective(a: (string, string, string, string), b: (string, string, string, string))
    requires Plain(a.0) && Plain(a.1) && Plain(a.2) && Plain(a.3)
    requires Plain(b.0) && Plain(b.1) && Plain(b.2) && Plain(b.3)
    requires AddParamForm(a.0, a.1, a.2, a.3) == AddParamForm(b.0, b.1, b.2, b.3)
    ensures a == b
  {
    AddParamReadBack(a.0, a.1, a.2, a.3);
    AddParamReadBack(b.0, b.1, b.2, b.3);
    var da := AddParamData(a.0, a.1, a.2, a.3);
    assert AddParam(a.0, a.1, a.2, a.3) == AddParam(b.0, b.1, b.2, b.3);
    assert da == AddParamData(b.0, b.1, b.2, b.3);
    assert da.members[1].value.s == a.0 && da.members[2].value.s == a.1;
    assert da.members[3].value.s == a.2 && da.members[5].value.s == a.3;
  }

  /**
   * The second piece of the payload split on `marker`, cut at its first `&`: the
   * text after the first `marker` up to the next `&`, or up to the next `marker`
   * where that comes first.
   * Without the marker the source raises `IndexError`, here `None`.
   */
  function Extract(payload: string, marker: string): (r: Option<string>)
    requires marker != []
    ensures r.Some? <==> Contains(payload, marker)
    ensures r.Some? ==>
      var t := payload[Find(payload, marker).value + |marker|..];
      |r.value| <= |t| && t[..|r.value|] == r.value &&
      !Contains(r.value, "&") && !Contains(r.value, marker) &&
      (|r.value| == |t| || OccursAt(t, "&", |r.value|) || OccursAt(t, marker, |r.value|))
  {
    var parts := Split(payload, marker);
    SplitCount(payload, marker);
    if |parts| < 2 then None
    else
      SplitSecond(payload, marker);
      var t := payload[Find(payload, marker).value + |marker|..];
      ValueAfter(t, marker);
      Some(Split(parts[1], "&")[0])
  }

  /** The text up to the first `&` of the first piece of `t` stops at the end, at an `&`, or at a `marker`. */
  lemma ValueAfter(t: string, marker: string)
    requires marker != []
    ensures var v := Split(Split(t, marker)[0], "&")[0];
      |v| <= |t| && t[..|v|] == v &&
      !Contains(v, "&") && !Contains(v, marker) &&
      (|v| == |t| || OccursAt(t, "&", |v|) || OccursAt(t, marker, |v|))
  {
    var h := Split(t, marker)[0];
    var v := Split(h, "&")[0];
    SplitHead(t, marker);
    SplitHead(h, "&");
    assert t[..|v|] == v by {
      assert t[..|h|][..|v|] == t[..|v|];
    }
    PrefixAvoids(h, |v|, marker);
    if |v| < |h| {
      OccursInPrefix(t, "&", |h|, |v|);
    }
  }

  /** The split has a second piece exactly when the separator occurs. */
  lemma SplitCount(s: string, sep: string)
    requires sep != []
    ensures |Split(s, sep)| >= 2 <==> Contains(s, sep)
  {
    if Contains(s, sep) {
      SplitSecond(s, sep);
    }
  }

  /** The student number of the captured `xkxf.do` request body. */
  function StudentCodeOf(payload: string): Option<string>
  {
    Extract(payload, "xh=")
  }

  /** The elective batch code of the captured `xkxf.do` request body. */
  function BatchCodeOf(payload: string): Option<string>
  {
    Extract(payload, "xklcdm=")
  }

  /**
   * A field written into a form body is cut back out: the marker's first
   * occurrence is the field's, and its value ends at the `&` that follows.
   */
  lemma ExtractField(pre: string, marker: string, v: string, post: string)
    requires marker != [] && BorderFree(marker) && forall i :: 0 <= i < |marker| ==> marker[i] != '&'
    requires !Contains(pre, marker) && !Contains(v, "&") && !Contains(v, marker)
    ensures Extract(pre + marker + v + "&" + post, marker) == Some(v)
  {
    var t := v + "&" + post;
    var s := pre + marker + t;
    assert s == pre + marker + v + "&" + post;
    FindAfter(pre, marker, t);
    assert s[|pre| + |marker|..] == t;
    var r := Extract(s, marker).value;
    ValueEndsAtAmpersand(v, post, marker, r);
  }

  /** In `v + "&" + post`, a prefix with the properties of an extracted value is `v` itself. */
  lemma ValueEndsAtAmpersand(v: string, post: string, marker: string, r: string)
    requires marker != [] && forall i :: 0 <= i < |marker| ==> marker[i] != '&'
    requires !Contains(v, "&") && !Contains(v, marker)
    requires var t := v + "&" + post;
      |r| <= |t| && t[..|r|] == r && !Contains(r, "&") &&
      (|r| == |t| || OccursAt(t, "&", |r|) || OccursAt(t, marker, |r|))
    ensures r == v
  {
    var t := v + "&" + post;
    forall i | 0 <= i < |r| ensures t[i] != '&' {
      assert !OccursAt(r, "&", i);
      assert r[i] == t[i];
    }
    assert t[|v|] == '&';
    assert |r| <= |v|;
    forall i | 0 <= i < |v| ensures !OccursAt(t, "&", i) && !OccursAt(t, marker, i) {
      assert !OccursAt(v, "&", i);
      assert v[i] == t[i];
      if i + |marker| <= |v| {
        assert !OccursAt(v, marker, i);
        assert v[i..i + |marker|] == t[i..i + |marker|];
      } else {
        assert t[|v|] != marker[|v| - i];
      }
    }
    assert |r| >= |v|;
    assert r == t[..|v|];
  }

  /** The markers `"xh="` and `"xklcdm="` qualify for `ExtractField`. */
  lemma CodeMarkers()
    ensures BorderFree("xh=") && BorderFree("xklcdm=")
    ensures forall i :: 0 <= i < |"xh="| ==> "xh="[i] != '&'
    ensures forall i :: 0 <= i < |"xklcdm="| ==> "xklcdm="[i] != '&'
  {
    BorderFreeIfHeadUnique("xh=");
    BorderFreeIfHeadUnique("xklcdm=");
  }

  /** One record of `parse_course_data`: the form to post and the two values its display name shows. */
  datatype Course = Course(classData: Form, classId: Value, classType: Value)

  /** The lines of `raw`, each stripped of surrounding spaces, blank ones dropped. */
  function Lines(raw: string): (r: seq<string>)
    ensures forall i :: 0 <= i < |r| ==> r[i] != ""
  {
    NonBlank(Split(raw, "\n"))
  }

  function NonBlank(pieces: seq<string>): (r: seq<string>)
    ensures |r| <= |pieces|
    ensures forall i :: 0 <= i < |r| ==> r[i] != ""
  {
    if pieces == [] then []
    else
      var t := Strip(pieces[0]);
      (if t == "" then [] else [t]) + NonBlank(pieces[1..])
  }

  /** Lines that are already trimmed and not blank are read back one for one. */
  lemma {:induction false} NonBlankKeeps(ls: seq<string>)
    requires forall i :: 0 <= i < |ls| ==> ls[i] != "" && Bare(ls[i], IsSpace)
    ensures NonBlank(ls) == ls
  {
    if ls != [] {
      StripNothing(ls[0], IsSpace);
      NonBlankKeeps(ls[1..]);
    }
  }

  /** Splitting lines joined by newlines gives them back. */
  lemma SplitLines(ls: seq<string>)
    requires ls != [] && forall i :: 0 <= i < |ls| ==> !Contains(ls[i], "\n")
    ensures Split(Join(ls, "\n"), "\n") == ls
  {
    BorderFreeIfHeadUnique("\n");
    SplitJoin(ls, "\n");
  }

  /** Trimmed, non-blank lines without newlines, joined by newlines, are read back one for one. */
  lemma LinesRoundTrip(ls: seq<string>)
    requires forall i :: 0 <= i < |ls| ==> ls[i] != "" && Bare(ls[i], IsSpace) && !Contains(ls[i], "\n")
    ensures Lines(Join(ls, "\n")) == ls
  {
    if ls == [] {
      assert Split("", "\n") == [""];
    } else {
      SplitLines(ls);
      NonBlankKeeps(ls);
    }
  }

  const PrefixColon: string := "addParam:"
  const PrefixEquals: string := "addParam="

  predicate HasPrefix(line: string)
  {
    StartsWith(line, PrefixColon) || StartsWith(line, PrefixEquals)
  }

  /** The JSON text of a line as core.py:103-104 cuts it: after the first space, trimmed. */
  function ParamText(line: string): string
  {
    if HasPrefix(line) then
      var parts := SplitOnce(line, " ");
      Strip(parts[|parts| - 1])
    else line
  }

  /** The JSON text as the prefix test evidently means it: the nine-character prefix dropped, trimmed. */
  function ParamTextIntended(line: string): string
  {
    if HasPrefix(line) then Strip(line[|PrefixColon|..]) else line
  }

  /** The JSON text has a `data` object holding `teachingClassId` and `teachingClassType`. */
  predicate HasClassFields(text: string, decode: string -> Option<Value>)
  {
    decode(text).Some? &&
    var data := Get(decode(text).value, "data");
    data.Some? && Get(data.value, "teachingClassId").Some? && Get(data.value, "teachingClassType").Some?
  }

  /**
   * A JSON text with a `data` object holding `teachingClassId` and
   * `teachingClassType` makes a record, and no other text does.
   */
  function CourseOf(text: string, decode: string -> Option<Value>): (r: Option<Course>)
    ensures r.Some? <==> HasClassFields(text, decode)
    ensures r.Some? ==> r.value.classData == map["addParam" := text]
    ensures r.Some? ==> var data := Get(decode(text).value, "data").value;
      Get(data, "teachingClassId") == Some(r.value.classId) &&
      Get(data, "teachingClassType") == Some(r.value.classType)
  {
    match decode(text)
    case None => None
    case Some(v) =>
      var data := Get(v, "data");
      if data.None? then None
      else
        var id := Get(data.value, "teachingClassId");
        var kind := Get(data.value, "teachingClassType");
        if id.None? || kind.None? then None
        else Some(Course(map["addParam" := text], id.value, kind.value))
  }

  /** One line of `parse_course_data`, as written. */
  function ParseLine(line: string, decode: string -> Option<Value>): Option<Course>
  {
    CourseOf(ParamText(line), decode)
  }

  /** One line with the prefix removed as intended. */
  function ParseLineIntended(line: string, decode: string -> Option<Value>): Option<Course>
  {
    CourseOf(ParamTextIntended(line), decode)
  }

  /**
   * The outcome of `parse_course_data` on trimmed lines: the records in order,
   * or the index of the line that raised.
   */
  function ParseAll(lines: seq<string>, parse: string -> Option<Course>): Result<seq<Course>, nat>
  {
    if lines == [] then Ok([])
    else
      match ParseAll(lines[..|lines| - 1], parse)
      case Err(k) => Err(k)
      case Ok(courses) =>
        match parse(lines[|lines| - 1])
        case None => Err(|lines| - 1)
        case Some(c) => Ok(courses + [c])
  }

  /** One more line extends the outcome on the lines before it. */
  lemma ParseAllSnoc(lines: seq<string>, i: nat, parse: string -> Option<Course>)
    requires i < |lines|
    ensures ParseAll(lines[..i + 1], parse) ==
      match ParseAll(lines[..i], parse)
      case Err(k) => Err(k)
      case Ok(courses) =>
        match parse(lines[i])
        case None => Err(i)
        case Some(c) => Ok(courses + [c])
  {
    assert lines[..i + 1][..i] == lines[..i];
  }

  /** A failure on a first part of the lines is the failure of all of them. */
  lemma {:induction false} ParseAllErrSticks(lines: seq<string>, n: nat, parse: string -> Option<Course>)
    requires n <= |lines| && ParseAll(lines[..n], parse).Err?
    ensures ParseAll(lines, parse) == ParseAll(lines[..n], parse)
    decreases |lines| - n
  {
    if n < |lines| {
      ParseAllSnoc(lines, n, parse);
      ParseAllErrSticks(lines, n + 1, parse);
    } else {
      assert lines[..n] == lines;
    }
  }

  /** A success holds one record per line, in order, each the line's own parse. */
  lemma {:induction false} ParseAllOk(lines: seq<string>, parse: string -> Option<Course>)
    requires ParseAll(lines, parse).Ok?
    ensures |ParseAll(lines, parse).value| == |lines|
    ensures forall i :: 0 <= i < |lines| ==> parse(lines[i]) == Some(ParseAll(lines, parse).value[i])
    decreases |lines|
  {
    if lines != [] {
      var init := lines[..|lines| - 1];
      ParseAllOk(init, parse);
      assert forall i :: 0 <= i < |init| ==> init[i] == lines[i];
    }
  }

  /** A failure names a line that does not parse, after lines that all do. */
  lemma {:induction false} ParseAllErr(lines: seq<string>, parse: string -> Option<Course>)
    requires ParseAll(lines, parse).Err?
    ensures ParseAll(lines, parse).error < |lines|
    ensures parse(lines[ParseAll(lines, parse).error]).None?
    ensures forall k :: 0 <= k < ParseAll(lines, parse).error ==> parse(lines[k]).Some?
    decreases |lines|
  {
    var init := lines[..|lines| - 1];
    if ParseAll(init, parse).Err? {
      ParseAllErr(init, parse);
      assert forall i :: 0 <= i < |init| ==> init[i] == lines[i];
    } else {
      ParseAllOk(init, parse);
      assert forall i :: 0 <= i < |init| ==> init[i] == lines[i];
    }
  }

  /** The outcome is a success exactly when every line parses. */
  lemma ParseAllOkIff(lines: seq<string>, parse: string -> Option<Course>)
    ensures ParseAll(lines, parse).Ok? <==> forall i :: 0 <= i < |lines| ==> parse(lines[i]).Some?
  {
    if ParseAll(lines, parse).Ok? {
      ParseAllOk(lines, parse);
    } else {
      ParseAllErr(lines, parse);
    }
  }

  /**
   * `JNUCourseSnatcher.parse_course_data`: the non-blank lines parsed one after
   * the other, stopping at the first that raises.
   */
  method ParseCourseData(raw: string, decode: string -> Option<Value>) returns (r: Result<seq<Course>, nat>)
    ensures r == ParseAll(Lines(raw), line => ParseLine(line, decode))
  {
    ghost var parse := line => ParseLine(line, decode);
    var lines := Lines(raw);
    var courseList: seq<Course> := [];
    for i := 0 to |lines|
      invariant ParseAll(lines[..i], parse) == Ok(courseList)
    {
      ParseAllSnoc(lines, i, parse);
      var paramStr := ParamText(lines[i]);
      var course := CourseOf(paramStr, decode);
      assert course == parse(lines[i]);
      if course.None? {
        ParseAllErrSticks(lines, i + 1, parse);
        return Err(i);
      }
      courseList := courseList + [course.value];
    }
    assert lines[..|lines|] == lines;
    r := Ok(courseList);
  }

  /** The record a generated payload's JSON makes. */
  function GeneratedCourse(studentCode: string, batchCode: string, classId: string, campus: string): Course
  {
    Course(AddParamForm(studentCode, batchCode, classId, campus), Str(classId), Str(DefaultTeachingClassType))
  }

  /** A payload written by the generator, pasted as a line, parses back to that payload. */
  lemma ParseGeneratedLine(studentCode: string, batchCode: string, classId: string, campus: string)
    requires Plain(studentCode) && Plain(batchCode) && Plain(classId) && Plain(campus)
    ensures ParseLine(Encode(AddParam(studentCode, batchCode, classId, campus)), Decode) ==
      Some(GeneratedCourse(studentCode, batchCode, classId, campus))
  {
    var text := Encode(AddParam(studentCode, batchCode, classId, campus));
    assert AddParamForm(studentCode, batchCode, classId, campus)["addParam"] == text;
    AddParamReadBack(studentCode, batchCode, classId, campus);
    AddParamFields(studentCode, batchCode, classId, campus);
    AddParamDataFields(studentCode, batchCode, classId, campus);
    AddParamDataConstants(studentCode, batchCode, classId, campus);
    assert text[0] == '{';
    assert !StartsWith(text, PrefixColon) && !StartsWith(text, PrefixEquals) by {
      assert PrefixColon[0] == 'a' && PrefixEquals[0] == 'a';
    }
  }

  /** A JSON text cannot begin with the letter `a`, so the whole-line fallback of the prefix cut is rejected. */
  lemma DecodeRejectsPrefixed(text: string)
    ensures Decode(PrefixEquals + text) == None
  {
    assert (PrefixEquals + text)[0] == 'a';
  }

  lemma NoSpaceInPrefixes()
    ensures !Contains(PrefixColon, " ") && !Contains(PrefixEquals, " ")
  {
    forall j: nat ensures !OccursAt(PrefixColon, " ", j) && !OccursAt(PrefixEquals, " ", j) {
      if j < |PrefixColon| {
        assert PrefixColon[j..j + 1][0] == PrefixColon[j] != ' ';
        assert PrefixEquals[j..j + 1][0] == PrefixEquals[j] != ' ';
      }
    }
  }

  /** Behind `addParam: ` (colon and space) the line as written is read as the text after the space. */
  lemma ParseColonSpaceLine(text: string, decode: string -> Option<Value>)
    requires Bare(text, IsSpace)
    ensures ParseLine(PrefixColon + " " + text, decode) == CourseOf(text, decode)
  {
    var line := PrefixColon + " " + text;
    assert StartsWith(line, PrefixColon) by {
      assert line[..|PrefixColon|] == PrefixColon;
    }
    NoSpaceInPrefixes();
    BorderFreeIfHeadUnique(" ");
    FindAfter(PrefixColon, " ", text);
    assert line[|PrefixColon| + 1..] == text;
    assert SplitOnce(line, " ") == [PrefixColon, text];
    StripNothing(text, IsSpace);
  }

  /**
   * Behind `addParam=` with no space in the line (as in a form body), the code
   * as written feeds the whole line, prefix included, to the JSON parser, which
   * rejects it.
   */
  lemma EqualsPrefixRejected(text: string)
    requires text != [] && !Contains(text, " ") && Bare(text, IsSpace)
    ensures ParseLine(PrefixEquals + text, Decode) == None
  {
    var line := PrefixEquals + text;
    assert StartsWith(line, PrefixEquals) by {
      assert line[..|PrefixEquals|] == PrefixEquals;
    }
    NoSpaceInPrefixes();
    CharFreeConcat(PrefixEquals, text, ' ');
    assert Bare(line, IsSpace) by {
      assert line[0] == 'a' && line[|line| - 1] == text[|text| - 1];
    }
    ParamTextUnsplit(line);
    DecodeRejectsPrefixed(text);
  }

  /** A prefixed line without a space is kept whole by the cut as written. */
  lemma ParamTextUnsplit(line: string)
    requires HasPrefix(line) && !Contains(line, " ") && Bare(line, IsSpace)
    ensures ParamText(line) == line
  {
    StripNothing(line, IsSpace);
  }

  /** The intended cut reads a line the same behind either prefix, with or without a space after it. */
  lemma IntendedPrefixTransparent(prefix: string, text: string, decode: string -> Option<Value>)
    requires prefix == PrefixColon || prefix == PrefixEquals || prefix == PrefixColon + " "
    requires text != [] && !HasPrefix(text) && Bare(text, IsSpace)
    ensures ParseLineIntended(prefix + text, decode) == CourseOf(text, decode)
  {
    var line := prefix + text;
    assert line[..9] == prefix[..9];
    StripNothing(text, IsSpace);
    if prefix == PrefixColon + " " {
      assert line[9..] == " " + text;
      assert LStrip(" " + text, IsSpace) == LStrip(text, IsSpace) by {
        assert (" " + text)[1..] == text;
      }
    } else {
      assert line[9..] == text;
    }
  }
}
