/**
 * The state `MainWindow` of gui.py keeps between button presses: the captured
 * request, the headers and the two codes cut from it, the UI state, and the
 * list of class codes to snatch.
 *
 * The list widget is the sequence `courseList`; a selection is the rows the
 * user picked, and the text box is `input`. Message boxes and log lines are
 * left to the returned outcome.
 */
module Window {
  import opened Base
  import opened Strs
  import opened Courses
  import opened Capture

  /** The user agent the window puts into the headers it builds. */
  const WindowUserAgent: string := "Mozilla/5.0 (Windows NT 10.0; Win64; x64) AppleWebKit/537.36 (KHTML, like Gecko) Chrome/137.0.0.0 Safari/537.36"

  /** The argument of `set_ui_state`. */
  datatype UiState = Initial | Sniffing | Sniffed | Snatching

  /** No code is listed twice. */
  predicate NoDup(s: seq<string>)
  {
    forall i, j :: 0 <= i < j < |s| ==> s[i] != s[j]
  }

  /**
   * The headers dictionary `on_data_captured` builds; `None` where looking up
   * `cookie` or `token` in the captured request headers raises `KeyError`.
   */
  function HeadersFrom(requestHeaders: map<string, string>): (r: Option<map<string, string>>)
    ensures r.Some? <==> "cookie" in requestHeaders && "token" in requestHeaders
    ensures r.Some? ==>
      r.value.Keys == {"User-Agent", "cookie", "token"} &&
      r.value["User-Agent"] == WindowUserAgent &&
      r.value["cookie"] == requestHeaders["cookie"] && r.value["token"] == requestHeaders["token"]
  {
    if "cookie" in requestHeaders && "token" in requestHeaders then
      Some(map["User-Agent" := WindowUserAgent, "cookie" := requestHeaders["cookie"], "token" := requestHeaders["token"]])
    else None
  }

  /** What `add_course` does with the text box. */
  datatype Addition = Added | AlreadyListed | EmptyInput

  /** The list after `add_course` with the text `text`. */
  function AddedTo(list: seq<string>, text: string): seq<string>
  {
    var id := Strip(text);
    if id == [] || id in list then list else list + [id]
  }

  /** Adding keeps the list free of duplicates. */
  lemma AddedKeepsNoDup(list: seq<string>, text: string)
    requires NoDup(list)
    ensures NoDup(AddedTo(list, text))
  {
    var id := Strip(text);
    if id != [] && id !in list {
      var r := list + [id];
      forall i, j | 0 <= i < j < |r| ensures r[i] != r[j] {
        if j == |list| {
          assert r[i] == list[i];
        }
      }
    }
  }

  /**
   * A code is listed after adding exactly when it was listed before or it is
   * the trimmed, non-empty text; the old codes keep their places.
   */
  lemma AddedMembers(list: seq<string>, text: string, x: string)
    ensures x in AddedTo(list, text) <==> x in list || (x == Strip(text) && x != [])
    ensures |list| <= |AddedTo(list, text)| <= |list| + 1 && AddedTo(list, text)[..|list|] == list
  {
    assert (list + [Strip(text)])[..|list|] == list;
  }

  /** Adding the same text twice is adding it once. */
  lemma AddedIdempotent(list: seq<string>, text: string)
    ensures AddedTo(AddedTo(list, text), text) == AddedTo(list, text)
  {
    var id := Strip(text);
    if id != [] && id !in list {
      assert (list + [id])[|list|] == id;
    }
  }

  /** The rows `0 .. n-1` not in `drop`, in increasing order. */
  function Survivors(n: nat, drop: set<nat>): (r: seq<nat>)
    ensures forall i :: 0 <= i < |r| ==> r[i] < n && r[i] !in drop
    ensures forall i, j :: 0 <= i < j < |r| ==> r[i] < r[j]
  {
    if n == 0 then [] else Survivors(n - 1, drop) + (if n - 1 in drop then [] else [n - 1])
  }

  lemma {:induction false} SurvivorsMembers(n: nat, drop: set<nat>, x: nat)
    ensures x in Survivors(n, drop) <==> x < n && x !in drop
  {
    if n > 0 {
      SurvivorsMembers(n - 1, drop, x);
    }
  }

  /** A row at or past `n` in `drop` makes no difference. */
  lemma {:induction false} SurvivorsIgnore(n: nat, drop: set<nat>, y: nat)
    requires n <= y
    ensures Survivors(n, drop + {y}) == Survivors(n, drop)
  {
    if n > 0 {
      SurvivorsIgnore(n - 1, drop, y);
    }
  }

  /** Dropping one more surviving row takes exactly it out of the survivors. */
  lemma {:induction false} SurvivorsDrop(n: nat, drop: set<nat>, row: nat)
    requires row < |Survivors(n, drop)|
    ensures var s := Survivors(n, drop);
      Survivors(n, drop + {s[row]}) == s[..row] + s[row + 1..]
  {
    var s := Survivors(n, drop);
    var x := s[row];
    var init := Survivors(n - 1, drop);
    if n - 1 in drop {
      assert s == init;
      SurvivorsDrop(n - 1, drop, row);
    } else if row == |init| {
      assert s == init + [n - 1];
      SurvivorsIgnore(n - 1, drop, n - 1);
      assert s[..row] == init && s[row + 1..] == [];
    } else {
      assert s == init + [n - 1];
      assert init[row] == x && x < n - 1;
      assert Survivors(n, drop + {x}) == Survivors(n - 1, drop + {x}) + [n - 1];
      SurvivorsDrop(n - 1, drop, row);
      CutBeforeLast(init, row, n - 1);
    }
  }

  /** Cutting an element out before the last one keeps the last one last. */
  lemma CutBeforeLast(init: seq<nat>, row: nat, last: nat)
    requires row < |init|
    ensures var s := init + [last];
      s[..row] + s[row + 1..] == (init[..row] + init[row + 1..]) + [last]
  {
    var s := init + [last];
    assert s[..row] == init[..row];
    assert s[row + 1..] == init[row + 1..] + [last];
  }

  /** Every row below `n` is either dropped or survives. */
  lemma {:induction false} SurvivorsLength(n: nat, drop: set<nat>)
    requires forall x :: x in drop ==> x < n
    ensures |Survivors(n, drop)| == n - |drop|
  {
    if n > 0 {
      if n - 1 in drop {
        var rest := drop - {n - 1};
        SurvivorsIgnore(n - 1, rest, n - 1);
        assert rest + {n - 1} == drop;
        SurvivorsLength(n - 1, rest);
      } else {
        SurvivorsLength(n - 1, drop);
      }
    }
  }

  /** The codes at the given rows, in that order. */
  function Pick(list: seq<string>, rows: seq<nat>): (r: seq<string>)
    requires forall i :: 0 <= i < |rows| ==> rows[i] < |list|
    ensures |r| == |rows| && forall i :: 0 <= i < |rows| ==> r[i] == list[rows[i]]
  {
    seq(|rows|, i requires 0 <= i < |rows| => list[rows[i]])
  }

  /** The list after the rows in `drop` have been taken out. */
  function Removed(list: seq<string>, drop: set<nat>): seq<string>
  {
    Pick(list, Survivors(|list|, drop))
  }

  /** Taking out rows that are all in the list shortens it by their number. */
  lemma RemovedLength(list: seq<string>, drop: set<nat>)
    requires forall x :: x in drop ==> x < |list|
    ensures |Removed(list, drop)| == |list| - |drop|
  {
    SurvivorsLength(|list|, drop);
  }

  /** In a list without duplicates, a code survives exactly when its row was not taken out. */
  lemma RemovedMembers(list: seq<string>, drop: set<nat>, row: nat)
    requires NoDup(list) && row < |list|
    ensures list[row] in Removed(list, drop) <==> row !in drop
  {
    var s := Survivors(|list|, drop);
    var r := Removed(list, drop);
    SurvivorsMembers(|list|, drop, row);
    if row !in drop {
      var k :| 0 <= k < |s| && s[k] == row;
      assert r[k] == list[row];
    }
    if list[row] in r {
      var k :| 0 <= k < |r| && r[k] == list[row];
      assert list[s[k]] == list[row];
    }
  }

  /** Taking rows out keeps the list free of duplicates. */
  lemma RemovedKeepsNoDup(list: seq<string>, drop: set<nat>)
    requires NoDup(list)
    ensures NoDup(Removed(list, drop))
  {
    var s := Survivors(|list|, drop);
    var r := Removed(list, drop);
    forall i, j | 0 <= i < j < |r| ensures r[i] != r[j] {
      assert s[i] < s[j];
    }
  }

  /** With nothing dropped every row survives, in order. */
  lemma {:induction false} SurvivorsAll(n: nat)
    ensures |Survivors(n, {})| == n && forall i :: 0 <= i < n ==> Survivors(n, {})[i] == i
  {
    if n > 0 {
      SurvivorsAll(n - 1);
    }
  }

  /** Taking out no row leaves the list as it was. */
  lemma RemovedNothing(list: seq<string>)
    ensures Removed(list, {}) == list
  {
    SurvivorsAll(|list|);
  }

  /** The rows of a selection. */
  function Rows(selected: seq<nat>): set<nat>
  {
    set x | x in selected
  }

  /** The position of `x` in `items`, which is `QListWidget.row` for an item. */
  function RowOf(items: seq<nat>, x: nat): (r: nat)
    requires x in items
    ensures r < |items| && items[r] == x
  {
    if items[0] == x then 0 else 1 + RowOf(items[1..], x)
  }

  /** Taking one row out of the picked rows takes its code out of the picked codes. */
  lemma PickDrop(list: seq<string>, rows: seq<nat>, row: nat)
    requires forall i :: 0 <= i < |rows| ==> rows[i] < |list|
    requires row < |rows|
    ensures Pick(list, rows[..row] + rows[row + 1..]) == Pick(list, rows)[..row] + Pick(list, rows)[row + 1..]
  {
  }

  class MainWindow {
    var captured: Option<Captured>
    var headers: Option<map<string, string>>
    var studentCode: Option<string>
    var batchCode: Option<string>
    var state: UiState
    var input: string
    var courseList: seq<string>

    /** The list widget never shows a code twice. */
    predicate Valid()
      reads this
    {
      NoDup(courseList)
    }

    constructor()
      ensures captured == None && headers == None && studentCode == None && batchCode == None
      ensures state == Initial && input == [] && courseList == []
      ensures Valid()
    {
      captured, headers, studentCode, batchCode := None, None, None, None;
      state := Initial;
      input := [];
      courseList := [];
    }

    /**
     * `on_data_captured`. The headers are stored before the body is looked at,
     * and each code is stored as soon as it is cut out, so a missing marker
     * leaves the headers (and a student code found before it) in place while
     * the state goes back to `Initial`.
     */
    method OnDataCaptured(data: Captured) returns (parsed: bool)
      modifies this`captured, this`headers, this`studentCode, this`batchCode, this`state
      ensures captured == Some(data)
      ensures var h := HeadersFrom(data.requestHeaders);
        headers == (if h.Some? then h else old(headers))
      ensures var h := HeadersFrom(data.requestHeaders);
        var sc := StudentCodeOf(data.requestPayload);
        studentCode == (if h.Some? && sc.Some? then sc else old(studentCode))
      ensures var h := HeadersFrom(data.requestHeaders);
        var sc := StudentCodeOf(data.requestPayload);
        var bc := BatchCodeOf(data.requestPayload);
        batchCode == (if h.Some? && sc.Some? && bc.Some? then bc else old(batchCode))
      ensures parsed <==> (HeadersFrom(data.requestHeaders).Some? &&
        Contains(data.requestPayload, "xh=") && Contains(data.requestPayload, "xklcdm="))
      ensures state == (if parsed then Sniffed else Initial)
    {
      captured := Some(data);
      var h := HeadersFrom(data.requestHeaders);
      if h.None? {
        state := Initial;
        return false;
      }
      headers := h;
      var sc := StudentCodeOf(data.requestPayload);
      if sc.None? {
        state := Initial;
        return false;
      }
      studentCode := sc;
      var bc := BatchCodeOf(data.requestPayload);
      if bc.None? {
        state := Initial;
        return false;
      }
      batchCode := bc;
      state := Sniffed;
      parsed := true;
    }

    /**
     * What the window does when the capture thread ends: `Sniffed` whenever
     * headers are set, even after `OnDataCaptured` went back to `Initial`
     * because a code was missing.
     */
    method SniffingFinished()
      modifies this`state
      ensures state == (if headers.Some? then Sniffed else Initial)
    {
      state := if headers.Some? then Sniffed else Initial;
    }

    /** `add_course`: the text box is cleared unless its trimmed text is empty. */
    method AddCourse() returns (outcome: Addition)
      requires Valid()
      modifies this`courseList, this`input
      ensures Valid()
      ensures courseList == AddedTo(old(courseList), old(input))
      ensures outcome == EmptyInput <==> Strip(old(input)) == []
      ensures outcome == AlreadyListed <==> Strip(old(input)) != [] && Strip(old(input)) in old(courseList)
      ensures input == (if outcome == EmptyInput then old(input) else [])
    {
      AddedKeepsNoDup(courseList, input);
      var courseId := Strip(input);
      if courseId != [] {
        if courseId !in courseList {
          courseList := courseList + [courseId];
          outcome := Added;
        } else {
          outcome := AlreadyListed;
        }
        input := [];
      } else {
        outcome := EmptyInput;
      }
    }

    /**
     * `remove_course`: each selected item is taken out at the row it has at
     * that moment. `selected` lists the selected rows as they were before.
     */
    method RemoveCourse(selected: seq<nat>) returns (errorShown: bool)
      requires Valid()
      requires forall i :: 0 <= i < |selected| ==> selected[i] < |courseList|
      requires forall i, j :: 0 <= i < j < |selected| ==> selected[i] != selected[j]
      modifies this`courseList
      ensures Valid()
      ensures errorShown <==> selected == []
      ensures courseList == Removed(old(courseList), Rows(selected))
    {
      ghost var list0 := courseList;
      RemovedKeepsNoDup(list0, Rows(selected));
      if selected == [] {
        assert Rows(selected) == {};
        RemovedNothing(list0);
        return true;
      }
      var items := Survivors(|courseList|, {});
      assert Rows(selected[..0]) == {};
      RemovedNothing(list0);
      for k := 0 to |selected|
        invariant items == Survivors(|list0|, Rows(selected[..k]))
        invariant courseList == Pick(list0, items)
      {
        var x := selected[k];
        assert selected[..k + 1] == selected[..k] + [x];
        assert Rows(selected[..k + 1]) == Rows(selected[..k]) + {x};
        SurvivorsMembers(|list0|, Rows(selected[..k]), x);
        var row := RowOf(items, x);
        SurvivorsDrop(|list0|, Rows(selected[..k]), row);
        PickDrop(list0, items, row);
        courseList := courseList[..row] + courseList[row + 1..];
        items := items[..row] + items[row + 1..];
      }
      assert selected[..|selected|] == selected;
      errorShown := false;
    }

    /**
     * `start_snatching`: refuses without headers or with an empty list;
     * otherwise switches to `Snatching` and hands the listed codes to a worker.
     */
    method StartSnatching() returns (started: bool, codes: seq<string>)
      modifies this`state
      ensures started <==> headers.Some? && courseList != []
      ensures started ==> codes == courseList && state == Snatching
      ensures !started ==> state == old(state)
    {
      codes := [];
      if headers.None? {
        return false, codes;
      }
      codes := courseList;
      if codes == [] {
        return false, codes;
      }
      state := Snatching;
      started := true;
    }
  }
}
