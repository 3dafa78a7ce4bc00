/** The session state the Electron main process keeps in the static fields of `App`
    (ts/app.ts): the open file, the saved flag, the pending close and quit requests,
    the filter, sort and page options of the segment grid, and the last status
    reply of the backend. Each handler is a function from the session (and the
    answers of dialogs and of the backend) to the new session and the effects it
    causes: requests sent to the backend, messages shown, windows closed. */
module AppSession {
  import opened Wrappers
  import opened Lists

  /** The JSON values that travel in requests and options. */
  datatype Json = JString(str: string) | JNumber(num: int) | JBool(flag: bool) | JList(items: seq<Json>)

  /** A JSON object: a request to the backend, or one of the option objects. */
  type Request = map<string, Json>

  /** The `status` field of a backend reply. The six constants of app.ts get their
      own constructor; any other value (including a missing one) is `Unrecognized`. */
  datatype Status = Success | Loading | Completed | Error | Saving | Processing | Unrecognized(name: string)

  function StatusName(st: Status): string
  {
    match st
    case Success => "Success"
    case Loading => "Loading"
    case Completed => "Completed"
    case Error => "Error"
    case Saving => "Saving"
    case Processing => "Processing"
    case Unrecognized(name) => name
  }

  /** Reads the status string of a reply by comparing it with the constants. */
  function StatusOf(name: string): (st: Status)
    ensures StatusName(st) == name
    ensures st.Unrecognized? <==> name !in {"Success", "Loading", "Completed", "Error", "Saving", "Processing"}
  {
    if name == "Success" then Success
    else if name == "Loading" then Loading
    else if name == "Completed" then Completed
    else if name == "Error" then Error
    else if name == "Saving" then Saving
    else if name == "Processing" then Processing
    else Unrecognized(name)
  }

  /** Reading a status back from its name gives the same status, for every status
      that a reply can carry (an unrecognized value never spells one of the six names). */
  lemma StatusRoundTrip(st: Status)
    requires st.Unrecognized? ==> st.name !in {"Success", "Loading", "Completed", "Error", "Saving", "Processing"}
    ensures StatusOf(StatusName(st)) == st
  {
  }

  /** A backend reply: its status and, for `Error`, the reason. */
  datatype Reply = Reply(status: Status, reason: string)

  /** `App.currentStatus` before any reply arrived: the empty object, whose status is undefined. */
  const NoStatus: Reply := Reply(Unrecognized(""), "")

  datatype Session = Session(
    currentFile: string,
    saved: bool,
    needsName: bool,
    shouldClose: bool,
    shouldQuit: bool,
    filterOptions: Request,
    sortOptions: Request,
    loadOptions: Request,
    currentStatus: Reply,
    fileLanguages: seq<Json>)

  /** The initial values of the static fields: no file, saved, no pending close or
      quit, no filter or sort, the first page of 200 units. */
  const Initial: Session := Session("", true, false, false, false, map[], map[],
                                    map["start" := JNumber(0), "count" := JNumber(200)], NoStatus, [])

  /** What a handler does besides changing the session. */
  datatype Effect =
    | Send(request: Request)          // a request to the backend
    | Message(kind: string, text: string)  // `showMessage`
    | ErrorBox(text: string)          // `dialog.showErrorBox`
    | Log(text: string)               // `console.log`
    | SaveAsDialog                    // `saveAs` opens its dialog
    | CloseMainWindow                 // the application window closes, ending the process

  function Command(name: string): (r: Request)
    ensures r.Keys == {"command"} && r["command"] == JString(name)
  {
    map["command" := JString(name)]
  }

  // ---------------------------------------------------------------------
  // loadSegments

  /** The `getSegments` request of `loadSegments`, or nothing when no file is open.
      `Object.assign` copies the load options, then the filter options, then the
      sort options over `{command: 'getSegments'}`, a later object overriding an
      earlier one on a shared key. */
  function SegmentsRequest(s: Session): (r: Option<Request>)
    ensures r.None? <==> s.currentFile == ""
    ensures r.Some? ==> forall k :: k in r.value <==> k == "command" || k in s.loadOptions || k in s.filterOptions || k in s.sortOptions
    ensures r.Some? ==> forall k :: k in s.sortOptions ==> r.value[k] == s.sortOptions[k]
    ensures r.Some? ==> forall k :: k in s.filterOptions && k !in s.sortOptions ==> r.value[k] == s.filterOptions[k]
    ensures r.Some? ==> forall k :: k in s.loadOptions && k !in s.filterOptions && k !in s.sortOptions ==> r.value[k] == s.loadOptions[k]
    ensures r.Some? && "command" !in s.loadOptions && "command" !in s.filterOptions && "command" !in s.sortOptions
            ==> r.value["command"] == JString("getSegments")
  {
    if s.currentFile == "" then None
    else Some(Command("getSegments") + s.loadOptions + s.filterOptions + s.sortOptions)
  }

  /** `loadSegments` as an effect: the request when a file is open, nothing otherwise. */
  function LoadSegments(s: Session): (r: seq<Effect>)
    ensures s.currentFile == "" <==> r == []
    ensures s.currentFile != "" ==> r == [Send(SegmentsRequest(s).value)]
  {
    match SegmentsRequest(s)
    case None => []
    case Some(req) => [Send(req)]
  }

  // ---------------------------------------------------------------------
  // Filters, sorting and the page cursor

  /** `setFirstPage`: the page cursor goes back to the first unit. */
  function SetFirstPage(s: Session): (r: Session)
    ensures r.loadOptions.Keys == s.loadOptions.Keys + {"start"} && r.loadOptions["start"] == JNumber(0)
    ensures forall k :: k in s.loadOptions && k != "start" ==> r.loadOptions[k] == s.loadOptions[k]
    ensures r.(loadOptions := s.loadOptions) == s
  {
    s.(loadOptions := s.loadOptions["start" := JNumber(0)])
  }

  /** `setFilterOptions`: the filter is stored, the grid goes back to its first page
      and the segments are requested again. */
  function SetFilterOptions(s: Session, filter: Request): (r: (Session, seq<Effect>))
    ensures r.0.filterOptions == filter && r.0.loadOptions == SetFirstPage(s).loadOptions
    ensures r.0.(filterOptions := s.filterOptions, loadOptions := s.loadOptions) == s
    ensures r.1 == LoadSegments(r.0)
  {
    var s' := SetFirstPage(s.(filterOptions := filter));
    (s', LoadSegments(s'))
  }

  /** `clearFilterOptions`: setting the empty filter. */
  function ClearFilterOptions(s: Session): (r: (Session, seq<Effect>))
    ensures r.0.filterOptions == map[] && r.0.loadOptions == SetFirstPage(s).loadOptions
    ensures r == SetFilterOptions(s, map[])
  {
    var s' := SetFirstPage(s.(filterOptions := map[]));
    (s', LoadSegments(s'))
  }

  /** `setSort`: the sort is stored and the segments are requested again; the page
      cursor stays where it was. */
  function SetSort(s: Session, sort: Request): (r: (Session, seq<Effect>))
    ensures r.0 == s.(sortOptions := sort)
    ensures r.0.loadOptions == s.loadOptions
    ensures r.1 == LoadSegments(r.0)
  {
    var s' := s.(sortOptions := sort);
    (s', LoadSegments(s'))
  }

  /** `clearSort`: setting the empty sort. */
  function ClearSort(s: Session): (r: (Session, seq<Effect>))
    ensures r.0.sortOptions == map[] && r.0.loadOptions == s.loadOptions
    ensures r == SetSort(s, map[])
  {
    var s' := s.(sortOptions := map[]);
    (s', LoadSegments(s'))
  }

  /** After a new filter the request asks for the first page, unless the filter or
      the sort itself carries a `start`, and it carries every filter key the sort
      does not override. */
  lemma FilterRequestsFirstPage(s: Session, filter: Request)
    requires s.currentFile != ""
    ensures var r := SetFilterOptions(s, filter);
      && r.1 == [Send(SegmentsRequest(r.0).value)]
      && ("start" !in filter && "start" !in s.sortOptions ==> SegmentsRequest(r.0).value["start"] == JNumber(0))
      && (forall k :: k in filter && k !in s.sortOptions ==> SegmentsRequest(r.0).value[k] == filter[k])
  {
    var r := SetFilterOptions(s, filter);
    assert "start" in r.0.loadOptions;
  }

  /** A new sort asks for the page the grid was on: the request keeps the `start`
      it had before, unless the new sort overrides it. */
  lemma SortKeepsPage(s: Session, sort: Request)
    requires s.currentFile != "" && "start" in s.loadOptions
    requires "start" !in sort && "start" !in s.filterOptions && "start" !in s.sortOptions
    ensures var r := SetSort(s, sort);
      SegmentsRequest(r.0).value["start"] == s.loadOptions["start"] == SegmentsRequest(s).value["start"]
  {
  }

  /** Clearing the filter and then the sort leaves a request made of the load options alone. */
  lemma ClearedRequest(s: Session)
    requires s.currentFile != "" && "command" !in s.loadOptions
    ensures var s1 := ClearFilterOptions(s).0; var s2 := ClearSort(s1).0;
      SegmentsRequest(s2) == Some(Command("getSegments") + SetFirstPage(s).loadOptions)
  {
    var s1 := ClearFilterOptions(s).0;
    var s2 := ClearSort(s1).0;
    assert s2.filterOptions == map[] && s2.sortOptions == map[];
    var base := Command("getSegments") + s2.loadOptions;
    assert base + map[] == base;
    assert base + map[] + map[] == base;
  }

  // ---------------------------------------------------------------------
  // saveFile, saveAs

  /** `saveFile` up to its request: nothing without a file, the save-as dialog for
      a file that still needs a name, otherwise the `saveFile` request for the
      current file (its replies are followed by the save poll). */
  function SaveFile(s: Session): (r: seq<Effect>)
    ensures s.currentFile == "" ==> r == []
    ensures s.currentFile != "" && s.needsName ==> r == [SaveAsDialog]
    ensures s.currentFile != "" && !s.needsName ==>
              (|r| == 1 && r[0].Send? && "command" in r[0].request && "file" in r[0].request
               && r[0].request["command"] == JString("saveFile") && r[0].request["file"] == JString(s.currentFile))
  {
    if s.currentFile == "" then []
    else if s.needsName then [SaveAsDialog]
    else [Send(map["command" := JString("saveFile"), "file" := JString(s.currentFile)])]
  }

  /** `saveAs` once its dialog answered with `chosen` (None when cancelled): the
      file takes the chosen name and is saved under it; the saved flag is set as
      soon as the save is requested. */
  function SaveAs(s: Session, chosen: Option<string>): (r: (Session, seq<Effect>))
    ensures chosen.None? ==> r == (s, [])
    ensures chosen.Some? ==> r.0 == s.(currentFile := chosen.value, needsName := false, saved := true)
    ensures chosen.Some? && chosen.value != "" ==> |r.1| == 1 && r.1[0].Send? && "file" in r.1[0].request && r.1[0].request["file"] == JString(chosen.value)
  {
    match chosen
    case None => (s, [])
    case Some(path) =>
      var named := s.(currentFile := path, needsName := false);
      (named.(saved := true), SaveFile(named))
  }

  // ---------------------------------------------------------------------
  // close, closeFile: the unsaved-changes prompt

  /** The buttons of the unsaved-changes prompt, by index. */
  const DontSave: int := 0
  const Cancel: int := 1
  const SaveButton: int := 2

  /** `close`: with unsaved changes in an open file, the prompt decides: "Don't Save"
      closes, "Cancel" keeps everything, "Save" records the quit request and saves
      (the save poll closes the window once the save completes). `clicked` is the
      index the prompt returned; any other value closes as "Don't Save" without
      touching the flag. */
  function Close(s: Session, clicked: int): (r: (Session, seq<Effect>))
    ensures s.currentFile == "" || s.saved ==> r == (s, [CloseMainWindow])
    ensures s.currentFile != "" && !s.saved && clicked == Cancel ==> r == (s, [])
    ensures s.currentFile != "" && !s.saved && clicked == SaveButton
            ==> r.0 == s.(shouldQuit := true) && CloseMainWindow !in r.1 && r.1 == SaveFile(s)
    ensures s.currentFile != "" && !s.saved && clicked == DontSave ==> r == (s.(saved := true), [CloseMainWindow])
    ensures CloseMainWindow in r.1 <==> !(s.currentFile != "" && !s.saved && (clicked == Cancel || clicked == SaveButton))
  {
    if s.currentFile != "" && !s.saved then
      var s1 := if clicked == DontSave then s.(saved := true) else s;
      if clicked == Cancel then (s1, [])
      else if clicked == SaveButton then (s1.(shouldQuit := true), SaveFile(s1))
      else (s1, [CloseMainWindow])
    else (s, [CloseMainWindow])
  }

  /** The answer to the `closeFile` request: `Success` closes the file; any other
      status shows its reason; a transport failure shows the failure. */
  function CloseFileReply(s: Session, reply: Result<Reply>): (r: (Session, seq<Effect>))
    ensures reply.Ok? && reply.value.status == Success ==> r == (s.(currentFile := "", saved := true), [])
    ensures reply.Ok? && reply.value.status != Success ==> r == (s, [Message("error", reply.value.reason)])
    ensures reply.Err? ==> r == (s, [Message("error", reply.message)])
  {
    match reply
    case Err(reason) => (s, [Message("error", reason)])
    case Ok(data) =>
      if data.status == Success then (s.(currentFile := "", saved := true), [])
      else (s, [Message("error", data.reason)])
  }

  /** `closeFile`: nothing without an open file; with unsaved changes the prompt
      decides as in `close`, "Save" recording the close request and saving;
      otherwise the `closeFile` request is sent and `reply` is its answer. */
  function CloseFile(s: Session, clicked: int, reply: Result<Reply>): (r: (Session, seq<Effect>))
    ensures s.currentFile == "" ==> r == (s, [])
    ensures s.currentFile != "" && !s.saved && clicked == Cancel ==> r == (s, [])
    ensures s.currentFile != "" && !s.saved && clicked == SaveButton ==> r == (s.(shouldClose := true), SaveFile(s))
    ensures s.currentFile != "" && (s.saved || clicked !in {Cancel, SaveButton}) ==>
      var asked := if !s.saved && clicked == DontSave then s.(saved := true) else s;
      var answered := CloseFileReply(asked, reply);
      r == (answered.0, [Send(Command("closeFile"))] + answered.1)
  {
    if s.currentFile == "" then (s, [])
    else
      var s1 := if !s.saved && clicked == DontSave then s.(saved := true) else s;
      if !s.saved && clicked == Cancel then (s1, [])
      else if !s.saved && clicked == SaveButton then (s1.(shouldClose := true), SaveFile(s1))
      else
        var answered := CloseFileReply(s1, reply);
        (answered.0, [Send(Command("closeFile"))] + answered.1)
  }

  /** Closing the file with a successful answer leaves no file open and nothing
      unsaved, whatever was saved before, unless the user cancelled or chose to save first. */
  lemma CloseFileSucceeds(s: Session, clicked: int, data: Reply)
    requires s.currentFile != "" && data.status == Success
    requires s.saved || clicked !in {Cancel, SaveButton}
    ensures CloseFile(s, clicked, Ok(data)).0.currentFile == ""
    ensures CloseFile(s, clicked, Ok(data)).0.saved
  {
  }

  /** A cancelled prompt changes nothing, for close and closeFile alike. */
  lemma CancelChangesNothing(s: Session, reply: Result<Reply>)
    requires s.currentFile != "" && !s.saved
    ensures Close(s, Cancel).0 == s && CloseFile(s, Cancel, reply).0 == s
    ensures Close(s, Cancel).1 == [] && CloseFile(s, Cancel, reply).1 == []
  {
  }

  // ---------------------------------------------------------------------
  // deleteUnits and the consolidate guard

  /** `deleteUnits` with the selected ids and the answer of the backend: without a
      file or without a selection only a warning is shown; a `Success` answer
      refreshes the languages, the count and the grid and marks the file unsaved. */
  function DeleteUnits(s: Session, selected: seq<string>, reply: Result<Reply>): (r: (Session, seq<Effect>))
    ensures s.currentFile == "" ==> r == (s, [Message("warning", "Open a TMX file")])
    ensures s.currentFile != "" && selected == [] ==> r == (s, [Message("warning", "Select units")])
    ensures r.0 != s ==> s.currentFile != "" && selected != [] && reply.Ok? && reply.value.status == Success
    ensures r.0 == s || r.0 == s.(saved := false)
    ensures s.currentFile != "" && selected != [] ==>
              (|r.1| >= 1 && r.1[0].Send? && "command" in r.1[0].request && "selected" in r.1[0].request
               && r.1[0].request["command"] == JString("deleteUnits")
               && r.1[0].request["selected"] == JList(Strings(selected)))
  {
    if s.currentFile == "" then (s, [Message("warning", "Open a TMX file")])
    else if selected == [] then (s, [Message("warning", "Select units")])
    else
      var request := Send(map["command" := JString("deleteUnits"), "selected" := JList(Strings(selected))]);
      match reply
      case Err(reason) => (s, [request, Message("error", reason)])
      case Ok(data) =>
        if data.status == Success then
          var s' := s.(saved := false);
          // getFileLanguages, getCount and loadSegments, in this order; the grid
          // request is built while the saved flag is still the old one, which it does not read
          (s', [request, Send(Command("getLanguages")), Send(Command("getCount"))] + LoadSegments(s))
        else (s, [request, Message("error", data.reason)])
  }

  function Strings(xs: seq<string>): (r: seq<Json>)
    ensures |r| == |xs| && forall i :: 0 <= i < |xs| ==> r[i] == JString(xs[i])
  {
    if xs == [] then [] else [JString(xs[0])] + Strings(xs[1..])
  }

  /** `showConsolidateUnits`: the dialog opens only for an open file with at least
      three languages. */
  function ConsolidateGuard(s: Session): (r: Option<Effect>)
    ensures r.None? <==> s.currentFile != "" && |s.fileLanguages| >= 3
    ensures s.currentFile == "" ==> r == Some(Message("warning", "Open a TMX file"))
  {
    if s.currentFile == "" then Some(Message("warning", "Open a TMX file"))
    else if |s.fileLanguages| < 3 then Some(Message("warning", "File must have at least 3 languages"))
    else None
  }

  // ---------------------------------------------------------------------
  // destroyWindow

  /** A window and the window it was opened from, if any. */
  datatype Window = Window(id: int, parent: Option<int>)

  /** `destroyWindow`: a live window is destroyed and the focus returns to its parent,
      or to the main window when it has none; an absent window changes nothing. */
  function DestroyWindow(live: set<int>, window: Option<Window>, main: int): (r: (set<int>, Option<int>))
    ensures window.None? ==> r == (live, None)
    ensures window.Some? ==> r.0 == live - {window.value.id}
    ensures window.Some? ==> r.1 == Some(if window.value.parent.Some? then window.value.parent.value else main)
  {
    match window
    case None => (live, None)
    case Some(w) => (live - {w.id}, Some(if w.parent.Some? then w.parent.value else main))
  }

  /** A dialog opened from the main window gives the focus back to it. */
  lemma DialogReturnsFocus(live: set<int>, id: int, main: int)
    requires id != main && main in live
    ensures DestroyWindow(live, Some(Window(id, Some(main))), main).1 == Some(main)
    ensures main in DestroyWindow(live, Some(Window(id, Some(main))), main).0
  {
  }

  // ---------------------------------------------------------------------
  // saveRecent

  /** The most files the recent list keeps. */
  const MaxRecent: nat := 8

  /** `saveRecent`'s list: the other files, filtered in their order, behind `file`,
      and at most eight entries. */
  function RecentFiles(files: seq<string>, file: string): (r: seq<string>)
    ensures 1 <= |r| <= MaxRecent
    ensures r[0] == file
    ensures file !in r[1..]
    ensures |r| - 1 <= |Without(files, {file})| && r[1..] == Without(files, {file})[..|r| - 1]
  {
    var others := Without(files, {file});
    var listed := [file] + others;
    if |listed| > MaxRecent then listed[..MaxRecent] else listed
  }

  /** The new entry appears exactly once, and the other entries keep their order:
      they form a subsequence of the old list. */
  lemma RecentFilesOnce(files: seq<string>, file: string)
    ensures multiset(RecentFiles(files, file))[file] == 1
    ensures Subsequence(RecentFiles(files, file)[1..], files)
  {
    var r := RecentFiles(files, file);
    assert r == [r[0]] + r[1..];
    assert multiset(r[1..])[file] == 0;
    var others := Without(files, {file});
    WithoutIsSubsequence(files, {file});
    PrefixSubsequence(others, |r| - 1, files);
  }

  /** A prefix of a subsequence is a subsequence. */
  lemma {:induction false} PrefixSubsequence<T>(r: seq<T>, n: nat, s: seq<T>)
    requires n <= |r| && Subsequence(r, s)
    ensures Subsequence(r[..n], s)
    decreases |s|
  {
    if n > 0 {
      if r[0] == s[0] {
        PrefixSubsequence(r[1..], n - 1, s[1..]);
        assert r[..n][1..] == r[1..][..n - 1];
      } else {
        PrefixSubsequence(r, n, s[1..]);
      }
    }
  }

  /** Opening the first file of the list again leaves a list without duplicates as it was. */
  lemma RecentFilesReopenFirst(files: seq<string>)
    requires 1 <= |files| <= MaxRecent && Distinct(files)
    ensures RecentFiles(files, files[0]) == files
  {
    var file := files[0];
    assert file !in files[1..] by {
      forall j | 1 <= j < |files| ensures files[j] != file { }
    }
    assert files == [file] + files[1..];
    WithoutNothing(files[1..], {file});
    assert Without(files, {file}) == Without(files[1..], {file});
  }
}
