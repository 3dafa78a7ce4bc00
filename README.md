# TMXEditor core, modelled in Dafny

TMXEditor is a desktop editor for TMX translation memories. Its Electron main
process (`ts/app.ts`) sends commands to a Java server. It keeps the session in
static fields: the open file, the saved flag, pending close and quit requests,
filter, sort and page options, and the last status reply. Every long operation
polls the server every 500 ms until the stored status is terminal. The server
keeps the open memory in `SimpleStore`. This is a table of units, their insertion
order, a sorted language set and one id -> tuv map per language. `TmxUtils` holds
the string helpers. `ts/properties.ts` is the property editor dialog.

The project models these four parts:

- `AppSession` (app_session.dfy): the session is a `Session` record, and each
  handler is a function from the session (and the answers of dialogs and of the
  server) to the new session and its effects. It covers `loadSegments`, filter,
  sort and page changes, `saveFile`/`saveAs`, `close`/`closeFile`, `deleteUnits`,
  the consolidate guard, `destroyWindow` and the `saveRecent` list.
- `AppPolling` (app_polling.dfy): the sixteen polled operations as one `Family`
  datatype. `Tick` is the interval callback over the stored status. `Run` is the
  poll over a finite sequence of progress answers. `Poll` is the same poll as a
  `while` loop, proved equal to `Run`.
- `SimpleStore` (simple_store.dfy): the store as a `class` whose methods update
  `tus`, `order`, `languages`, `maps`, `discarded`, `processed` and `exported` in place. Each
  method is proved against specification functions in `StoreModel`
  (store_model.dfy), `Duplicates` (duplicates.dfy) and `Delimited`
  (delimited.dfy). The consistency invariant is `StoreModel.Consistent`.
- `TmxUtils` (tmx_utils.dfy): the escaping round trip, `cleanLines`, case-sensitive
  `highlight`, `textOnly`, `replaceTags`, `getTail` and `tmxDate`.
- `PropertyList` (properties.dfy): the property dialog as a `class` with its
  `props` list.

Helper modules: `Wrappers` (Option, Result), `Strings` (Java's `String.replace`,
`indexOf`, decimal conversion, the `TreeSet<String>` order by code point, `isBlank`), `Lists`
and `Xml`. In `Xml`, elements are plain values compared by equality.

Some inputs become parameters:
- Server replies and transport failures become `Result<Reply>` values.
- Dialog answers become integers or `Option`s.
- The clock becomes `CalendarFields`, or the `now` seed of the store.
- `TmxUtils.pureText` becomes a `render` function parameter.

## Model

| member | source | states |
|---|---|---|
| AppSession.StatusOf | ts/app.ts:1240-1273 | Only the six status constants are recognised, and any other string is `Unrecognized`. Reading a status back gives the same name. |
| AppSession.StatusRoundTrip | ts/app.ts:1240-1273 | Every status a reply can carry reads back from its own name. |
| AppSession.SegmentsRequest | ts/app.ts:1366-1375 | With no file open there is no request. Otherwise the keys are `command` plus the load, filter and sort keys. Sort beats filter, filter beats load, and `command` is `getSegments` unless an option overrides it. |
| AppSession.LoadSegments | ts/app.ts:1366-1375 | `loadSegments` sends nothing exactly when `currentFile` is empty, and otherwise sends the merged request. |
| AppSession.SetFirstPage | ts/app.ts:2906-2909 | `start` becomes 0, other load options and the rest of the session are kept. |
| AppSession.SetFilterOptions | ts/app.ts:2898-2904 | The filter is stored and `start` is reset to 0. Nothing else changes, and the grid is requested again. |
| AppSession.ClearFilterOptions | ts/app.ts:2911-2917 | Clearing is setting the empty filter, which also resets `start`. |
| AppSession.SetSort | ts/app.ts:2855-2860 | Only `sortOptions` changes. The load options, and so the page cursor, are untouched. |
| AppSession.ClearSort | ts/app.ts:2862-2867 | Clearing is setting the empty sort, and the load options are untouched. |
| AppSession.FilterRequestsFirstPage | ts/app.ts:2898-2917 | The request that follows a new filter asks for `start` 0 unless the filter or sort carries a `start`. It carries every filter key the sort does not override. |
| AppSession.SortKeepsPage | ts/app.ts:2855-2867 | After a new sort the request keeps the `start` it had before. |
| AppSession.ClearedRequest | ts/app.ts:2862-2917 | After clearing the filter and the sort, the request is made of `getSegments` and the first-page load options only. |
| AppSession.SaveFile | ts/app.ts:1794-1802 | With no file it does nothing. A file that needs a name opens the save-as dialog. Otherwise it sends `saveFile` with the current file. |
| AppSession.SaveAs | ts/app.ts:1858-1875 | A cancelled dialog changes nothing. A chosen path becomes the current file, clears `needsName`, sets `saved` and is saved under that name. |
| AppSession.Close | ts/app.ts:984-1007 | With no unsaved changes the window closes. Otherwise "Cancel" changes nothing, "Save" records `shouldQuit` and saves without closing, and "Don't Save" sets `saved` and closes. The window closes exactly when neither Cancel nor Save was chosen. |
| AppSession.CloseFileReply | ts/app.ts:1321-1338 | A `Success` answer clears `currentFile` and sets `saved`. Any other status, or a transport failure, shows its reason and changes nothing. |
| AppSession.CloseFile | ts/app.ts:1294-1339 | No-op with no file open. "Cancel" changes nothing. "Save" sets `shouldClose` and defers to `saveFile`. Otherwise `closeFile` is sent and its answer applied. |
| AppSession.CloseFileSucceeds | ts/app.ts:1294-1330 | A successful close leaves no file open and nothing unsaved. |
| AppSession.CancelChangesNothing | ts/app.ts:1298-1312 | Cancelling the unsaved-changes prompt changes neither the session nor the effects, for both `close` and `closeFile`. |
| AppSession.DeleteUnits | ts/app.ts:2944-2970 | Without a file or a selection only a warning is shown. Otherwise `deleteUnits` is sent with the selection, and only a `Success` answer marks the file unsaved. |
| AppSession.ConsolidateGuard | ts/app.ts:3529-3537 | The dialog opens exactly for an open file with at least three languages. |
| AppSession.DestroyWindow | ts/app.ts:726-742 | A window is destroyed and the focus goes to its parent, or to the main window when it has none. An absent window changes nothing. |
| AppSession.DialogReturnsFocus | ts/app.ts:726-742 | A dialog opened from the main window gives the focus back to it, and the main window stays. |
| AppSession.RecentFiles | ts/app.ts:1446-1452 | The new list starts with `file`, has 1 to 8 entries and does not repeat `file`. The rest is a prefix of the old list without `file`. |
| AppSession.RecentFilesOnce | ts/app.ts:1446-1452 | `file` occurs exactly once, and the other entries are a subsequence of the old list, so they keep their relative order. |
| AppSession.RecentFilesReopenFirst | ts/app.ts:1446-1452 | Reopening the first file of a duplicate-free list of at most 8 entries leaves the list as it was. |
| AppPolling.KeepWaiting | ts/app.ts:1252-1266 | `Success` is waited through by every family and an unrecognized status by none. `Processing` is waited through exactly outside open, save, export, validate and clean. |
| AppPolling.QueryFailure | ts/app.ts:2327-2336 | A failed progress query is shown as an error (export, validate and clean only) or logged, carrying its reason. |
| AppPolling.UnknownStatus | ts/app.ts:1267-1272 | An unknown status is reported as an error message for merge, replace and change-language, and in an error box for every other family. |
| AppPolling.TickOutcomes | ts/app.ts:1238-1274 | A tick completes exactly on `Completed`, waits exactly on a keep-waiting status, and fails with the reply's reason exactly on `Error`. Any other status is `Unknown`. Only completion changes the session. |
| AppPolling.Answer | ts/app.ts:1283-1291 | A progress reply becomes `currentStatus`, and a failed query leaves the session as it was. |
| AppPolling.AnswerEffects | ts/app.ts:1847-1855 | A failed query yields exactly one report, and a reply yields none. |
| AppPolling.PollSpec | ts/app.ts:1234-1281 | A failed command shows its reason and starts no poll. An accepted one stores the acknowledgement and polls from it. |
| AppPolling.Poll | ts/app.ts:1238-1274 | The interval loop over the supplied answers returns the session, verdict and effects of `Run`. |
| AppPolling.WaitsThenDecides | ts/app.ts:1238-1274 | After any number of waiting replies, the first other reply alone decides the poll's session and verdict, whatever answers follow. |
| AppPolling.CompletesAfterWaiting | ts/app.ts:1240-1251 | Waiting statuses followed by `Completed` end in `Done`, with the completion applied to the starting session. |
| AppPolling.ErrorAfterWaiting | ts/app.ts:1823-1828 | Waiting statuses followed by `Error` end in `Failed` with that reason, and only the stored status changes. So an unsaved file stays unsaved after a failed save. |
| AppPolling.OnlyCompletionChanges | ts/app.ts:1238-1274 | A poll that did not complete changed nothing in the session but `currentStatus`. |
| AppPolling.FailedQueriesAreHarmless | ts/app.ts:2815-2823 | Failed progress queries do not change the poll's verdict or final session: the next tick re-evaluates the previous status. |
| AppPolling.UnfoldWaiting | ts/app.ts:1273-1274 | While waiting, the run with answers left continues from the first answer. |
| AppPolling.ProcessingIsFatalFor | ts/app.ts:2236-2256 | For export, validate and clean, `Processing` ends the poll with the unknown-status message. |
| AppPolling.OpenCompletion | ts/app.ts:1240-1251 | Open completes with `currentFile` = the path, `saved` true, filter and sort cleared, nothing else changed, and a `getLanguages` request. |
| AppPolling.EditCompletion | ts/app.ts:3571-3579 | The editing operations complete with only `saved` set to false. They reload the grid when a file is open, and ask for the count except after a language change, tag removal or space removal. Tag and space removal only reload the grid. |
| AppPolling.SaveCompletion | ts/app.ts:1807-1820 | Save completes with no close pending. A pending close sends `closeFile`, and a `Success` answer leaves no file open. A pending quit closes the main window. Without either, the current file is kept. |
| AppPolling.PendingQuitSurvivesFailedSave | ts/app.ts:1794-1839 | A quit that waited for a failed save is still pending, so the next completed save closes the window. |
| SimpleStore.Store.constructor | src/com/maxprograms/tmxserver/tmx/SimpleStore.java:62-69 | The new store is empty and consistent, and its id counter starts at the clock reading. |
| SimpleStore.Store.StoreTU | src/com/maxprograms/tmxserver/tmx/SimpleStore.java:71-106 | The unit gets the next counter id. Tuvs that declare a language are filed, with `lang` renamed to `xml:lang`. The unit is kept and appended to `order` only if some tuv was filed, and otherwise `discarded` grows by 1. The store stays consistent. |
| SimpleStore.Store.FileTuvs | src/com/maxprograms/tmxserver/tmx/SimpleStore.java:75-97 | The tuv loop yields the language set and maps of `AddLangs`/`AddTuvs` and counts the filed tuvs. |
| StoreModel.StoreKept | src/com/maxprograms/tmxserver/tmx/SimpleStore.java:71-106 | A unit ends up in some language map exactly when one of its tuvs declares a language. |
| StoreModel.StoreDeclared | src/com/maxprograms/tmxserver/tmx/SimpleStore.java:89-93 | The languages after storing are the old ones plus those the tuvs declare, and each new language gets a map. |
| StoreModel.StoreTagged | src/com/maxprograms/tmxserver/tmx/SimpleStore.java:79-86 | Every stored tuv is filed under the language its `xml:lang` names. |
| StoreModel.StoreOthers | src/com/maxprograms/tmxserver/tmx/SimpleStore.java:108-110 | Storing a unit leaves every other unit's entries alone, and a new language's map holds only that unit. |
| StoreModel.StoreKeepsConsistent | src/com/maxprograms/tmxserver/tmx/SimpleStore.java:71-106 | `storeTU` keeps the language set, maps, table and order consistent. |
| SimpleStore.Store.InsertUnit | src/com/maxprograms/tmxserver/tmx/SimpleStore.java:380-389 | `id` joins `tus` with a new unit and is appended to the end of `order`. Nothing else changes. |
| StoreModel.NewUnit | src/com/maxprograms/tmxserver/tmx/SimpleStore.java:381-386 | The new `tu` is empty and carries `tuid`, `creationdate`, `creationid`, `creationtool` and `creationtoolversion`. |
| StoreModel.AddUnitKeepsConsistent | src/com/maxprograms/tmxserver/tmx/SimpleStore.java:387-388 | A fresh unit added to the table and the end of the order keeps the store consistent. |
| SimpleStore.Store.Count | src/com/maxprograms/tmxserver/tmx/SimpleStore.java:245-247 | `getCount`, the size of `tus`, equals the length of `order`. |
| SimpleStore.Store.GetUnits | src/com/maxprograms/tmxserver/tmx/SimpleStore.java:127-211 | On the unfiltered path the result is the page of one row per unit in order, with `processed` equal to the number of units. |
| SimpleStore.Store.RowTexts | src/com/maxprograms/tmxserver/tmx/SimpleStore.java:138-146 | A row maps each language of the set to the displayed text of that language. |
| StoreModel.Page | src/com/maxprograms/tmxserver/tmx/SimpleStore.java:202-211 | The page never has more than `count` rows. A result shorter than `count` is returned whole, whatever `start` is. Otherwise the page is the slice [start, min(start+count, size)), and `subList` fails exactly when `start` is past the end. |
| StoreModel.PageOfRows | src/com/maxprograms/tmxserver/tmx/SimpleStore.java:135-211 | A page holds consecutive units of the order, each numbered by its 1-based position. |
| StoreModel.RowsInOrder | src/com/maxprograms/tmxserver/tmx/SimpleStore.java:135-149 | Row `j` is unit `order[j]`, numbered `j + 1`. |
| StoreModel.TextsComplete | src/com/maxprograms/tmxserver/tmx/SimpleStore.java:229-238 | A row has exactly the store's languages, each showing the rendered `seg` of its tuv, or "" when there is none. |
| SimpleStore.Store.IsUntranslated | src/com/maxprograms/tmxserver/tmx/SimpleStore.java:214-227 | The count loop returns true iff every language other than `src` shows a blank segment. |
| SimpleStore.Store.RemoveUntranslated | src/com/maxprograms/tmxserver/tmx/SimpleStore.java:392-411 | Exactly the untranslated units, selected in order, are deleted everywhere, and their number is returned. |
| SimpleStore.Store.SelectUntranslated | src/com/maxprograms/tmxserver/tmx/SimpleStore.java:394-403 | The scan selects the untranslated units in order, with one processed entry per unit. |
| StoreModel.UntranslatedUnitsMembers | src/com/maxprograms/tmxserver/tmx/SimpleStore.java:396-403 | A unit is selected iff it is in the order and untranslated. |
| StoreModel.UntranslatedAllRemoved | src/com/maxprograms/tmxserver/tmx/SimpleStore.java:392-411 | After the removal, no unit left in the order is untranslated. |
| SimpleStore.Store.Delete | src/com/maxprograms/tmxserver/tmx/SimpleStore.java:585-592 | The id leaves every language map, `tus` and `order`, and nothing else changes. |
| SimpleStore.Store.ForgetInMaps | src/com/maxprograms/tmxserver/tmx/SimpleStore.java:586-589 | The loop over the language set removes the id from every map. |
| SimpleStore.Store.DeleteAll | src/com/maxprograms/tmxserver/tmx/SimpleStore.java:345-350 | Deleting a list of ids removes exactly those ids from maps, table and order. |
| StoreModel.DeleteKeepsConsistent | src/com/maxprograms/tmxserver/tmx/SimpleStore.java:585-592 | Removing ids from the maps, the table and the order keeps the store consistent. |
| StoreModel.ForgetEachIsForget | src/com/maxprograms/tmxserver/tmx/SimpleStore.java:586-589 | Walking every language removes the unit from every map. |
| SimpleStore.Store.AddLanguage | src/com/maxprograms/tmxserver/tmx/SimpleStore.java:454-462 | A new language is inserted in order with an empty map. A language already in the set changes nothing. |
| SimpleStore.Store.RemoveLanguage | src/com/maxprograms/tmxserver/tmx/SimpleStore.java:464-471 | The language leaves the set and its map goes. An absent language changes nothing. |
| SimpleStore.Store.ChangeLanguage | src/com/maxprograms/tmxserver/tmx/SimpleStore.java:496-510 | Corrected `changeLanguage` (see Findings): the tuvs of `from` are retagged and their map moves to `to`, with one processed entry per tuv. The set gains `to` and loses `from` only when the two differ. A missing `from` map fails and changes nothing. |
| SimpleStore.Store.RelabelTuvs | src/com/maxprograms/tmxserver/tmx/SimpleStore.java:499-505 | Every tuv of the old map gets `xml:lang` = the new code. |
| StoreModel.ChangeLanguageKeepsFiled | src/com/maxprograms/tmxserver/tmx/SimpleStore.java:496-510 | Afterwards the maps hold `to` and every old language but `from`, `to` holds the old ids of `from`, the other maps are unchanged, and every tuv is still filed under its `xml:lang`. |
| StoreModel.ChangeLanguageKeepsConsistent | src/com/maxprograms/tmxserver/tmx/SimpleStore.java:496-510 | The corrected change keeps the store consistent, so the set contains `to` and, when it differs, not `from`. |
| StoreModel.ChangeIntoItselfBreaksStore | src/com/maxprograms/tmxserver/tmx/SimpleStore.java:506-509 | As written, changing a language into itself drops it from the set while its map stays. |
| SimpleStore.Store.SetTuProperties | src/com/maxprograms/tmxserver/tmx/SimpleStore.java:693-711 | The unit's children become the props built from the pairs, followed by its existing notes. An unknown id fails and changes nothing. |
| SimpleStore.Store.SetTuNotes | src/com/maxprograms/tmxserver/tmx/SimpleStore.java:713-729 | The unit's children become its existing props, followed by the new notes. An unknown id fails and changes nothing. |
| SimpleStore.Store.AppendNotes | src/com/maxprograms/tmxserver/tmx/SimpleStore.java:717-727 | The notes loop appends one `note` per non-empty text after the props. |
| StoreModel.PropsKeepComplete | src/com/maxprograms/tmxserver/tmx/SimpleStore.java:696-704 | A prop is written exactly for the pairs whose type and value are both non-empty. |
| StoreModel.NotesKeepNonEmpty | src/com/maxprograms/tmxserver/tmx/SimpleStore.java:719-726 | A note is written exactly for the non-empty texts. |
| StoreModel.SetPropertiesKeepsNotes | src/com/maxprograms/tmxserver/tmx/SimpleStore.java:706-710 | After `setTuProperties` the props are the new ones and the notes are the old ones, in order. |
| StoreModel.SetNotesKeepsProperties | src/com/maxprograms/tmxserver/tmx/SimpleStore.java:716-728 | After `setTuNotes` the props are the old ones and the notes are the new ones, in order. |
| SimpleStore.Store.ExportDelimited | src/com/maxprograms/tmxserver/tmx/SimpleStore.java:733-772 | Corrected `exportDelimited` (see Findings): the header is the languages joined by tabs, and there is one line per unit in order, made of its cells with one tab between every two cells. `exported` ends equal to the number of unit lines written. |
| SimpleStore.Store.ExportRow | src/com/maxprograms/tmxserver/tmx/SimpleStore.java:754-769 | A row has one cell per language: the cleaned plain text of its `seg`, or " " with no tuv. The cells are joined with the corrected tab join (see Findings). |
| StoreModel.ExportColumns | src/com/maxprograms/tmxserver/tmx/SimpleStore.java:754-769 | Splitting an exported row at its tabs gives back one cell per language. |
| Delimited.SplitTabJoin | src/com/maxprograms/tmxserver/tmx/SimpleStore.java:764-767 | Splitting a tab-joined row gives back its cells when no cell holds a tab. |
| Delimited.JoinAsWrittenAgrees | src/com/maxprograms/tmxserver/tmx/SimpleStore.java:764-767 | The source's join agrees with joining by tabs whenever the first cell is not empty. |
| Delimited.EmptyFirstCellShiftsColumns | src/com/maxprograms/tmxserver/tmx/SimpleStore.java:764-767 | As written, the row `["", "a"]` becomes "a", which reads back as one cell. |
| SimpleStore.Store.RemoveSameAsSource | src/com/maxprograms/tmxserver/tmx/SimpleStore.java:414-451 | Twin target tuvs of every unit with a source tuv are removed. Exactly the orphans are deleted everywhere, and `processed` counts the units. A missing source map, in a non-empty store, fails with the units untouched and `processed` at 0. |
| SimpleStore.Store.StripTwins | src/com/maxprograms/tmxserver/tmx/SimpleStore.java:425-438 | For one unit, the target tuvs equal to the source are removed. The count is 0 exactly when every other-language tuv repeated the source. |
| StoreModel.SameAsSourceOutcome | src/com/maxprograms/tmxserver/tmx/SimpleStore.java:414-451 | For a unit with a source tuv, a target tuv survives iff it existed, differs from the source, and the unit is not an orphan. The deleted units are exactly the orphans. |
| StoreModel.WithoutSourceUntouched | src/com/maxprograms/tmxserver/tmx/SimpleStore.java:421-422 | A unit without a source tuv keeps all its tuvs. |
| StoreModel.OrphansMembers | src/com/maxprograms/tmxserver/tmx/SimpleStore.java:439-441 | A unit is selected iff it is in the order and has a source tuv whose other tuvs all repeat the source. |
| StoreModel.StrippedKeepsConsistent | src/com/maxprograms/tmxserver/tmx/SimpleStore.java:431-433 | Removing twin tuvs keeps the store consistent. |
| SimpleStore.Store.Repeated | src/com/maxprograms/tmxserver/tmx/SimpleStore.java:547-570 | The `repeated` loop returns true iff both units have or lack a tuv in each language, with equal `seg`s. |
| SimpleStore.Store.CollectPairs | src/com/maxprograms/tmxserver/tmx/SimpleStore.java:521-532 | One pair (id, text) per unit with a non-empty plain text in the language. |
| Duplicates.SortPermutes | src/com/maxprograms/tmxserver/tmx/SimpleStore.java:533 | Sorting the pairs is a permutation. |
| Duplicates.SortSorted | src/com/maxprograms/tmxserver/tmx/SimpleStore.java:533 | Sorting leaves the pairs ordered by text. |
| Duplicates.SortKeepsIds | src/com/maxprograms/tmxserver/tmx/SimpleStore.java:533 | Sorting keeps the same ids, and keeps them distinct. |
| SimpleStore.Store.MarkDuplicates | src/com/maxprograms/tmxserver/tmx/SimpleStore.java:535-576 | The nested scan collects exactly the ids of pairs that repeat an earlier pair of their run with the same profile. |
| Duplicates.ScanIsEchoes | src/com/maxprograms/tmxserver/tmx/SimpleStore.java:537-576 | The nested loops (inner break, skip of already marked ids) collect exactly the marked pairs. |
| Duplicates.EchoSound | src/com/maxprograms/tmxserver/tmx/SimpleStore.java:537-576 | Every collected pair has an uncollected pair with the same profile earlier in the sorted list. |
| Duplicates.EchoesComplete | src/com/maxprograms/tmxserver/tmx/SimpleStore.java:537-576 | Of two sorted pairs with equal texts and equal profiles, one is collected. |
| SimpleStore.Store.DeduplicateRound | src/com/maxprograms/tmxserver/tmx/SimpleStore.java:520-581 | One round deletes exactly `DuplicatesIn` for its language. |
| Duplicates.DuplicatesInSound | src/com/maxprograms/tmxserver/tmx/SimpleStore.java:520-581 | A round deletes only units that keep a twin with the same profile in the order. |
| Duplicates.DuplicatesInComplete | src/com/maxprograms/tmxserver/tmx/SimpleStore.java:520-581 | After a round, no two units left with text in that language share a profile. |
| SimpleStore.Store.RemoveDuplicates | src/com/maxprograms/tmxserver/tmx/SimpleStore.java:513-583 | One round per language of the set but the last. The maps, order and table are what the rounds leave. |
| Duplicates.DeduplicatedSound | src/com/maxprograms/tmxserver/tmx/SimpleStore.java:513-583 | Every unit `removeDuplicates` deletes has a twin, with the same profile, that is still in the order. |
| Duplicates.DeduplicatedComplete | src/com/maxprograms/tmxserver/tmx/SimpleStore.java:513-583 | Afterwards, no two remaining units with text in a scanned language share a profile. |
| Duplicates.DeduplicatedShape | src/com/maxprograms/tmxserver/tmx/SimpleStore.java:578-581 | The rounds only delete units of the order: what is left is the old maps and order without the deleted set. |
| SimpleStore.Store.ConsolidateUnits | src/com/maxprograms/tmxserver/tmx/SimpleStore.java:621-670 | Runs of equal source texts are merged as `ConsolidatePass`, then the untranslated units are removed. A missing source map fails with the units untouched and `processed` at 0. |
| SimpleStore.Store.MoveAcross | src/com/maxprograms/tmxserver/tmx/SimpleStore.java:646-658 | In each language but the source, `into` takes the tuv of `from` when it has none and `from` has one. |
| SimpleStore.Store.ConsolidateRun | src/com/maxprograms/tmxserver/tmx/SimpleStore.java:641-665 | The inner loop absorbs each later pair of the run whose segment equals the first one's, and returns the run's end. |
| Duplicates.AbsorbMoves | src/com/maxprograms/tmxserver/tmx/SimpleStore.java:646-658 | In a target language, `into` ends with a tuv iff either unit had one, and `from` keeps one only if `into` already had one. |
| Duplicates.ConsolidatePassReshuffles | src/com/maxprograms/tmxserver/tmx/SimpleStore.java:636-668 | Consolidation only moves tuvs: the same languages, the same number of tuvs in each, and the source map untouched. |
| Duplicates.ConsolidatedKeepsConsistent | src/com/maxprograms/tmxserver/tmx/SimpleStore.java:636-668 | Consolidation keeps the store consistent. |
| TmxUtils.CleanAngles | src/com/maxprograms/tmxserver/tmx/TmxUtils.java:262-267 | The result contains no `<` and no `>`. |
| TmxUtils.Unquote | src/com/maxprograms/tmxserver/tmx/TmxUtils.java:258-260 | The result contains no `"`. |
| TmxUtils.RestoreAnglesInvertsEscaping | src/com/maxprograms/tmxserver/tmx/TmxUtils.java:258-274 | For any string without U+200B, `restoreAngles(unquote(cleanAngles(s))) == s`. |
| TmxUtils.GetTail | src/com/maxprograms/tmxserver/tmx/TmxUtils.java:276-278 | The tail is `</` + name + `>`. |
| TmxUtils.TailRoundTrip | src/com/maxprograms/tmxserver/tmx/TmxUtils.java:258-278 | An end tag escaped for a title is restored to itself. |
| TmxUtils.CleanLines | src/com/maxprograms/tmxserver/tmx/TmxUtils.java:420-423 | The length is preserved, `\n` and `\t` become spaces, and every other character is unchanged. |
| TmxUtils.Highlight | src/com/maxprograms/tmxserver/tmx/TmxUtils.java:191-214 | The case-sensitive loop with a non-empty target wraps every left-to-right, non-overlapping occurrence. The scan resumes after each inserted wrapper. |
| TmxUtils.ReplaceForward | src/com/maxprograms/tmxserver/tmx/TmxUtils.java:201-212 | The replace-and-resume loop equals Java's `String.replace` of the target. |
| TmxUtils.HighlightReversible | src/com/maxprograms/tmxserver/tmx/TmxUtils.java:191-214 | The highlighted text renders the scan with wrappers, and rendering the same scan with the target itself gives back the original. |
| TmxUtils.ScanLeftmost | src/com/maxprograms/tmxserver/tmx/TmxUtils.java:205-210 | No character the scan leaves alone starts an occurrence of the target, so every occurrence is matched. |
| TmxUtils.TextOnlyOf | src/com/maxprograms/tmxserver/tmx/TmxUtils.java:306-323 | The loop's text is the `textOnly` text: text nodes in order, with recursion only into `sub` and `hi`. |
| TmxUtils.TextOnlyAppend | src/com/maxprograms/tmxserver/tmx/TmxUtils.java:306-323 | The text of appended content is appended. |
| TmxUtils.TextOnlyDropsOtherElements | src/com/maxprograms/tmxserver/tmx/TmxUtils.java:314-318 | An element other than `sub` or `hi` contributes nothing. |
| TmxUtils.TextOnlyAppendsText | src/com/maxprograms/tmxserver/tmx/TmxUtils.java:311-312 | A text node contributes exactly its text. |
| TmxUtils.CutTagImage | src/com/maxprograms/tmxserver/tmx/TmxUtils.java:67-73 | One round cuts the tag image at the first `<img `, fails iff no `>` follows, and strictly lowers the number of `<`. |
| TmxUtils.ExtractTagImages | src/com/maxprograms/tmxserver/tmx/TmxUtils.java:63-74 | Without `<img ` the text passes unchanged. On success no `<img ` is left, and every cut tag image starts with `<`. |
| TmxUtils.RestoreTagTitles | src/com/maxprograms/tmxserver/tmx/TmxUtils.java:75-81 | With no tags the text is unchanged. |
| TmxUtils.ReplaceTags | src/com/maxprograms/tmxserver/tmx/TmxUtils.java:61-83 | An input with no `&nbsp;`, `<br>` or `<img ` is returned unchanged. |
| TmxUtils.TmxDate | src/com/maxprograms/tmxserver/tmx/TmxUtils.java:216-225 | The result is the year, then the two-digit 1-based month, day, `T`, hour, minute, second and `Z`. |
| TmxUtils.PaddedIsTwoDigits | src/com/maxprograms/tmxserver/tmx/TmxUtils.java:218-222 | The source's "0 below 10" padding is exactly two digits for values below 100. |
| TmxUtils.TmxDateRoundTrip | src/com/maxprograms/tmxserver/tmx/TmxUtils.java:216-225 | For four-digit years the date has 16 characters (ISO 8601 basic UTC form) and parses back to its fields. |
| PropertyList.WithoutType | ts/properties.ts:100-109 | The kept pairs are exactly those whose type differs from `type`. |
| PropertyList.WithoutTypeKeepsOrder | ts/properties.ts:100-109 | The kept pairs are a subsequence of the list, in their original order. |
| PropertyList.WithoutAbsentType | ts/properties.ts:100-109 | Removing a type no pair has leaves the list element-wise equal. |
| PropertyList.WithoutTypeTwice | ts/properties.ts:100-109 | Removing a type twice is removing it once. |
| PropertyList.WithoutTypesCommute | ts/properties.ts:79-89 | Removing two types in either order gives the same list. |
| PropertyList.WithoutTypesMembers | ts/properties.ts:79-89 | Removing the checked types leaves exactly the pairs of other types. |
| PropertyList.SaveLanguage | ts/properties.ts:59 | Type `TU` maps to the empty language, and any other type is the language. |
| PropertyList.Properties.SetUnitProperties | ts/properties.ts:51-56 | The dialog takes the id, type and pairs it is sent. |
| PropertyList.Properties.SaveProperties | ts/properties.ts:58-65 | The request carries the id and `props` unchanged, and `lang` is '' exactly for `TU` (or an empty type). |
| PropertyList.Properties.SetNewProperty | ts/properties.ts:72-75 | The new pair is appended, so the length grows by one and earlier pairs are unchanged. |
| PropertyList.Properties.RemoveProperty | ts/properties.ts:100-109 | `props` becomes the old list without the pairs of that type. |
| PropertyList.Properties.DeleteProperties | ts/properties.ts:79-89 | Each checked type is removed in turn. |
| Strings.Insert | src/com/maxprograms/tmxserver/tmx/SimpleStore.java:89-90 | `TreeSet.add` keeps the set sorted, adds exactly `x`, and changes nothing when `x` is present. |
| Strings.Remove | src/com/maxprograms/tmxserver/tmx/SimpleStore.java:469 | `TreeSet.remove` keeps the set sorted, removes exactly `x`, and changes nothing when `x` is absent. |

## Left out

- Electron plumbing in ts/app.ts is not modelled: windows, menus, IPC, native dialogs, themes, `set-status`/`status-changed` progress messages and the "Loaded N units" counter. Dialog answers are inputs.
- The HTTP transport `sendRequest`, the Java server process, `shell.openExternal`, update checks and downloads are left out. A reply or a failure string is an input.
- Real timers are not modelled. `setInterval` is a sequence of ticks over supplied answers, and a poll whose answers run out ends `Waiting`.
- The code has no single-flight guard and no "one window per family" rule, so neither is modelled. Every operation overwrites the one `currentStatus`. A failed progress query only logs, or shows a message, and the poll goes on.
- File I/O is left out: preferences, defaults, `recent.json` reading and writing, and `app.addRecentDocument`. Only `saveRecent`'s list transform is kept, as `RecentFiles`. `saveAs`'s call to `saveRecent` is not among its effects.
- The `Locations` store behind `setLocation` is not part of this model.
- `getFileLanguages`' reply handling is left out. `fileLanguages` is a session field that the consolidate guard reads.
- SimpleStore: the text-filter, regex, untranslated-filter and sort branches of `getUnits` are left out, because they go through `pureText` and Unicode string comparison. `GetUnits` covers the unfiltered path and pagination.
- SimpleStore: `removeTags`, `removeSpaces` (XML reparse in `stripSegment`), `replaceText` (the unseen `TextUtils.replaceAll`), `saveData` (SAX parsing), `writeFile`, `exportExcel`, the tuv setters and `setTuAttributes` are left out. They are outside the modelled core or depend on code not shown.
- SimpleStore: the UTF-16LE encoding and byte-order mark of `exportDelimited` are left out. The model produces the lines as strings.
- SimpleStore.Store.StoreTU: requires the next counter id to be new. The Java `order` list would repeat an id the table already holds, which breaks the "each unit listed once" invariant the model proves.
- SimpleStore.Store.InsertUnit: requires a fresh id, for the same reason. The Java code would append a duplicate to `order`.
- SimpleStore.Store.RemoveDuplicates: `processed` is stated only for fewer than two languages. With more, the source resets it every round, and the model does not state its final value.
- SimpleStore.Store.ChangeLanguage, SetTuProperties, SetTuNotes, RemoveSameAsSource and ConsolidateUnits: where the Java code dereferences a missing language map or unit and throws, the model returns `ok == false`. The store is left as it was, except that the last two reset `processed` to 0 first, as the source does.
- SimpleStore.Store.ChangeLanguage: models the corrected change, which keeps `to` in the language set when `from == to`. The source adds `to` and then removes `from`, so `changeLanguage(l, l)` drops `l` from the set. That behaviour is `StoreModel.ChangedAsWritten`, and `StoreModel.ChangeIntoItselfBreaksStore` shows it.
- SimpleStore.Store.ExportDelimited: models the corrected join, with a tab between every two cells of the header and of each row. The source writes a tab only when the line so far is not empty, so an empty first cell shifts the columns. That behaviour is `Delimited.JoinAsWritten`, and `Delimited.EmptyFirstCellShiftsColumns` shows it.
- SimpleStore.Store.ExportRow: uses the same corrected join as `ExportDelimited`, not the source's `!line.isEmpty()` test (`Delimited.JoinAsWritten`).
- StoreModel.Seg: a tuv without a `seg` child is read as an empty `<seg/>`, while the source gets null. In `removeSameAsSource`, a source tuv without `seg` throws in the source. A target tuv without `seg` is kept and counted by the source, but the model removes it when the source `seg` is empty. The same null reaches `repeated` in `removeDuplicates` and `textOnly` in `exportDelimited`.
- Strings.Below: orders languages by Unicode code point. Java's `String.compareTo`, which orders the `TreeSet`, compares UTF-16 code units. The two orders agree for codes made only of characters in the Basic Multilingual Plane, as language codes are.
- SimpleStore.Store.GetUnits: takes `start` and `count` as natural numbers. The source takes a `long` and an `int` and casts `start` with `(int)`. A negative index that throws, and the wrap-around of the cast, are not modelled.
- `Pair`'s order is by text (`Duplicates.SortByText`, a stable insertion sort), as `Pair` itself is not shown. Ties keep map-iteration order, which the model fixes as the order of `order`. Java `HashMap` iteration order is not modelled.
- Element identity and aliasing are not modelled: the Java code mutates tuv elements in place (`setAttribute` in `storeTU` and `changeLanguage`), while the model stores updated values.
- TmxUtils: `pureText` (regex, SVG files, the static `tags` counters), `getWorkFolder`, `deleteFiles`, `stripSegment`, `replaceText`, `highlightExpression` and case-insensitive `highlight` (Unicode `toLowerCase`) are left out.
- TmxUtils.TmxDate: takes the calendar fields as input, since the clock read is left out. The round trip is proved for four-digit years.
- TmxUtils.Highlight: requires a non-empty target. With an empty target the Java loop never ends.
- TmxUtils.RestoreTagTitles: states only the no-tags case. The text put back for `[[i]]` is what lies between `title="` and the next quote of the i-th tag image. Without `title="` the source reads from index 6 to the next quote, and it throws only when no quote follows. The method does the same and returns an error where the source throws, but its contract does not state the restored text.
- PropertyList: DOM rendering (`drawProperties`), the checkbox scan of `deleteProperties` and IPC are left out. `DeleteProperties` takes the checked row types as input.

## Findings

| source | as written | input that shows it | evidently intended | confidence | as-written member | corrected member |
|---|---|---|---|---|---|---|
| src/com/maxprograms/tmxserver/tmx/SimpleStore.java:506-509 | `changeLanguage` puts the map under the new code, adds the new code to the set, then removes the old code from the set. | Changing language `l` into `l`: `l` leaves the language set but keeps its map. | The set contains the new code, and drops the old one only when it differs. | medium, not executed | StoreModel.ChangeIntoItselfBreaksStore | StoreModel.ChangeLanguageKeepsConsistent |
| src/com/maxprograms/tmxserver/tmx/SimpleStore.java:764-767 | `exportDelimited` writes a tab before a cell only when the line so far is not empty. | A unit whose tuv in the first language has an empty `seg`: cells `["", "a"]` are written as `a`, so `a` lands in the first column. | One tab between every two cells, so each column stays under its language. | medium, not executed | Delimited.EmptyFirstCellShiftsColumns | SimpleStore.Store.ExportDelimited |
