# FastDownloader core, modelled in Dafny

FastDownloader is an Electron desktop application that downloads YouTube videos, playlists
and audio. This project models four parts of it and proves properties of each:

- **The start-button handler** of the renderer (`start_run.dfy`, module `StartRun`). It
  validates the inputs and maps the quality. It expands playlist entries into URLs and
  computes the progress weight of one URL. It then runs the downloads one after another,
  stopping at the first failure, and reports the outcome.
- **The abort-button handler** (`abort_kill.dfy`, module `AbortKill`). It computes the order
  in which the downloader's process tree is killed.
- **List-box selection** (`list_box.dfy`, module `ListBox`): plain, Ctrl- and Shift-clicks,
  the link counter, and the Delete, Ctrl+A and Ctrl+C keys.
- **The tray menu** of the main process (`tray_menu.dfy`, module `TrayMenu`):
  `addTrayItem`, `removeTrayItem`, and the download/abort and hide/maximize swaps built
  from them.

`base.dfy` (module `Base`) holds shared helpers: `Option`, `Result`, JavaScript's
`includes` and the truthiness of an attribute value.

How the model is set up:

- Each handler is an imperative method whose loops mirror the source's loops. It is proved
  against a specification function, and the properties are proved about that function.
- The start handler's DOM updates and IPC messages are recorded, in order, as a sequence of
  `Effect` values. `StartRun.StartTrace` is the specification of that sequence.
- The playlist service and the downloaders are oracles, given as sequences:
  - `answers[i]` is the playlist service's answer for list entry `i`;
  - `outcomes[k]` is the result of the `k`-th download call.
- The list box's `active` classes are an `array<bool>`, updated in place.
- The tray state is a class, `TrayMenu.Shell`. Its fields are the menu items (a `seq`), the
  menu last given to the tray, the `hidden` flag and the language table.
- The progress weight is kept in integer hundredths of a percent.

## Model

| member | source | states |
|---|---|---|
| StartRun.ValidationOrder | app/assets/js/script.js:146-201 | Validation accepts exactly the ready inputs. A refusal names the first missing input, in the order items, mode, codec (audio only), quality (audio only), location. |
| StartRun.AudioQualityLevels | app/assets/js/script.js:162-192 | In audio mode, `best`, `medium` and `worst` become levels 0, 5 and 9. Any other value passes the selector element itself. |
| StartRun.OtherModesIgnoreCodecAndQuality | app/assets/js/script.js:155-201 | Outside audio mode, codec and quality are neither required nor mapped. Changing them changes only the codec passed through. |
| StartRun.RefusedStartOnlyNotifies | app/assets/js/script.js:146-201 | A refused start emits only the in-window notice, plus an error notification when the window is hidden. It does not disable the controls, reset progress, send `add_abort`, query a playlist or download. |
| StartRun.ExpandItems | app/assets/js/script.js:217-228 | The expansion loop returns the URLs of all entries in list order, with `count` equal to their number. It queries the playlist service once per playlist entry. |
| StartRun.ExpansionKeepsOrder | app/assets/js/script.js:217-228 | The URLs of the entries before `i`, followed by entry `i`'s own URLs, are a prefix of the whole expansion. |
| StartRun.ExpansionOfDirectLinks | app/assets/js/script.js:219-227 | A list without `playlist?list=` entries expands to itself, with no playlist query. |
| StartRun.ResolutionsAreQueries | app/assets/js/script.js:219-223 | The expansion emits only playlist-service queries. |
| StartRun.WeightBounds | app/assets/js/script.js:230 | For `count >= 1`, `count` weights never exceed 100.00%. One more hundredth each would exceed it. The sum is exactly 100.00% iff `count` divides 10000. |
| StartRun.Run | app/assets/js/script.js:231-254 | A run attempts at most as many calls as it has outcomes. An aborted run attempted at least one. |
| StartRun.RunCharacterization | app/assets/js/script.js:232-254 | Every attempted call but the last succeeded. The run aborts iff some outcome is `false`, and then the last attempted call is the first failure. Otherwise every URL is attempted. |
| StartRun.RunQueue | app/assets/js/script.js:231-254 | The loop calls, in order, one downloader per URL up to the first failure. A URL containing `netflix` goes to the alternate downloader, with no arguments. Every other URL goes to the main downloader with mode, location, URL, weight, codec, quality and playlist count. `aborted` is the run's abort flag. |
| StartRun.Start | app/assets/js/script.js:134-270 | The handler's effects are exactly `StartTrace`: a refusal, or the prelude, the playlist queries, the download calls, progress pinned to 100%, the controls enabled, the report, and `remove_abort`. |
| StartRun.AcceptedStartFrame | app/assets/js/script.js:203-269 | A validated start begins with disable, `set_percentage 0`, `add_abort` and the progress reset. It always pins progress to 100% and always ends with `remove_abort`. |
| StartRun.ReportAfterQuiet | app/assets/js/script.js:260-269 | After a notice-free body, the report holds the success notification iff the run was not aborted, and the abort notice iff it was. |
| StartRun.SuccessExactlyWhenNoFailure | app/assets/js/script.js:250-267 | The success notification is sent iff the inputs are ready and every expanded URL downloaded. For ready inputs, the abort notice is shown iff some URL failed. |
| StartRun.AllSucceededTrace | app/assets/js/script.js:203-269 | When every download succeeds, a validated start makes one call per expanded URL, all with the same weight, and ends with the success notification and `remove_abort`. |
| StartRun.DirectLinksTrace | app/assets/js/script.js:217-269 | A validated list of direct links that all download makes no playlist query. It makes one call per entry, in list order. |
| AbortKill.Abort | app/assets/js/script.js:273-283 | The abort handler stops the download and re-enables the controls. It then sends one `kill_pid` per PID of the kill order, in that order. |
| AbortKill.KillOrderLeavesFirst | app/assets/js/script.js:275-281 | The kill order holds the descendants in reverse discovery order, then the root, last. Every PID is kept, as often as it occurs. |
| AbortKill.ReversedIndex | app/assets/js/script.js:276 | Position `k` of the reversed list is the `k`-th PID from the end. |
| AbortKill.ReversedKeepsPids | app/assets/js/script.js:276 | Reversing keeps the multiset of PIDs. |
| ListBox.CountActive | app/assets/js/script.js:58-64 | The active count is at most the number of entries, and is zero iff no entry is active. |
| ListBox.ShiftSelect | app/assets/js/script.js:29-52 | The Shift-click loop turns the range between the clicked entry and the first active entry active, inclusive. All other entries stay as they were. |
| ListBox.Click | app/assets/js/script.js:19-65 | The click handler leaves the entries as `ClickResult` describes, and the counter as the number of active entries, hidden at zero. |
| ListBox.PlainClickKeepsAtMostOne | app/assets/js/script.js:23-27 | After a plain click, the clicked entry is toggled and no other entry is active. The counter shows 1, or is hidden when the entry was active. |
| ListBox.ToggleClick | app/assets/js/script.js:53-56 | A Ctrl-click, or a Shift-click with nothing active, toggles the clicked entry only. |
| ListBox.ShiftClickSelectsRange | app/assets/js/script.js:29-52 | A Shift-click with some entry active makes every entry between the clicked one and the first active one active. It deactivates nothing, leaves the outside entries unchanged, and never lowers the count. |
| ListBox.SelectAll | app/assets/js/script.js:389-397 | Ctrl+A makes every entry active and shows the counter with the number of entries. |
| ListBox.CountAll | app/assets/js/script.js:389-397 | A fully selected list counts all its entries. |
| ListBox.CopyActive | app/assets/js/script.js:400-408 | The Ctrl+C loop builds the texts of the active entries, in list order, each followed by a newline. |
| ListBox.SplitJoin | app/assets/js/script.js:404-405 | Lines without newlines, each followed by a newline and concatenated, split back into the same lines. |
| ListBox.ClipboardLines | app/assets/js/script.js:400-408 | When no entry text has a newline, the clipboard text splits into exactly the selected texts, one line per active entry. |
| ListBox.SelectedFromTexts | app/assets/js/script.js:401-405 | Every copied text is the text of some entry. |
| ListBox.KeyDown | app/assets/js/script.js:379-408 | Delete calls the helper that removes the active entries, recorded as `removeActive`; the selection itself is unchanged. Ctrl+A throws when nothing was clicked yet, and selects all when the last click was in the list box. Ctrl+A after a click elsewhere changes nothing. Ctrl+C copies the texts of the entries active before the key. |
| TrayMenu.Shell.constructor | main.js:21-23 | At start-up the menu is empty, the window is visible and the language table is empty. The unique-ids invariant holds. |
| TrayMenu.Shell.AddTrayItem | main.js:185-190 | The loop leaves the menu unchanged when the id exists. Otherwise it puts the new item in front. |
| TrayMenu.Shell.RemoveTrayItem | main.js:192-199 | The loop cuts out the first item with the id, if there is one. |
| TrayMenu.Shell.OnLang | main.js:50-63 | The 'lang' message stores the language table, rebuilds the menu from the six-item template and gives it to the tray. The ids are then unique. |
| TrayMenu.Shell.OnAddAbort | main.js:136-141 | 'add_abort' swaps "download" for "abort" and gives the tray the new menu. It keeps ids unique. |
| TrayMenu.Shell.OnRemoveAbort | main.js:143-148 | 'remove_abort' swaps "abort" for "download" and gives the tray the new menu. It keeps ids unique. |
| TrayMenu.Shell.OnHide | main.js:65-73 | The window's 'hide' event sets `hidden` and swaps "hide" for "maximize". It keeps ids unique. |
| TrayMenu.Shell.OnShow | main.js:75-82 | The window's 'show' event clears `hidden` and swaps "maximize" for "hide". It keeps ids unique. |
| TrayMenu.TemplateIdsUnique | main.js:54-61 | The template menu's ids are unique. |
| TrayMenu.AddTrayItemSpec | main.js:185-190 | With the id present, nothing changes. With it absent, the item goes in front of the unchanged items. Either way the id is then present, only the item is added, and unique ids stay unique. |
| TrayMenu.RemoveTrayItemSpec | main.js:192-199 | With the id absent, nothing changes. With it present, only the first item with it is dropped, and the rest keep their order. Nothing is added. |
| TrayMenu.RemoveKeepsIdsUnique | main.js:192-199 | On a menu with unique ids, removal keeps them unique and leaves the id absent. |
| TrayMenu.SwapKeepsIdsUnique | main.js:65-82 | Every swap keeps ids unique. |
| TrayMenu.SwapEffect | main.js:136-148 | On a menu with unique ids, swapping out `gone` leaves it absent and the new id present exactly once. The new item is in front when its id was absent. |
| TrayMenu.AbortSwapEffect | main.js:136-148 | After 'add_abort', "download" is absent and "abort" occurs exactly once, in front when it was absent. 'remove_abort' does the reverse. |
| TrayMenu.HideShowSwapEffect | main.js:65-82 | After 'hide', "hide" is absent and "maximize" occurs exactly once. 'show' does the reverse. |
| TrayMenu.SwapIdempotent | main.js:50-82 | Repeating a swap changes nothing. Every 'lang' message registers the window handlers again, so a hide or show event may run the same swap several times. |
| TrayMenu.AbortRoundTrip | main.js:136-148 | On a menu with "download" and no "abort", 'add_abort' then 'remove_abort' moves the download item to the front and leaves everything else in place. |

## Left out

- The DOM is not modelled: element lookup, `classList` and `style` beyond the `active` flags and the link counter, the theme, the settings panel and the language files.
- Electron is not modelled: IPC messaging, `Notification`, `Tray`/`Menu` objects, dialogs, `clipboard`, `shell`, the auto-updater and auto-launch. IPC messages and the clipboard text appear only as recorded effects or returned values.
- The bodies of the helper library (`getPlaylistUrls`, `downloadYTURL`, `downloadNFURL`, `getChildProcessRecursive`, `abortDownload`, `removeActiveListItems`, `setDisabled`, `setEnabled`) are not part of this model. Their results are parameters, and a call is recorded as an effect.
- `tools.playlistCount` is a parameter of the start handler, fixed for the whole run. The source reads it again at every downloader call, and the helpers may change it during the run.
- Concurrency is not modelled: the `async`/`await` interleaving, and an abort arriving while a download is in flight. The run is sequential. The abort handler's kills come after the controls are re-enabled, which is when the process-listing promise settles.
- The abort handler reads `tools.childProcess.pid` twice in the source. The model reads it once.
- `Number(pid)` conversion is not modelled: PIDs are integers.
- JavaScript floating point is not modelled. The weight is `floor(10000 / count)` hundredths of a percent. `count == 0` (every entry an empty playlist) gives `Infinite`, standing for JavaScript's `Infinity`.
- Exceptions thrown by the playlist service (`getPlaylistUrls`) or by a downloader (`downloadYTURL`, `downloadNFURL`) are not modelled; a download result is only `true` or `false`. In the source such an exception leaves the handler at once: progress is not pinned to 100%, the controls stay disabled, no report is sent and `remove_abort` is never sent, so the tray stays in abort mode.
- The progress updates inside the downloader are not modelled.
- `console.log` calls and the `document.visibilityState` read are not modelled. The window's hidden flag is a parameter.
- Only one list box is modelled. Ctrl+A and Ctrl+C in the source act on every `.listBox` on the page.
- `ListBox.KeyDown`: the `setTimeout` that clears the text selection after Ctrl+A is not modelled. Nor is the selection clearing before a Shift-click. Where the last click is, is an input: none yet, inside the list box, or elsewhere.
- `TrayMenu.Shell`: the tray icon is created only after the window loads, and the 'lang' handler is registered then. Messages that arrive earlier would find no tray. The model starts from the empty menu and does not model that timing.
- `TrayMenu.Shell`: the window-event handlers are registered again on every 'lang' message. The model runs one swap per event. `TrayMenu.SwapIdempotent` shows that the extra runs change nothing.
- Click handlers on menu items (`hide`, `addURL`, `download`, `abort`, ...) are named by an `Action` value and not modelled further.
- The `__dirname` rewrite, the window geometry and the periodic update-check timer in main.js are not modelled.
