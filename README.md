# Trade Republic document batch downloader — verified model

The userscript adds a panel to the Trade Republic web app. It runs over the
timeline list of the "Transaktionen" or "Aktivität" tab, from a start index
to an end index. For each entry it clicks the entry, waits for its detail
overlay, clicks every visible document button on the page, and closes the
overlay with up to two centre-click attempts on its backdrop. While the run
lasts, `window.open` is wrapped so that opened documents also go to
background tabs. A Stop button ends the run at the top of the next iteration.

This project models the decision logic under the DOM glue:

- `run_range.dfy` (module `RunRange`) resolves the panel's start and end
  fields against the list length. It yields "no entries", "invalid range" or
  an inclusive index range.
- `tab_lock.dfy` (module `TabLock`) holds the path helpers: the tab a run is
  pinned to, the label of its tab control, and the paths the panel is shown
  on. It also holds the route guard `ensureActiveTab` as a function of what
  the host's navigation reports.
- `overlay.dfy` (module `Overlay`) holds the active-overlay selection, an
  argmax with strict `>` over candidate descriptors. It also holds the
  bounded polls that wait for an overlay to appear or to go away, and the
  "visible elements in document order" scans.
- `batch.dfy` (module `Batch`) holds the run itself. Class `BatchRunner`
  carries the script's mutable state as fields: `running`, `stopFlag`, the
  `window.open` slot `openHook`, the status line, and the sequence `trace`
  of page actions performed so far. Its methods are the imperative parts of
  the script: the hook and unhook, the document activator, the close
  handshake, and the batch loop. Each method is specified by a function of
  its inputs: `DocClicks`, `CloseClicks`, `IterationTrace` and `LoopTrace`.
- `batch_properties.dfy` (module `BatchProperties`) proves what those trace
  functions promise:
  - which entries a run clicks, and that they are clicked in order;
  - that document clicks precede backdrop clicks;
  - when a load-more happens;
  - how each iteration ends;
  - that a run clicks only requested entries.

The page is an oracle. `Visit` records what one iteration observes:
- the list length before and after a load-more;
- the snapshots taken by the overlay poll;
- the visibility of each document trigger;
- which trigger clicks raise an exception;
- what the close handshake sees.

`Host` gives the list length before the loop, the `Visit` of each index,
and the rounds in which Stop is pressed. Round 0 is the waits before the
loop. Round k + 1 is the waits inside the iteration for the k-th index of
the range.

## Model

| member | source | states |
|---|---|---|
| RunRange.ResolveStart | TR_document_batch_downloader.js:404 | The start is never negative. It is the field's value when that is non-negative, and 0 when the field is NaN or not positive. |
| RunRange.ResolveEnd | TR_document_batch_downloader.js:405-406 | The end is always a valid index. It is the last index unless it is the given end. A given end inside the list is taken as it is. |
| RunRange.ResolveRange | TR_document_batch_downloader.js:402-408 | "No entries" exactly when the list is empty. Otherwise the range is the resolved start and end. It is rejected as invalid exactly when the start lies past the end. Both bounds lie inside the list. |
| RunRange.ResolvedRangeIsRequested | TR_document_batch_downloader.js:402-408 | The resolved range holds exactly the indices that exist and are not below the start or above a non-negative end. An empty list or an invalid range requests none. |
| RunRange.DefaultsCoverWholeList | TR_document_batch_downloader.js:404-406 | With the panel defaults (0 and -1), a five-entry list resolves to 0..4. |
| RunRange.ReversedBoundsRejected | TR_document_batch_downloader.js:408 | Start 3 and end 1 are rejected as an invalid range. |
| TabLock.Contains | TR_document_batch_downloader.js:82 | `includes` is true exactly when the needle occurs at some offset. |
| TabLock.DesiredPath | TR_document_batch_downloader.js:81-85 | The pinned path is one the panel is shown on (the check at lines 473-475), and it ends in "/activities" exactly when the current path mentions "/activities". |
| TabLock.TabLabel | TR_document_batch_downloader.js:88 | The label looked for is "Aktivität" on a path ending in the activities tab and "Transaktionen" on one ending in the transactions tab. |
| TabLock.PathEligible | TR_document_batch_downloader.js:473-475 | An eligible path ends in exactly one of the two profile tabs. |
| TabLock.TabSuffixes | TR_document_batch_downloader.js:88 | A path ending in the activities tab ends in "/activities"; one ending in the transactions tab does not. |
| TabLock.TransactionsFacts | TR_document_batch_downloader.js:81-85 | The transactions path neither contains nor ends with "/activities", and it is eligible. |
| TabLock.ActivitiesFacts | TR_document_batch_downloader.js:81-85 | The activities path contains and ends with "/activities", and it is eligible. |
| TabLock.DesiredPathProperties | TR_document_batch_downloader.js:81-88 | The pinned path is always one the panel is shown on (the check at lines 473-475). Pinning is idempotent. The tab label looked for is "Aktivität" exactly when the current path mentions "/activities". |
| TabLock.ActivitiesPathPinsActivities | TR_document_batch_downloader.js:81-85 | On a path ending in the activities tab, a run stays pinned to the activities tab. |
| TabLock.EnsureActiveTab | TR_document_batch_downloader.js:99-123 | With the lock off, or already on the tab, nothing is done and the result is true. Otherwise the guard clicks the tab control exactly when one is found. It navigates programmatically exactly when the click did not reach the tab. It reports success exactly when a check after one of the steps sees the desired path. It takes at most two steps, click before navigation. |
| Overlay.Score | TR_document_batch_downloader.js:134 | The score is never below the area. It exceeds the area exactly when the close-control bonus applies (the active-modal scoring and a close control), and then it is at least the bonus. The close handshake's scoring (line 229) is the area alone. |
| Overlay.SelectOverlay | TR_document_batch_downloader.js:130-137 | The result is none exactly when no candidate is visible. Otherwise it is the first visible candidate with maximal score: none scores higher, and every earlier one scores strictly lower. |
| Overlay.GetActiveModal | TR_document_batch_downloader.js:126-138 | The same, with score = area plus 1,000,000 for a candidate with a close control. |
| Overlay.FindActiveOverlay | TR_document_batch_downloader.js:224-233 | The same, with score = area alone. |
| Overlay.AnyVisibleSomewhere | TR_document_batch_downloader.js:127-129 | The snapshot has a visible candidate exactly when some position holds one. |
| Overlay.CloseControlWins | TR_document_batch_downloader.js:132-135 | While visible areas stay below the bonus, the active modal has a close control whenever some visible candidate has one. |
| Overlay.ScoringsAgreeWithoutClose | TR_document_batch_downloader.js:134 | Without close controls, the two scorings pick the same overlay. |
| Overlay.OverlayAppearsSomewhere | TR_document_batch_downloader.js:199-203 | An overlay appears during the poll exactly when some snapshot shows a visible candidate. |
| Overlay.PollForOverlay | TR_document_batch_downloader.js:199-206 | The poll finds a modal exactly when some snapshot shows one. It stops at the first such snapshot, and what it returns is that snapshot's first best candidate. |
| Overlay.WaitOverlayGone | TR_document_batch_downloader.js:243-250 | A check window reports "gone" exactly when one of its checks saw the overlay disconnected or invisible. |
| Overlay.VisibleIndicesSound | TR_document_batch_downloader.js:141-143 | The filtered query lists only visible elements, in range, in strictly ascending document order. |
| Overlay.VisibleIndicesComplete | TR_document_batch_downloader.js:141-143 | No visible element is left out of the filtered query. |
| Overlay.FirstVisibleSpec | TR_document_batch_downloader.js:236 | `find(isVisible)` yields none exactly when nothing is visible. Otherwise it yields a visible element with nothing visible before it. |
| Batch.FirstStopFrom | TR_document_batch_downloader.js:410-411 | The first round at or after `from` in which Stop is pressed, or the bound. |
| Batch.FirstStop | TR_document_batch_downloader.js:410-411 | The number of iterations that start. None of the rounds before it has a Stop press, and when it is below the range size its round has one. |
| Batch.IntervalSpec | TR_document_batch_downloader.js:410 | The started indices are consecutive from the start index: ascending, without repeats, and inside the range. |
| Batch.StopPressEndsRun | TR_document_batch_downloader.js:411 | A Stop press in round k lets at most k iterations start. |
| Batch.NoStopRunsAll | TR_document_batch_downloader.js:410-411 | Without a Stop press, every index of the range is visited. |
| Batch.BatchRunner.RequestStop | TR_document_batch_downloader.js:463-467 | The Stop button sets the flag. |
| Batch.BatchRunner.HookWindowOpen | TR_document_batch_downloader.js:287-299 | An absent or already hooked `window.open` is left alone, and the unhook is a no-op. Otherwise the slot holds the marked wrapper around the previous function, and the unhook restores exactly that function. |
| Batch.BatchRunner.Unhook | TR_document_batch_downloader.js:290 | Unhooking puts back the function the hook replaced. A no-op unhook changes nothing. |
| Batch.BatchRunner.ClickAllDocs | TR_document_batch_downloader.js:145-164 | The count is the number of visible triggers. The trace grows by `DocClicks`: one click per visible trigger, in document order, including clicks that raise. |
| Batch.BatchRunner.CloseOverlay | TR_document_batch_downloader.js:212-284 | The result is `CloseSucceeds` and the trace grows by `CloseClicks`. Nothing is clicked and the result is true when no overlay or no backdrop is visible. A second click happens only when the first window did not see the overlay go. The result is false only when both windows fail. |
| Batch.BatchRunner.Step | TR_document_batch_downloader.js:413-421 | One iteration appends exactly `IterationTrace`: the guard, one load-more when needed, then a skip or the opened entry. |
| Batch.BatchRunner.HandleEntry | TR_document_batch_downloader.js:421-440 | After the entry click, the iteration either skips for want of a still-visible overlay, or clicks the documents, closes the overlay, re-runs the guard and finishes with the document count. |
| Batch.BatchRunner.Begin | TR_document_batch_downloader.js:385-400 | Run start: hook installed, stop flag reset (then set by a press during the waits), running, guard and optional load-more recorded. |
| Batch.BatchRunner.VisitIndex | TR_document_batch_downloader.js:410-446 | A started iteration always runs to its end and extends the loop trace by one iteration. A Stop press during it sets the flag. |
| Batch.BatchRunner.RunLoop | TR_document_batch_downloader.js:410-446 | The loop starts exactly the first `FirstStop` indices of the range, in order. The flag ends as the press of the last started iteration's round (round 0 when none started), and the trace is `LoopTrace` over those indices. |
| Batch.BatchRunner.Run | TR_document_batch_downloader.js:385-450 | On every one of the three exits, `running` is false and `window.open` is restored. An empty list or an invalid range sets its status, starts no iteration and records only the prologue. A range starts the indices from the start up to the first Stop press, and ends "stopped" exactly when the flag is set. |
| BatchProperties.ClicksOnShape | TR_document_batch_downloader.js:150-161 | The activator emits one click per trigger, position for position. |
| BatchProperties.DocClicksAreVisibleTriggers | TR_document_batch_downloader.js:141-163 | Only visible triggers are clicked, every visible trigger is clicked, and clicks go in strictly ascending order, so each trigger is clicked once. Each click records whether it raised. |
| BatchProperties.CloseClicksBounded | TR_document_batch_downloader.js:235-283 | At most two clicks, all on the first visible backdrop. No click exactly when nothing is open. A failed handshake has used both clicks, and a single click means success. |
| BatchProperties.NoEntryClickAfterOpen | TR_document_batch_downloader.js:421-440 | Once its entry is clicked, an iteration clicks no other entry and loads no more. |
| BatchProperties.IterationOpens | TR_document_batch_downloader.js:413-421 | An iteration clicks its own entry exactly when the entry is loaded, and no other entry. |
| BatchProperties.LoadedIndicesSpec | TR_document_batch_downloader.js:410-421 | The reference list holds exactly the loaded indices of the range, ascending. |
| BatchProperties.LoopOpens | TR_document_batch_downloader.js:410-446 | The entries the loop clicks are exactly the reference list of loaded indices. |
| BatchProperties.RunOpensOnlyRequested | TR_document_batch_downloader.js:402-446 | However the Stop presses fall, a run clicks only entries its start and end fields requested. |
| BatchProperties.IterationOrdering | TR_document_batch_downloader.js:421-436 | Every document click precedes every backdrop click. Both come after the entry click, and there are none unless the entry was loaded and its overlay seen. |
| BatchProperties.IterationLoadMore | TR_document_batch_downloader.js:413-418 | Each iteration starts with the guard. It loads more exactly once, as its second action, when its index is past the list and auto-load is on, and never otherwise. |
| BatchProperties.IterationOutcome | TR_document_batch_downloader.js:418-443 | An iteration ends as skipped (not loaded), skipped (no overlay), or finished with the number of visible triggers, by the same conditions as the code. |

## Left out

- DOM queries, geometry and `isVisible` (lines 62-66): each query is an oracle. A query becomes a sequence of visibility flags or of candidate descriptors, and the page a `Host`.
- Timed polls (`sleep`, `Date.now`): the 5-second overlay poll and the close-check windows are finite sequences of observations. The timing table has no logical effect. The model also admits an empty poll and an empty check window, though the source's loops (lines 200 and 245) always check at least once; an empty sequence only adds behaviours (nothing found, not gone) that the source never shows.
- Document buttons are searched on the whole page, not inside the overlay (line 142): a visible button of a stale or second overlay is clicked too. The `triggers` of a `Visit` are the page-wide query.
- Candidate areas are whole numbers, not floating-point products of width and height.
- Parsing of the input fields: the fields arrive parsed, `None` standing for NaN. An empty field is `Some(0)`, since `+""` is 0. Non-integer values are not modelled.
- The panel, its storage, and the status texts: a `Status` value stands for each final status line.
- The Start button's guard against a second run while one is running (line 459).
- The SPA routing hooks, the boot interval, and the panel's show/hide logic. `PathEligible` captures only the path check at lines 473-475.
- The tab-control search (`findTabElementForPath`, lines 87-97): only its label choice is modelled. Whether a matching control is found is an input of `EnsureActiveTab`.
- Inside a run, the route guard is the single action `EnsureTab`. Its own behaviour is `TabLock.EnsureActiveTab`.
- `GM_openInTab`, the wrapper's forwarding to the previous `window.open`, `history.pushState`, `location.assign`, console output, and the `mark`/`unmark` outlines.
- The centre click's hit-testing (`elementFromPoint`): a backdrop click is recorded on the backdrop itself.
- The centre click's two events (lines 259-260): each attempt dispatches a synthetic `click` event and then calls `click()` on the element hit. One `BackdropClick` action stands for one such attempt, so both events, not one.
- `findScrollableListContainer`: the container is always present, because the script falls back to the document element.
- The filter of the list query (the excluded action class): the list length per snapshot is an input.
- Exceptions outside the guarded clicks: the loop has no try/finally. A thrown error therefore ends the run without the unhook, and this model covers only the three explicit exits.
- Batch.BatchRunner.Run: its contract does not state that the hook is installed while the loop runs. `Begin` states the installed state, and `Run` states the restored state.
- Overlay.SelectOverlay: the source filters the candidates first and then takes the maximum. Here the filter and the loop are fused into one pass over the snapshot, which returns the same element.
