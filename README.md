# EPANET-RTX point-record cache and CONTROLS exporter, in Dafny

This project models two parts of EPANET-RTX, the real-time hydraulic modelling
toolkit, and proves properties of them.

**The database point record (`DbPointRecord`).** It sits in front of a
time-series database adapter and a per-identifier in-memory buffer of points:

- It answers `point`, `pointBefore`, `pointAfter` and `pointsInRange`, asking
  the adapter only for what the buffer and the memo of the last range request
  (`request_t`) cannot answer.
- It runs every point fetched from the adapter through the OPC quality filter
  currently configured.
- It merges buffered and fetched points, removes duplicate times, and
  remembers what it fetched.
- It writes through to the adapter, and it registers identifiers with their
  physical units.

The class `DbPointRecords.DbPointRecord` holds the record's state as fields:

| field | contents |
|---|---|
| `buffer` | the buffer |
| `lastRequest` | the memo of the last range request |
| `localUnits` | the local registry |
| `filterType`, `activeFilter`, `filterCodes` | the filter configuration |
| `readOnlyFlag` | the read-only flag |
| the search limits | the bounds of the iterative neighbour searches |

Its methods change those fields as the source does. The adapter is the class
`DbAdapter.Adapter`. Its store is a map from identifier to a time-indexed
series. A ghost log records every adapter call, so that contracts can say
exactly which calls an operation makes.

**The EPANET `.inp` rewriter of `EpanetModelExporter`.** It copies an
`.inp` file line by line. When a line is the `[CONTROLS]` section header, it
writes, after that header, one time-based control block per link: pipes,
then pumps, then valves.

- `EpanetSections` models `_epanet_sectionFromLine`. This includes the
  leftmost-longest search of the bracket pattern `\[(.*)\]`.
- `EpanetControls` models the exporter's own steps:
  - index each link's setting and status points by time;
  - merge the two sets of times;
  - walk those times with an `isOpen` flag, writing statuses, clamped
    settings, and the setting re-established when a link reopens.

Each loop of the source is a Dafny method with a `while` loop. Each method is
proved equal to a pure reference function. The lemmas state what that output
means for any input, for example:

- each control time gets exactly the statements the open state at that time
  dictates;
- a link's settings are written only while the link is open;
- statements come in time order;
- every input line is copied through unchanged and in order.

## Model

| member | source | states |
|---|---|---|
| Points.Intersection | src/DbPointRecord.cpp:402-442 | The class of a query range against the buffered span: Internal exactly when the span contains the query; Left, Right and External exactly under their overlap conditions; anything else falls through to Other. |
| Points.OtherIsDisjoint | src/DbPointRecord.cpp:440-442 | For well-formed ranges, the fall-back class holds exactly when the two ranges share no instant. |
| Points.LastBelow | src/EpanetModelExporter.cpp:274-277 | The greatest key strictly below `t` (what `lower_bound` then `--it` reaches), or none when every key is at or after `t`. |
| Points.FirstAbove | src/DbPointRecord.cpp:306 | The least key strictly above `t`, or none when every key is at or before `t`. |
| BufferTier.BufferedPoint | src/DbPointRecord.cpp:213 | The buffered point at exactly `t`, or the invalid sentinel when none is buffered there. |
| BufferTier.BufferedInRangeFacts | src/DbPointRecord.cpp:395-407 | A buffered range read is ascending, lies inside the range, has exactly the buffered times of the range, and returns the buffered point for each time. |
| BufferTier.BufferedRange | src/DbPointRecord.cpp:402 | The buffered span of an identifier runs from its first to its last buffered time and contains every buffered time; an empty series spans `TimeRange()`. |
| BufferTier.BufferedBeforeIsBefore | src/DbPointRecord.cpp:268 | The buffer's "point before `t`" is the sentinel or a buffered point strictly before `t`. |
| BufferTier.BufferedAfterIsAfter | src/DbPointRecord.cpp:306 | The buffer's "point after `t`" is the sentinel or a buffered point strictly after `t`. |
| BufferTier.Upsert | src/DbPointRecord.cpp:256 | Adding points keeps every old time, adds every new time, and leaves the times that are not re-added unchanged. |
| BufferTier.UpsertLastWins | src/DbPointRecord.cpp:256 | After an upsert, each time holds the last point added with that time. |
| BufferTier.AddPoints | src/DbPointRecord.cpp:464 | Adding points to one identifier leaves every other identifier's series unchanged and keeps every point filed under its own time. |
| BufferTier.AddPointsStoresAll | src/DbPointRecord.cpp:464 | After adding points with distinct times, a point read at each of those times is the point added. |
| OpcFilter.FilterPoint | src/DbPointRecord.cpp:521-557 | Pass-through returns the point unchanged. The white list keeps exactly the listed qualities; the black list keeps exactly the unlisted ones. The two code-copying modes always keep the point. A dropped point is the sentinel; a kept one has its time, the override quality, and its value or confidence replaced by its quality as the mode says. |
| OpcFilter.FilterAll | src/DbPointRecord.cpp:597-608 | Filtering a sequence keeps only valid points and never lengthens it. |
| OpcFilter.FilterAllAppend | src/DbPointRecord.cpp:597-608 | Filtering distributes over concatenation. |
| OpcFilter.FilterAllFrom | src/DbPointRecord.cpp:597-608 | Every output point is the filter applied to some input point. |
| OpcFilter.FilterAllTimes | src/DbPointRecord.cpp:597-608 | Filtering introduces no new timestamp. |
| OpcFilter.FilterAllAscending | src/DbPointRecord.cpp:597-608 | Filtering an ascending sequence leaves it ascending. |
| OpcFilter.WhiteListTwice | src/DbPointRecord.cpp:283-286 | A listed point filtered twice by the white list survives exactly when the override quality is itself listed. |
| OpcFilter.CodesToValuesTwice | src/DbPointRecord.cpp:283-286 | Filtering twice by codes-to-values leaves the override quality as the value, not the original quality. |
| Reconcile.GapQueries | src/DbPointRecord.cpp:405-442 | No adapter query exactly when the buffer covers the query, two queries exactly in the external case, at most two otherwise; for an overlapping span every gap lies inside the query. |
| Reconcile.GapsAndBufferCoverQuery | src/DbPointRecord.cpp:405-442 | Every instant of the query lies in an adapter gap or in the buffered part, and the buffered part lies inside both the span and the query. |
| Reconcile.DedupTimes | src/DbPointRecord.cpp:451-461 | The merged result lies in the query, and its times are exactly the input times inside the query. |
| Reconcile.DedupDistinct | src/DbPointRecord.cpp:451-461 | No time occurs twice in the merged result. |
| Reconcile.DedupKeepsFirst | src/DbPointRecord.cpp:451-461 | Each kept point is the first input point with its time. |
| Reconcile.DedupClip | src/DbPointRecord.cpp:451-461 | The loop computes the reference deduplication: distinct times, all inside the query, and exactly the input's times within the query. |
| DbAdapter.Adapter.SelectRange | src/DbPointRecord.cpp:234 | The stored points of the identifier inside the range, ascending, with one logged call. |
| DbAdapter.Adapter.SelectPrevious | src/DbPointRecord.cpp:293 | The latest stored point strictly before `t`, or the sentinel. |
| DbAdapter.Adapter.SelectNext | src/DbPointRecord.cpp:329 | The earliest stored point strictly after `t`, or the sentinel. |
| DbAdapter.Adapter.InsertSingle | src/DbPointRecord.cpp:474 | Upserts one point into the store. |
| DbAdapter.Adapter.InsertRange | src/DbPointRecord.cpp:483 | Upserts the points into the store, later points winning. |
| DbAdapter.Adapter.RemoveRecord | src/DbPointRecord.cpp:513 | Drops the identifier's points and its registration. |
| DbAdapter.Adapter.IdUnitsList | src/DbPointRecord.cpp:191 | Returns the registry. |
| DbAdapter.Adapter.AssignUnitsToRecord | src/DbPointRecord.cpp:144 | Succeeds exactly for a registered identifier, whose units it replaces. |
| DbAdapter.Adapter.InsertIdentifierAndUnits | src/DbPointRecord.cpp:168 | Registers a new identifier, keeps an existing one, and reports success. |
| DbAdapter.Adapter.BeginTransaction | src/DbPointRecord.cpp:200 | Logs the call. |
| DbAdapter.Adapter.EndTransaction | src/DbPointRecord.cpp:206 | Logs the call. |
| DbPointRecords.DoesHaveIdUnits | src/DbPointRecord.cpp:128-130 | The first flag is "the name is registered"; the second is "registered with these units"; the second implies the first. |
| DbPointRecords.Window | src/DbPointRecord.cpp:229-230 | The window a `point` miss fetches contains `t` and spans twice the twelve-hour margin. |
| DbPointRecords.FetchedFacts | src/DbPointRecord.cpp:234-235 | A filtered fetch is ascending, holds only valid points, and lies in the fetched range. |
| DbPointRecords.SpanRequest | src/DbPointRecord.cpp:237-242 | The memo after a `point` fetch runs from the first to the last fetched time, or is `TimeRange()` when nothing came back. |
| DbPointRecords.ScanAtFinds | src/DbPointRecord.cpp:245-254 | Over ascending points the scan yields the point at `t` when there is one, and otherwise the point it started from. |
| DbPointRecords.ScanForTime | src/DbPointRecord.cpp:245-254 | The loop computes the reference scan. |
| DbPointRecords.RangeCalls | src/DbPointRecord.cpp:413-442 | One range call per gap, in order. |
| DbPointRecords.RangeQueryFacts | src/DbPointRecord.cpp:390-467 | What `pointsInRange` returns from any state has distinct times inside the query; it only appends adapter calls and leaves the buffer consistent. |
| DbPointRecords.ProbeWindowsFacts | src/DbPointRecord.cpp:351-356 | The windows of a probing run start at the first window, each next one shifted by the step; there are at most the try limit of them, and fewer only when one answered. |
| DbPointRecords.ProbeAnswerFacts | src/DbPointRecord.cpp:351-356 | A probing run's answer lies in the last window asked; the run keeps the buffer consistent and only appends adapter calls. |
| DbPointRecords.ProbeFacts | src/DbPointRecord.cpp:346-356 | A probing run asks its first window, then windows shifted by the step each time. It asks at most the try limit of them, and fewer only when a window answered. The answer lies in the last window asked. |
| DbPointRecords.PreviousSearchBefore | src/DbPointRecord.cpp:339-362 | The backward search asks `[t-s, t-1]` first, then the windows going back, at most the iteration limit of them and fewer only when one answered. Its last point is before `t` and inside the last window asked. |
| DbPointRecords.NextSearchAfter | src/DbPointRecord.cpp:364-387 | The forward search asks `[t+1, t+s]` first, then the windows going forward, at most the iteration limit of them and fewer only when one answered. Its first point is after `t` and inside the last window asked. |
| DbPointRecords.PreviousProbesBefore | src/DbPointRecord.cpp:345-356 | The backward probe windows have the stride's width, abut one another going back, and hold no instant at or after `t`. |
| DbPointRecords.NextProbesAfter | src/DbPointRecord.cpp:370-381 | The forward probe windows have the stride's width, abut one another going forward, and hold no instant at or before `t`. |
| DbPointRecords.DbPointRecord.constructor | src/DbPointRecord.cpp:52-66 | A new record has an empty buffer and registry, a cleared memo, a read-only flag that is false, passes points through, and has the default search limits. |
| DbPointRecords.DbPointRecord.SetReadonly | src/DbPointRecord.cpp:94-111 | With an adapter that is read-only by implementation, the stored flag is false and the record is read-only; otherwise the flag becomes the argument. |
| DbPointRecords.DbPointRecord.RegisterLocally | src/DbPointRecord.cpp:138 | Local registration records the units and succeeds. |
| DbPointRecords.DbPointRecord.RegisterAndGetIdentifierForSeriesWithUnits | src/DbPointRecord.cpp:113-177 | For every combination of empty name, connection, read-only, existing name, matching units and adapter options: the result, the local and adapter registries, and the exact adapter calls. The remove-and-reregister branch is proved unreachable. |
| DbPointRecords.DbPointRecord.BeginBulkOperation | src/DbPointRecord.cpp:198-202 | Begins an adapter transaction exactly when connected. |
| DbPointRecords.DbPointRecord.EndBulkOperation | src/DbPointRecord.cpp:204-208 | Ends an adapter transaction exactly when connected. |
| DbPointRecords.DbPointRecord.PointsWithOpcFilter | src/DbPointRecord.cpp:597-608 | The loop computes the reference filter of the sequence. |
| DbPointRecords.DbPointRecord.FetchFiltered | src/DbPointRecord.cpp:234-235 | One range call, whose result is filtered. |
| DbPointRecords.DbPointRecord.PointAt | src/DbPointRecord.cpp:211-262 | A valid answer is at `t`. A buffer hit, a memo hit or no connection makes no adapter call and keeps the state. Otherwise: exactly one call for the window around `t`; the filtered points are buffered and memoized by their span; the answer is the fetched point at `t`, else the buffered one. |
| DbPointRecords.DbPointRecord.FetchAround | src/DbPointRecord.cpp:229-256 | The fetch half of `point`: one range call, buffer and memo updated, the point at `t` found when fetched. |
| DbPointRecords.DbPointRecord.GatherMerged | src/DbPointRecord.cpp:409-449 | The merged points, fetched and buffered, are the reference assembly, and the adapter calls are exactly one per gap. |
| DbPointRecords.DbPointRecord.GatherLeft | src/DbPointRecord.cpp:413-419 | The left case: fetch the part before the buffer, read the buffered part, and make exactly one call. |
| DbPointRecords.DbPointRecord.GatherRight | src/DbPointRecord.cpp:420-426 | The right case: read the buffered part, fetch the part after the buffer, and make exactly one call. |
| DbPointRecords.DbPointRecord.GatherExternal | src/DbPointRecord.cpp:427-439 | The external case: fetch both flanks around the buffered span, with two calls. |
| DbPointRecords.DbPointRecord.GatherDisjoint | src/DbPointRecord.cpp:440-442 | The disjoint case: fetch the whole query with one call. |
| DbPointRecords.DbPointRecord.PointsInRange | src/DbPointRecord.cpp:390-467 | The answer and the new state are those of the reference range query from the old state. The result has distinct times inside the query. When the memo or the buffer covers the query, it is the buffered points, with no call and no state change. Otherwise: exactly the gap calls; the result is the deduplicated assembly with exactly its times in the query; it is buffered; the memo becomes the query when the result is nonempty, else `TimeRange()`. |
| DbPointRecords.DbPointRecord.RefreshRange | src/DbPointRecord.cpp:409-464 | The adapter half of `pointsInRange`: its answer and new state are the reference range query's for a query the buffer does not serve. |
| DbPointRecords.DbPointRecord.Remember | src/DbPointRecord.cpp:463-464 | The deduplicated points are buffered, and the memo is set as the source sets it. |
| DbPointRecords.DbPointRecord.ProbeWindow | src/DbPointRecord.cpp:352 | One probe is one `pointsInRange` call: its answer and new state are the reference range query's, so the log grows by exactly the gap calls, and the probing run advances by one window. |
| DbPointRecords.DbPointRecord.ProbeWindows | src/DbPointRecord.cpp:346-356 | The probing loop's points, new state and windows asked are the reference probing run from the old state. |
| DbPointRecords.DbPointRecord.SearchPreviousIteratively | src/DbPointRecord.cpp:339-362 | Without a connection it probes nothing and changes nothing. Otherwise its answer, windows and new state are the reference backward search's: each window is one `pointsInRange` call from the state the last one left, at most the iteration limit of them, stopping at the first nonempty one. The answer is that window's last point, before `t`, or the sentinel when every probe was empty. |
| DbPointRecords.DbPointRecord.SearchNextIteratively | src/DbPointRecord.cpp:364-387 | Without a connection it probes nothing and changes nothing. Otherwise its answer, windows and new state are the reference forward search's: each window is one `pointsInRange` call from the state the last one left, at most the iteration limit of them, stopping at the first nonempty one. The answer is that window's first point, after `t`, or the sentinel when every probe was empty. |
| DbPointRecords.DbPointRecord.PointBefore | src/DbPointRecord.cpp:265-301 | A valid answer is before `t`. A buffer hit or memo hit returns without calls. With iterative search, the buffer and memo are those the backward search leaves; a point it finds is returned filtered; otherwise a singly bound query adds one call and returns the filtered store point before `t`, or the sentinel. With neither option it returns the sentinel. |
| DbPointRecords.DbPointRecord.PointAfter | src/DbPointRecord.cpp:304-336 | A valid answer is after `t`. A buffer hit or memo hit returns without calls. With iterative search, the buffer and memo are those the forward search leaves; a point it finds is returned filtered; otherwise a singly bound query adds one call and returns the filtered store point after `t`, or the sentinel. With neither option it returns the sentinel. |
| DbPointRecords.DbPointRecord.AddPoint | src/DbPointRecord.cpp:470-476 | When writable, the point goes to the buffer and the store with one insert call; when read-only, nothing changes. |
| DbPointRecords.DbPointRecord.AddPoints | src/DbPointRecord.cpp:479-485 | When writable, the points go to the buffer and the store with one insert call; when read-only, nothing changes. |
| DbPointRecords.DbPointRecord.Reset | src/DbPointRecord.cpp:488-495 | When writable, the whole buffer is emptied; when read-only, nothing changes. |
| DbPointRecords.DbPointRecord.ResetIdentifier | src/DbPointRecord.cpp:498-509 | When writable, the identifier's buffer is dropped and the memo cleared; when read-only, nothing changes. |
| DbPointRecords.DbPointRecord.Invalidate | src/DbPointRecord.cpp:511-516 | When writable, the record is removed from the adapter, its buffer dropped and the memo cleared; when read-only, nothing changes. |
| DbPointRecords.DbPointRecord.SetOpcFilterType | src/DbPointRecord.cpp:521-565 | It throws exactly when changing to no filter. The type is stored. The buffer is emptied exactly when the type changes. The installed filter changes only to a real filter. |
| DbPointRecords.DbPointRecord.ClearOpcFilterList | src/DbPointRecord.cpp:575-579 | Empties the code list and the buffer. |
| DbPointRecords.DbPointRecord.AddOpcFilterCode | src/DbPointRecord.cpp:581-585 | Adds the code and empties the buffer. |
| DbPointRecords.DbPointRecord.RemoveOpcFilterCode | src/DbPointRecord.cpp:587-593 | Removes the code, emptying the buffer only when it was listed. |
| DbPointRecords.RepeatedRangeQuery | src/DbPointRecord.cpp:394-464 | Asking the same range twice, when the first answer is nonempty or already served from memory, costs no second adapter call and returns the buffered points. |
| DbPointRecords.PointTwiceAfterEmptyWindow | src/DbPointRecord.cpp:237-242 | A `point` miss whose window is empty memoizes `TimeRange()`, so asking again for the same nonzero time calls the adapter a second time. |
| DbPointRecords.ResetThenPoint | src/DbPointRecord.cpp:498-509 | After `reset(id)` on a writable record, no point of a named identifier is served from the memo: the next `point(id, t)` makes exactly one call for the window around `t`, memoizes its span, buffers it, and answers with the fetched point at `t` or the sentinel. |
| DbPointRecords.InvalidateThenQuery | src/DbPointRecord.cpp:511-516 | After invalidating a writable record, a range query for that identifier returns nothing. |
| EpanetSections.ExtentFrom | src/EpanetModelExporter.cpp:34-35 | How far `.*` reaches: the next line terminator or the end of the line, with none in between. |
| EpanetSections.LastCloseIn | src/EpanetModelExporter.cpp:34-35 | The last `]` in a span (the greedy back-off point), or none when the span has no `]`. |
| EpanetSections.MatchAt | src/EpanetModelExporter.cpp:34-35 | A match starting at `i` is a `[` at `i` and a `]` after it, with no line terminator between. |
| EpanetSections.SearchFrom | src/EpanetModelExporter.cpp:34-35 | `regex_search` yields the leftmost starting index that matches, with no match at any earlier index, or none at all. |
| EpanetSections.BracketTitle | src/EpanetModelExporter.cpp:35-36 | A captured title sits between a `[` and a `]` of the line. |
| EpanetSections.SectionFromLine | src/EpanetModelExporter.cpp:31-47 | A line without `[` is in no section; a line is the CONTROLS header exactly when the captured title is `CONTROLS`. |
| EpanetSections.ControlsLineHasHeader | src/EpanetModelExporter.cpp:31-47 | A line classified as CONTROLS contains `[CONTROLS]`. |
| EpanetSections.TitleIsFirstOpenToLastClose | src/EpanetModelExporter.cpp:33-44 | The title runs from the first `[` to the last `]` when no terminator lies between, and the line is the header exactly when that text is `CONTROLS`. |
| EpanetSections.UnclosedBracketIsNoSection | src/EpanetModelExporter.cpp:33-35 | No `]` after the first `[` means no match and no section. |
| EpanetSections.ControlsHeader | src/EpanetModelExporter.cpp:26-28 | `[CONTROLS]` classifies as CONTROLS. |
| EpanetSections.ControlsHeaderWithCarriageReturn | src/EpanetModelExporter.cpp:34-36 | So does `[CONTROLS]` followed by a carriage return. |
| EpanetSections.TwoBracketPairs | src/EpanetModelExporter.cpp:34-36 | `[TAGS] [CONTROLS]` captures across both pairs and is in no section. |
| EpanetControls.Clamp | src/EpanetModelExporter.cpp:270 | `max(0, v)`: non-negative, at least `v`, and either `v` or 0. |
| EpanetControls.ControlTimes | src/EpanetModelExporter.cpp:250-251 | The control times ascend strictly and are exactly the setting times together with the status times. |
| EpanetControls.PreviousSetting | src/EpanetModelExporter.cpp:274-277 | An earlier setting exists exactly when some setting time is before `t`, and then it is the value at the latest such time. |
| EpanetControls.TimeMap | src/EpanetModelExporter.cpp:235-247 | The map's keys are exactly the points' times, each point filed under its own time. |
| EpanetControls.BlockLines | src/EpanetModelExporter.cpp:257-281 | A block writes a blank line, a comment, then one line per statement, and nothing it writes is a copied line. |
| EpanetControls.IndexByTime | src/EpanetModelExporter.cpp:235-247 | The indexing loops compute the reference time map. |
| EpanetControls.ControlsAtTime | src/EpanetModelExporter.cpp:260-281 | One iteration writes the reference statements for `t` and updates `isOpen` by the status at `t`. |
| EpanetControls.ControlsForTimes | src/EpanetModelExporter.cpp:259-282 | The time loop writes the reference schedule. |
| EpanetControls.LinkControls | src/EpanetModelExporter.cpp:250-282 | A link's statements are the reference schedule over its control times. |
| EpanetControls.LinkControlBlock | src/EpanetModelExporter.cpp:233-283 | A link's block is the reference block. |
| EpanetControls.ControlBlocks | src/EpanetModelExporter.cpp:223-283 | The blocks of pipes, then pumps, then valves. |
| EpanetControls.WriteBlocks | src/EpanetModelExporter.cpp:255-281 | The written lines of the blocks. |
| EpanetControls.RewriteInp | src/EpanetModelExporter.cpp:217-288 | The whole rewrite loop computes the reference rewritten file. |
| EpanetControls.ScheduleAtTime | src/EpanetModelExporter.cpp:259-281 | Over strictly increasing times, the statements at the k-th time are those that time produces given the open state after the earlier times. |
| EpanetControls.OpenAfterIsOpenBefore | src/EpanetModelExporter.cpp:256-266 | The `isOpen` left by the earlier times equals "open just before": open when no earlier status exists, else the latest earlier status. |
| EpanetControls.LinkScheduleAt | src/EpanetModelExporter.cpp:256-281 | The statements at each time are the ones dictated by that time's status and setting and the open state just before it; a time without either gets none. |
| EpanetControls.StatusOncePerStatusTime | src/EpanetModelExporter.cpp:262-266 | At a status time, the first statement is that status; no other statement is a status, and no non-status time has one. |
| EpanetControls.SettingsOnlyWhileOpen | src/EpanetModelExporter.cpp:268-279 | Every setting written is at a time the link is open and is non-negative. It is the clamped own setting, or, at a reopening without a setting, the clamped latest earlier setting. |
| EpanetControls.SettingWrittenWhileOpen | src/EpanetModelExporter.cpp:268-271 | A setting at a time the link is open is written, clamped. |
| EpanetControls.ReopeningRestoresSetting | src/EpanetModelExporter.cpp:272-279 | Opening a link at a time without its own setting re-writes the latest earlier setting, clamped, when there is one. |
| EpanetControls.ClosedLinkGetsNoSetting | src/EpanetModelExporter.cpp:268 | At a time the link is closed only a status can be written. |
| EpanetControls.LinkScheduleOrdered | src/EpanetModelExporter.cpp:250-259 | The statements come in time order, each at a setting or status time. |
| EpanetControls.ScheduleEmptyIff | src/EpanetModelExporter.cpp:250-258 | A link gets no statements exactly when it has neither settings nor statuses. |
| EpanetControls.LinkBlockPresent | src/EpanetModelExporter.cpp:255-257 | A block is written exactly when the link has a setting or a status point, and then it names the link and holds at least one statement. |
| EpanetControls.LineOutputCopied | src/EpanetModelExporter.cpp:218-288 | Each input line's output copies that line exactly once. |
| EpanetControls.EveryLineCopied | src/EpanetModelExporter.cpp:217-288 | The copied lines of the rewritten file are the input lines, in order. |
| EpanetControls.NoHeaderNoChange | src/EpanetModelExporter.cpp:286-287 | A file with no CONTROLS header is copied line for line. |

## Left out

- Locking: the record's mutex and every concurrency concern are not modelled.
- Connection retry: `checkConnected`/`dbConnect` (up to four connection attempts) become the adapter's `connected` flag. The reconnect inside the filter mutators is not modelled.
- Connection strings: `setConnectionString`, `connectionString` and `isConnected` only forward to the adapter and are not modelled.
- Units cache: the freshness check of the `identifiersAndUnits` cache is not modelled. Every registration reads the adapter's list, and this shows in the call log.
- Diagnostics: the messages written to `cerr` are not modelled.
- Numbers: point values and confidences are `double` in the source and integers here. `time_t` is an unbounded integer, so overflow near its limits is not modelled.
- Override quality: `Point::opc_rtx_override` is declared in Point.h, which is not part of this model. A stand-in constant takes its place, and no property depends on its value.
- Buffer and adapter: the buffer tier and the adapter are not part of this model. The model's versions state the behaviour the record relies on: per identifier a map from time to point, range reads in time order, later writes win, and before/after reads take the nearest point.
- Adapter registry: the adapter's registry calls succeed as described above. A real database may fail them, and that failure path is not modelled.
- TimeRange: `TimeRange` and its `intersection` are not part of this model. The classification follows the record's five cases, tried in the order internal, left, right, external, and is proved to be total and disjoint from the fall-back case for well-formed ranges.
- Exporter inputs: the exporter's input time series (`pointCollection(_range).asDelta()` of each link's setting and status boundaries) are given as point sequences per link. How they are computed is not modelled.
- Exporter output: output lines are modelled as structured values (copied line, blank line, block comment, status, setting). The `hrs` conversion and the text formatting of a statement are not modelled.
- Exporter I/O and toolkit calls: the temporary `.inp` file, the `OW_*` calls of the EPANET toolkit, the pattern and base-demand export, `_epanet_make_pattern` and the rest of `EpanetModelExporter` are not modelled.
- IntegratorTimeSeries.cpp is not part of this model.
- Regular expression: the pattern is modelled with ECMAScript `.` excluding `\n` and `\r`. The line given by `getline` contains no `\n`, so of the two only `\r` can matter.
- Empty series: an identifier with no buffered point spans `TimeRange()`, the instant 0, and is classified like any other span. So a range query for exactly `[0, 0]` against an empty series counts as covered by the buffer and returns nothing without calling the adapter. The model follows the code here.
- Buffer contents: the buffer tier here has no eviction and no contiguity rule. Its span runs from the first to the last buffered time, so a span with holes that covers a query is served as complete, exactly as the record's `Internal` case does.
- EpanetControls.Blocks: states only that there is at most one block per link. What each block holds is stated by LinkBlockPresent and LinkScheduleAt.

## Behaviour worth noting

- **`point` after an empty window.**
  - The comment in `point` (src/DbPointRecord.cpp:221-222) says that when the last request covered the range and nothing was found, the point is just not there.
  - A `point` miss whose fetched window holds no point memoizes `TimeRange()`, which covers only time 0. A second `point` for the same nonzero time then calls the adapter again. PointTwiceAfterEmptyWindow proves this.
- **Read-only registration.**
  - The code: in the read-only branch, the units are assigned without checking that the name exists, because `existingUnits` is always the no-units value.
  - In the writable branch, when the units differ, the code returns the assignment's result and does not register locally.
  - The remove-and-reregister branch (lines 162-166) is unreachable.
- **Re-filtering.** `pointBefore` and `pointAfter` run the point found by the iterative search through the filter again. When that point came from the adapter, `pointsInRange` has already filtered it, and WhiteListTwice and CodesToValuesTwice show what the second pass does. Points written with `addPoint`/`addPoints` enter the buffer unfiltered, so for them the pass in `pointBefore`/`pointAfter` is the first.
- **Filter mutators.** The filter mutators empty the buffer but keep the memo of the last request. So after a filter change, a query the memo covers but the buffer no longer holds returns nothing from memory. `setOpcFilterType` with no filter stores the type, flushes the buffer, and then throws.
- **Repeated headers.** Every `[CONTROLS]` header line in the file is followed by a freshly written set of blocks.
