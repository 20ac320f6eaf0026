# Verified model of the `form` client

`form` is a macOS client for a coding agent: a Rust core does the work, and a Swift app shows it. This
project models the logic of the Swift side that has real state, and proves what that logic promises for
every input, every stream of events and every interleaving. Verify it with `dafny verify dfyconfig.toml`.

## What is modelled

**The streaming transcript** (`Wire`, `Replica`, `ChatModel`, `ChatStore`, `ChatTheorems`, `Loading`,
`Streaming`, `Prompts`, `MockRun`). The chat store applies message deltas to a local copy and then compares it with the `partial`
message that the core sends along. `ChatStore` is the object with its fields updated in place; each method is
proved equal to a step of the state machine in `ChatModel`, and the theorems are about runs of that machine.
`Replica.Accumulates` says independently what the core itself would hold after an event. On streams where
each `partial` is that accumulation, the store repairs exactly where it meets a kind of block it does not
know; on any other stream it still converges.

**Rendered text and its markdown source** (`Markdown`, `Rendering`, `SourceMap`, `Selection`, `WholeRun`,
`Builder`, `RenderCache`). `Rendering` says as plain strings what a document looks like on screen and as markdown;
it knows nothing of the builder. For the builder a document is described as a tree of *pieces* without offsets; `Builder` is the mutating one-pass builder,
proved to write exactly those pieces and to return their placement. Tiling, selection coverage and whole-run
copy are inductions over unbounded block and span trees. `RenderCache` is the LRU memo in front of the builder.

**Event plumbing** (`Transport`, `CoreClient`). Two concurrent protocols as interleaved steps: the lifetime
of callback boxes across subscribe, unsubscribe, shutdown and core deliveries; and two drop-oldest buffers
in series with their loss counters.

**Text ranges** (`Highlight`, `HighlightedText`, `FuzzyMatch`). Binary search with rounding, clamp, snap,
sort and merge; the segmentation drawn from it; greedy subsequence matching; and all three end to end.

**Navigation and shortcuts** (`Navigation`, `AppState`, `HistoryRefinement`, `NavigationRuns`, `KeyBinding`,
`KeyWords`, `ShortcutResolver`, `OverrideText`). The bounded history with deletion, its refinement of the two-stack
reference, the key parser with its two printers and the vocabulary both use, and the two-pass allocation of keys
to commands, down to the text of the settings.

## Findings

Some promises hold only under a condition. Each has the exact condition proved, and where the failure needs a
document or a run to be seen, a lemma gives one.

- Whole-run copy (`MarkdownSourceMap.swift:30-38`) loses source when a construct that shows nothing stands at
  either end of the text. `Selection.WholeRunCopyCounterexample` and `WholeRun.TrimmedCounterexample` are a
  paragraph that starts with an empty emphasis. `WholeRun.WholeRunCopyTrimmed` is the condition for the trimmed
  string that is returned: what such ends stand for is blank. `Selection.WholeRunCopy` is the stricter one for
  the text before trimming, with the exact number of characters lost.
- A block of an unknown kind never compares equal, even to itself (`ChatStore.swift:409-422`), so every event
  that shows one counts a repair: `ChatTheorems.UnknownAlwaysRepairs`. Over a truthful run the counter rises by
  exactly the number of such events: `ChatTheorems.TruthfulRunsMirror`.
- A prompt sent between a run's end and the next run's start overtakes prompts already queued:
  `Prompts.ThirdOvertakesSecond` is a run in which it happens, and `Prompts.DispatchOrderIff` says that it is the
  only way dispatch order leaves acceptance order.
- The cache clock wraps. On the call that wraps it, a full cache that misses evicts the entry just built:
  `RenderCache.WrapEvictsTheNewest`; `RenderCache.WrapIsExactIff` says that a hit, or a cache with room, is still
  exact. Cache keys collide when ids contain the separators, and the second request then gets the first one's
  text: `RenderCache.CollisionReturnsTheWrongText`.
- `KeyBinding.swift:133-135` wants both text forms to round-trip. The serialized one does so exactly unless the key
  is one of the nine display glyphs or a blank without a name: `KeyBinding.SerializedRoundTrip`. The displayed
  one depends on the key's capital: `KeyBinding.DisplayRoundTrip`.
- `isHealthy` can read true in the instant between a dropping yield and its counter, while the consumer already
  reads past the gap: `CoreClient.HealthyPastTheGap` is such a run. `CoreClient.PrefixUntilFirstMissing` says
  exactly when the consumer holds a prefix, and `CoreClient.HealthyLineIsGaplessIff` that this instant is the
  only exception.
- A prompt that has to wait loses its attachments: the queue keeps texts only (`ChatStore.swift:455-478`).
  `Streaming.QueueingDropsAttachments`.
- The `Code` segment should restore the last session (`AppState.swift:87-97`). After the session on screen is
  forgotten and another takes its place, that other one is not remembered:
  `NavigationRuns.CodeMissesTheFallback`. It is the only way to lose it: `NavigationRuns.RemembersIff`.
- A highlight range that starts before the text is moved to its beginning, not cut
  (`HighlightGeometry.swift:72-77`): `Highlight.HitsIffSharesUnit`.
- The comments in `KeyBinding.swift` write `cmd+shift+n`; the code writes `shift+cmd+n`, which is what
  `KeyWords.PrintedModifiers` states. Both read the same.
- The history and its reference keep 49 and 50 places to go back to. They agree fully throughout a run exactly
  when the history is never cut: `HistoryRefinement.FullAgreementThroughoutIff`. A cut is not made up for as long
  as no back step is refused (`HistoryRefinement.FullAgreementIff`); after a refused one it can be
  (`HistoryRefinement.AgreementRegained`).

## Model

| member | source | states |
|---|---|---|
| `Replica.ShapeDiffers` | app/Sources/FormCore/Stores/ChatStore.swift:409-422 | the comparison loop with early returns answers whether the two contents differ in block count, kind, text or tool id |
| `Replica.ShapeOfSelf` | app/Sources/FormCore/Stores/ChatStore.swift:409-422 | a content has its own shape if and only if it holds no block of unknown kind |
| `Replica.StepSimulates` | app/Sources/FormCore/Stores/ChatStore.swift:251-333 | from any local copy alike, applying one event incrementally gives what the core's own accumulation is, up to metadata; the store's comparison then differs if and only if a block is unknown |
| `Replica.AlikeDiffersIff` | app/Sources/FormCore/Stores/ChatStore.swift:409-422 | of contents equal up to metadata, the comparison says they differ exactly when one holds a block of unknown kind |
| `Replica.DeltasRebuildPartial` | app/Sources/FormCore/Stores/ChatStore.swift:241-320 | on every clean stream the deltas alone, with reconciliation off, rebuild the last `partial` up to metadata |
| `Replica.EndHeals` | app/Sources/FormCore/Stores/ChatStore.swift:262-312 | an event that says all of its block, the end of a text or any of a tool call, puts a wrong local block right without the help of `partial` |
| `ChatTheorems.TruthfulRunsMirror` | app/Sources/FormCore/Stores/ChatStore.swift:156-320 | on every run whose partials are the core's accumulation, interleaved over any number of messages and sessions, the store mirrors the core and the repair counter rises by exactly the number of events that show an unknown block |
| `ChatTheorems.TruthfulRunsNeverRepair` | app/Sources/FormCore/Stores/ChatStore.swift:156-320 | so the counter of such a run does not move if and only if every `partial` is of known blocks |
| `ChatTheorems.UnknownAlwaysRepairs` | app/Sources/FormCore/Stores/ChatStore.swift:371-422 | an event whose `partial` holds an unknown block counts a repair, whatever the store holds |
| `ChatTheorems.Converges` | app/Sources/FormCore/Stores/ChatStore.swift:241-422 | after any event with a `partial`, whatever its index and delta, the entry's content is the partial's, no other entry changed, the counter rose by one exactly if the shapes differed, and the rest of the message is adopted unless the content was already the same |
| `ChatTheorems.TerminalAdopts` | app/Sources/FormCore/Stores/ChatStore.swift:244-249 | a terminal event leaves exactly the terminal message, touches no other entry and clears the partial tool arguments |
| `ChatTheorems.LastPartialWins` | app/Sources/FormCore/Stores/ChatStore.swift:241-407 | over an interleaved run the last event for an entry decides its content |
| `ChatTheorems.OtherEntriesUntouched` | app/Sources/FormCore/Stores/ChatStore.swift:156-237 | an event changes no entry but the one it addresses |
| `ChatTheorems.CachedLookupIsSearch` | app/Sources/FormCore/Stores/ChatStore.swift:424-431 | however stale the cached index, the lookup finds what a plain search finds |
| `ChatTheorems.EventsKeepIdentity` | app/Sources/FormCore/Stores/ChatStore.swift:171-188 | every event sequence keeps ids distinct and only appends to their order |
| `ChatTheorems.RunKeepsDistinctIds` | app/Sources/FormCore/Stores/ChatStore.swift:114-188 | so does every run with loads, sends and removals, if fetched transcripts have distinct ids |
| `ChatTheorems.LoadOrder` | app/Sources/FormCore/Stores/ChatStore.swift:122-126 | a load yields the fetched ids followed by the streamed-only ids in order of arrival |
| `ChatTheorems.LoadStreamedWins` | app/Sources/FormCore/Stores/ChatStore.swift:119-125 | every entry streamed while the query was in flight is in the result as streamed |
| `ChatTheorems.LoadKeepsFetched` | app/Sources/FormCore/Stores/ChatStore.swift:122-126 | every other fetched entry stays where the fetch had it |
| `Loading.LoadFinishMerges` | app/Sources/FormCore/Stores/ChatStore.swift:117-126 | over the store's own step: fetched ids, then streamed-only ids; every streamed entry as streamed, other fetched entries in place, nothing else changed |
| `Loading.LateOrFailedLoadIsIgnored` | app/Sources/FormCore/Stores/ChatStore.swift:117-130 | an answer for another session, or a failed query, changes nothing |
| `Loading.LoadBeginStartsOver` | app/Sources/FormCore/Stores/ChatStore.swift:114-152 | showing another session empties transcript, queue and streaming state and keeps what was sent; showing the same one does nothing |
| `Loading.ShowsWhatWasAnnounced` | app/Sources/FormCore/Stores/ChatStore.swift:114-188 | from then on the transcript is exactly what has been announced on the session, and counts as loaded from the first announcement on |
| `Loading.LoadOverRun` | app/Sources/FormCore/Stores/ChatStore.swift:114-188 | over every run: show a session, let anything happen, receive the answer; the transcript is the fetched one followed by what only the stream announced |
| `ChatStore.ChatStore.FirstIndex` | app/Sources/FormCore/Stores/ChatStore.swift:428-428 | the search loop finds the first entry with the id, or none if there is none |
| `ChatStore.ChatStore.AssistantIndex` | app/Sources/FormCore/Stores/ChatStore.swift:424-431 | result and new cache are the cached lookup of the old state |
| `ChatStore.ChatStore.Upsert` | app/Sources/FormCore/Stores/ChatStore.swift:230-237 | the entry replaces the one with its id, or is appended; the transcript counts as loaded |
| `ChatStore.ChatStore.EnsureBlock` | app/Sources/FormCore/Stores/ChatStore.swift:322-341 | the padding loop reaches its closed form, keeps what was there and changes nothing on other kinds of entry |
| `ChatStore.ChatStore.ApplyContent` | app/Sources/FormCore/Stores/ChatStore.swift:251-315 | the switch over events changes exactly one message's content, to the incremental step of the event; every index used is in bounds |
| `ChatStore.ChatStore.Reconcile` | app/Sources/FormCore/Stores/ChatStore.swift:371-407 | assert-and-repair: equal content stays, different metadata is adopted silently, different shape is adopted and counted |
| `ChatStore.ChatStore.ApplyMessageEvent` | app/Sources/FormCore/Stores/ChatStore.swift:241-320 | the whole new store is the model's step for the message event |
| `ChatStore.ChatStore.Apply` | app/Sources/FormCore/Stores/ChatStore.swift:156-228 | the whole new store is the model's step for the event, nothing for other sessions |
| `ChatStore.ChatStore.BeginLoad` | app/Sources/FormCore/Stores/ChatStore.swift:114-152 | a new session resets the store before the query suspends |
| `ChatStore.ChatStore.FinishLoad` | app/Sources/FormCore/Stores/ChatStore.swift:117-130 | the resumed load is the step that `Loading.LoadFinishMerges` describes, unless the query failed or the user moved on |
| `ChatStore.ChatStore.SendPromptText` | app/Sources/FormCore/Stores/ChatStore.swift:455-470 | a blank prompt does nothing, a prompt during a run is queued, any other is dispatched trimmed |
| `ChatStore.ChatStore.DrainQueue` | app/Sources/FormCore/Stores/ChatStore.swift:472-478 | the oldest queued prompt, if any, moves from the queue to the core |
| `ChatStore.ChatStore.RemoveQueuedAt` | app/Sources/FormCore/Stores/ChatStore.swift:480-483 | exactly the indexed prompt leaves the queue; an index out of range does nothing |
| `Streaming.LiveUntilRetired` | app/Sources/FormCore/Stores/ChatStore.swift:171-188 | an assistant message is the live entry from its start to its end, the run's end or the start of another, whatever else arrives |
| `Streaming.InFlightUntilEnd` | app/Sources/FormCore/Stores/ChatStore.swift:161-220 | a run is in flight from its start to its end |
| `Streaming.ToolTextAccumulates` | app/Sources/FormCore/Stores/ChatStore.swift:292-312 | after a tool block's start the stored arguments are the concatenation of its fragments, in order, and of no other's |
| `Streaming.IdleSendCarriesEverything` | app/Sources/FormCore/Stores/ChatStore.swift:455-470 | an idle send reaches the core with session, trimmed text and attachments, and changes nothing else |
| `Streaming.QueuedSendAbortsIff` | app/Sources/FormCore/Stores/ChatStore.swift:455-470 | a send during a run waits, and asks the run to stop exactly in interrupt mode |
| `Streaming.BlankSendIsIgnored` | app/Sources/FormCore/Stores/ChatStore.swift:455-457 | a blank prompt, or one without a session, does nothing |
| `Streaming.QueueingDropsAttachments` | app/Sources/FormCore/Stores/ChatStore.swift:455-478 | what the end of a run hands over has lost the attachments; an idle send keeps them |
| `Prompts.PromptsAreConserved` | app/Sources/FormCore/Stores/ChatStore.swift:139-220 | over every run each accepted prompt is exactly one of dispatched, queued, removed, discarded; queued prompts leave in acceptance order, at most one per run end |
| `Prompts.SendOvertakesQueue` | app/Sources/FormCore/Stores/ChatStore.swift:455-478 | a step of the store loses the order of acceptance among sent and waiting prompts if and only if it sends a prompt while idle with prompts queued |
| `Prompts.DispatchOrderIff` | app/Sources/FormCore/Stores/ChatStore.swift:455-478 | over every run from an empty queue the order is kept throughout if and only if that never happens |
| `Prompts.ThirdOvertakesSecond` | app/Sources/FormCore/Stores/ChatStore.swift:455-478 | a run of six actions after which the third prompt is sent and the second still waits |
| `Prompts.ThirdOvertakes` | app/Sources/FormCore/Stores/ChatStore.swift:455-478 | in that run a prompt is sent while idle with one queued |
| `MockRun.Chunked` | app/Sources/FormCore/Mock/MockRun.swift:151-172 | the chunks concatenate back to the text, none is empty, and all but the last hold exactly the wanted number of words, cut after whitespace |
| `MockRun.StreamProse` | app/Sources/FormCore/Mock/MockRun.swift:61-91 | streaming a block chunk by chunk keeps the log truthful and appends the concatenated chunks |
| `MockRun.RecordedRun` | app/Sources/FormCore/Mock/MockRun.swift:10-148 | for any reply the log is truthful, its final message holds the thinking, the reply and the tool call, it starts with the prompt's entry, which nothing later addresses, and it ends with the run's end |
| `MockRun.ReplayReconcilesClean` | app/Sources/FormCore/Mock/MockRun.swift:59-113 | replaying such a log into any store on the session repairs nothing and ends with that message on screen |
| `MockRun.ReplayShowsPrompt` | app/Sources/FormCore/Mock/MockRun.swift:10-148 | it also ends with the prompt on screen and no run in flight |
| `Markdown.LongestBacktickRun` | app/Sources/FormMarkdown/Text/MarkdownAttributedBuilder.swift:359-371 | the scan computes the longest run of backticks |
| `Markdown.FenceSurvives` | app/Sources/FormMarkdown/Text/MarkdownAttributedBuilder.swift:227-236 | the fence chosen for inline code occurs nowhere in the code |
| `Rendering.LongestTicksOccur` | app/Sources/FormMarkdown/Text/MarkdownAttributedBuilder.swift:227-236 | and no shorter fence would do |
| `Rendering.DigitsDenote` | app/Sources/FormMarkdown/Text/MarkdownAttributedBuilder.swift:144-154 | printed digits, evaluated, are the number, without a leading zero |
| `Rendering.DecimalDenotes` | app/Sources/FormMarkdown/Text/MarkdownAttributedBuilder.swift:144-154 | so are printed numbers, with a minus sign below zero |
| `Rendering.NumbersCountUp` | app/Sources/FormMarkdown/Text/MarkdownAttributedBuilder.swift:144-144 | list numbers count up by one, and past the largest 64-bit integer comes the smallest |
| `Rendering.OrderedItemOpens` | app/Sources/FormMarkdown/Text/MarkdownAttributedBuilder.swift:143-166 | item k of an ordered list shows its number start + k, a point and its box, and opens its source with prefix, indent, number and task box |
| `Rendering.SpanReads` | app/Sources/FormMarkdown/Text/MarkdownAttributedBuilder.swift:203-265 | every kind of span shows its words and has its own marks in the source |
| `Rendering.BlockReads` | app/Sources/FormMarkdown/Text/MarkdownAttributedBuilder.swift:57-133 | every kind of block, at every depth, reads as the reference says: prefix, indent, pound signs, footnote label |
| `Rendering.ItemsRead` | app/Sources/FormMarkdown/Text/MarkdownAttributedBuilder.swift:135-199 | a list's items follow each other on lines of their own, with their numbers |
| `Rendering.DocumentReads` | app/Sources/FormMarkdown/Text/MarkdownAttributedBuilder.swift:48-265 | text and source of every document are the reference's |
| `SourceMap.DocumentTiles` | app/Sources/FormMarkdown/Text/MarkdownAttributedBuilder.swift:48-319 | for every block tree the nodes tile rendered text and source in order, recursively inside every wrapper, and every literal leaf has the same characters on both sides |
| `SourceMap.PlaceTilesIff` | app/Sources/FormMarkdown/Text/MarkdownAttributedBuilder.swift:271-319 | a node placed anywhere occupies exactly its text's and its source's extent, and no other, and so do its parts |
| `SourceMap.Append` | app/Sources/FormMarkdown/Text/MarkdownSourceMap.swift:60-92 | the recursive walk appends exactly the copy of the node, with every substring call in range |
| `SourceMap.MarkdownFor` | app/Sources/FormMarkdown/Text/MarkdownSourceMap.swift:30-38 | an empty selection gives nothing; any other gives the trimmed copy of all nodes |
| `Selection.SelectionIsCovered` | app/Sources/FormMarkdown/Text/MarkdownSourceMap.swift:30-92 | for every document and selection the emitted pieces stand for exactly the selected characters, each once and in order |
| `Selection.PlainSelectionCopiesText` | app/Sources/FormMarkdown/Text/MarkdownSourceMap.swift:24-92 | if every fully contained node is literal or has empty delimiters, the copy is the selected text itself |
| `Selection.EmissionsAreOnScreen` | app/Sources/FormMarkdown/Text/MarkdownSourceMap.swift:60-92 | every leaf that is literal or only partly selected emits the characters on screen at its positions |
| `Selection.WholeRunCopy` | app/Sources/FormMarkdown/Text/MarkdownSourceMap.swift:60-92 | before trimming, copying everything gives the source if and only if no zero-width node at either end carries source; otherwise it is shorter by exactly that source |
| `WholeRun.WholeRunCopyTrimmed` | app/Sources/FormMarkdown/Text/MarkdownSourceMap.swift:30-92 | for every document, copying everything gives the source, both trimmed, if and only if what the zero-width nodes at either end stand for is blank |
| `WholeRun.TrimmedCounterexample` | app/Sources/FormMarkdown/Text/MarkdownSourceMap.swift:30-38 | with an empty emphasis at the start the trimmed result is not the trimmed source |
| `Selection.WholeRunCopyCounterexample` | app/Sources/FormMarkdown/Text/MarkdownSourceMap.swift:60-92 | an empty emphasis at the start is in the source and is not copied |
| `Selection.SolidRunCopiesExactly` | app/Sources/FormMarkdown/Text/MarkdownSourceMap.swift:30-92 | if every construct shows something, copying everything is exact |
| `Builder.Builder.WriteLiteral` | app/Sources/FormMarkdown/Text/MarkdownAttributedBuilder.swift:271-280 | both buffers grow by the text, and the leaf marks that place in both |
| `Builder.Builder.WriteDelimited` | app/Sources/FormMarkdown/Text/MarkdownAttributedBuilder.swift:282-296 | delimiters go to the source only, around the children; the wrapper's ranges are where they went |
| `Builder.Builder.WriteInline` | app/Sources/FormMarkdown/Text/MarkdownAttributedBuilder.swift:203-265 | the loop writes the spans' pieces and returns their placement |
| `Builder.Builder.WriteSpan` | app/Sources/FormMarkdown/Text/MarkdownAttributedBuilder.swift:203-265 | each kind of span writes its pieces |
| `Builder.Builder.WriteBlock` | app/Sources/FormMarkdown/Text/MarkdownAttributedBuilder.swift:57-133 | each kind of block writes its pieces at its depth; native blocks write nothing |
| `Builder.Builder.WriteItems` | app/Sources/FormMarkdown/Text/MarkdownAttributedBuilder.swift:135-199 | the list loop writes the pieces whose text and source `Rendering.ItemsRead` states |
| `Builder.Builder.WriteBody` | app/Sources/FormMarkdown/Text/MarkdownAttributedBuilder.swift:135-199 | the loop over an item's blocks writes the body's pieces |
| `Builder.Builder.WriteNextInBody` | app/Sources/FormMarkdown/Text/MarkdownAttributedBuilder.swift:135-199 | a first paragraph continues the marker's line, anything else starts a nested line |
| `Builder.Builder.WriteBlocks` | app/Sources/FormMarkdown/Text/MarkdownAttributedBuilder.swift:48-55 | blocks are joined by separators that stand outside both neighbours |
| `Builder.Render` | app/Sources/FormMarkdown/Text/MarkdownAttributedBuilder.swift:26-39 | the text is what the reference shows, the source is its markdown, and the map tiles and agrees with both |
| `Builder.CopySelection` | app/Sources/FormMarkdown/Text/MarkdownSourceMap.swift:96-105 | rendering a run and copying a selection gives the trimmed copy of the map, also for an empty selection |
| `Builder.CopyWholeRun` | app/Sources/FormMarkdown/Text/MarkdownSourceMap.swift:96-105 | with everything selected the result is the trimmed source if and only if every hollow end is blank |
| `RenderCache.MarkdownRenderCache.Rendered` | app/Sources/FormMarkdown/Support/MarkdownRenderCache.swift:31-44 | a hit returns and re-stamps the stored value, a miss stores the built one and trims to capacity |
| `RenderCache.MarkdownRenderCache.EvictIfNeeded` | app/Sources/FormMarkdown/Support/MarkdownRenderCache.swift:46-53 | what goes is just enough, and nothing that goes has a later stamp than anything that stays |
| `RenderCache.RunIsExact` | app/Sources/FormMarkdown/Support/MarkdownRenderCache.swift:31-53 | after any call sequence the clock can count, the cache holds exactly the c most recently used distinct keys |
| `RenderCache.WrapEvictsTheNewest` | app/Sources/FormMarkdown/Support/MarkdownRenderCache.swift:31-53 | at any capacity, the call that wraps the clock evicts its own key if it misses a full cache |
| `RenderCache.WrapIsExactIff` | app/Sources/FormMarkdown/Support/MarkdownRenderCache.swift:31-53 | the wrapping call leaves the most recently used keys if and only if it hits, or there is room, or the capacity is zero |
| `RenderCache.RunWrapsExactlyIff` | app/Sources/FormMarkdown/Support/MarkdownRenderCache.swift:31-53 | the same for the first call of a run that the clock cannot count |
| `RenderCache.RunIsTransparent` | app/Sources/FormMarkdown/Support/MarkdownRenderCache.swift:31-44 | if equal keys stand for equal builds, every call returns what building afresh would |
| `RenderCache.KeyDeterminesIds` | app/Sources/FormMarkdown/Support/MarkdownRenderCache.swift:62-71 | for parts without separators, equal keys mean equal metrics, prefix, depth and block ids |
| `RenderCache.RenderedTextIsTransparent` | app/Sources/FormMarkdown/Support/MarkdownRenderCache.swift:62-71 | then `renderedText` always returns what the direct builder call would |
| `RenderCache.KeysCollideOnSeparators` | app/Sources/FormMarkdown/Support/MarkdownRenderCache.swift:62-71 | two different requests whose ids contain a separator share a key |
| `RenderCache.CollisionReturnsTheWrongText` | app/Sources/FormMarkdown/Support/MarkdownRenderCache.swift:62-71 | then the second of two calls returns the first one's document |
| `Transport.StepKeepsInv` | app/Sources/FormCore/Transport.swift:110-147 | every step of subscribe, unsubscribe, shutdown and delivery keeps the lifetime invariant |
| `Transport.RunKeepsInv` | app/Sources/FormCore/Transport.swift:110-147 | it holds in every state of every interleaving, and every issued token is registered or has been unsubscribed |
| `Transport.CallbackLifetime` | app/Sources/FormCore/Transport.swift:110-147 | a box is retained whenever the core may still deliver on its token, and no longer; each token is unsubscribed at most once; the handle is freed at most once, with no token registered, no box kept, no callback running and no thread in the core |
| `Transport.RegisteredIsRetained` | core/include/form.h:60-73 | every box the core may be handed is kept alive by the table or by the thread registering it |
| `CoreClient.EveryEventIsAccountedFor` | app/Sources/FormCore/CoreClient.swift:69-100 | emitted = received + buffered + in hand + dropped + failed to decode; the consumer sees an in-order subsequence of the decoded emissions; the delivered counter lies between what has arrived and what can have been decoded |
| `CoreClient.BuffersKeepNewest` | app/Sources/FormCore/CoreClient.swift:51-65 | a full buffer loses its oldest element and keeps the newest; taking gives the oldest |
| `CoreClient.HealthyMeansExactPrefix` | app/Sources/FormCore/CoreClient.swift:147-167 | while healthy, the i-th event received is the i-th emitted |
| `CoreClient.PrefixUntilFirstMissing` | app/Sources/FormCore/CoreClient.swift:69-100 | in every state as many emissions are missing as the counters and the drops not yet counted say, and the consumer holds an exact prefix if and only if it has not got past the first missing one |
| `CoreClient.HealthyLineIsGaplessIff` | app/Sources/FormCore/CoreClient.swift:147-167 | while healthy, nothing is missing if and only if no drop awaits its counter; then the consumer holds an exact prefix |
| `CoreClient.HealthyPastTheGap` | app/Sources/FormCore/CoreClient.swift:76-97 | a run that ends healthy although the first event received is the second one emitted |
| `Highlight.BoundaryTable` | app/Sources/FormUI/Commands/HighlightGeometry.swift:42-56 | the loop tabulates the UTF-16 offset of every grapheme boundary |
| `Highlight.Boundary` | app/Sources/FormUI/Commands/HighlightGeometry.swift:98-108 | binary search gives the first boundary at or after, or the last at or before, the clamped offset |
| `Highlight.SnapIsExact` | app/Sources/FormUI/Commands/HighlightGeometry.swift:74-82 | the snapped span covers exactly the graphemes that the range overlaps |
| `Highlight.HitsIffSharesUnit` | app/Sources/FormUI/Commands/HighlightGeometry.swift:72-82 | a range highlights a grapheme exactly if they share a UTF-16 unit, counted from the range's start or the text's, whichever is later |
| `Highlight.Merge` | app/Sources/FormUI/Commands/HighlightGeometry.swift:85-94 | the merge loop gives separated spans with the same coverage |
| `Highlight.Spans` | app/Sources/FormUI/Commands/HighlightGeometry.swift:72-95 | for arbitrary ranges: sorted, in range, strictly apart, and a grapheme is covered iff some clamped range overlaps it |
| `Highlight.CoverageDeterminesSpans` | app/Sources/FormUI/Commands/HighlightGeometry.swift:72-95 | separated spans with the same coverage are equal |
| `Highlight.HighlightIgnoresOrder` | app/Sources/FormUI/Commands/HighlightGeometry.swift:72-95 | the result does not depend on the order or repetition of the ranges |
| `HighlightedText.Segments` | app/Sources/FormUI/Commands/HighlightedText.swift:82-117 | segments concatenate to the text, tile its UTF-16 length, alternate, and mark exactly the overlapped graphemes |
| `FuzzyMatch.Greedy` | app/Sources/FormUI/Commands/FuzzyMatch.swift:38-70 | the scan fails iff the needle is no subsequence, and finds the pointwise earliest embedding |
| `FuzzyMatch.NeedleSpells` | app/Sources/FormUI/Commands/FuzzyMatch.swift:39-39 | the needle is the lowered query at its positions that are not blank, in order |
| `FuzzyMatch.Runs` | app/Sources/FormUI/Commands/FuzzyMatch.swift:72-99 | the runs are apart and hold exactly the matched positions |
| `FuzzyMatch.Subsequence` | app/Sources/FormUI/Commands/FuzzyMatch.swift:27-99 | an empty needle matches, changed length falls back to containment, otherwise the ranges are apart and highlight exactly the earliest embedding |
| `FuzzyMatch.DrawnCharactersSpellNeedle` | app/Sources/FormUI/Commands/HighlightedText.swift:82-104 | the characters drawn as matched are the earliest embedding, so they spell the needle |
| `Navigation.RemovalIsSafe` | app/Sources/FormUI/Shell/AppRoute.swift:94-113 | the route is gone, every other stays, neighbours differ, the index is valid, a current route that was not removed is unchanged, and removing an absent route does nothing |
| `Navigation.KeptInOrder` | app/Sources/FormUI/Shell/AppRoute.swift:94-113 | the places that stay keep their order |
| `Navigation.RemovalFallsBack` | app/Sources/FormUI/Shell/AppRoute.swift:94-113 | when the current route is removed, the nearest earlier survivor becomes current |
| `Navigation.RemovalGoesOn` | app/Sources/FormUI/Shell/AppRoute.swift:94-113 | with no earlier survivor the first later one becomes current, and home when there is none |
| `Navigation.RunKeepsConsistent` | app/Sources/FormUI/Shell/AppState.swift:46-97 | in every reachable state the route is the history's current one, the index is valid and the entries fit the capacity |
| `Navigation.ForgetMakesUnreachable` | app/Sources/FormUI/Shell/AppState.swift:75-80 | forgetting leaves the session in no place navigation can return to |
| `Navigation.ForgottenStaysUnreachable` | app/Sources/FormUI/Shell/AppState.swift:46-97 | no sequence of actions reaches it again until one navigates or replaces to it |
| `HistoryRefinement.HistoryRefinesPreview` | app/Sources/FormUI/Commands/CommandAppState.swift:56-97 | for every run up to the first refused back step: same route, same forward list, and a back list that is the newest part of the reference's |
| `HistoryRefinement.FullAgreementKeptIff` | app/Sources/FormUI/Shell/AppRoute.swift:48-92 | full agreement is lost exactly by showing a new route with 49 places behind |
| `HistoryRefinement.FullAgreementThroughoutIff` | app/Sources/FormUI/Commands/CommandAppState.swift:56-97 | for runs of any length the two agree fully throughout if and only if no step cuts the history |
| `HistoryRefinement.FullAgreementIff` | app/Sources/FormUI/Commands/CommandAppState.swift:56-97 | a run that never cuts has no refused step; and at the end of a run without refused steps the two agree fully if and only if nothing was cut |
| `HistoryRefinement.AgreementRegained` | app/Sources/FormUI/Shell/AppRoute.swift:48-92 | a run with a cut and a refused step after which the two agree fully again |
| `HistoryRefinement.ShortRunsAgreeFully` | app/Sources/FormUI/Shell/AppRoute.swift:48-92 | runs of fewer than fifty operations never cut, so they agree fully |
| `NavigationRuns.AppRunsItsHistory` | app/Sources/FormUI/Shell/AppState.swift:46-85 | the history inside the app after any run of navigations, backs and forwards is the history alone after the same operations, and the route is its current entry |
| `NavigationRuns.AppShowsWhatPreviewShows` | app/Sources/FormUI/Shell/AppState.swift:46-85 | so the app shows what the reference shows, up to the first refused back step |
| `NavigationRuns.BackUndoesNavigate` | app/Sources/FormUI/Shell/AppState.swift:46-73 | back returns from a navigation, and forward repeats it |
| `NavigationRuns.ReplaceChangesCurrent` | app/Sources/FormUI/Shell/AppState.swift:52-58 | replacing changes exactly the current entry |
| `NavigationRuns.RemembersIff` | app/Sources/FormUI/Shell/AppState.swift:75-97 | a step keeps the session on screen remembered unless it forgets that session and lands on another |
| `NavigationRuns.RunRemembers` | app/Sources/FormUI/Shell/AppState.swift:46-97 | so in every run without such a step it is remembered |
| `NavigationRuns.CodeReturnsToLastShown` | app/Sources/FormUI/Shell/AppState.swift:87-97 | through any places that are not sessions, the `Code` segment returns to the last session shown unless it was forgotten |
| `NavigationRuns.HomeThenCode` | app/Sources/FormUI/Shell/AppState.swift:87-97 | home and back again |
| `NavigationRuns.CodeMissesTheFallback` | app/Sources/FormUI/Shell/AppState.swift:75-97 | the run in which the last session shown is not restored |
| `AppState.RouteHistory.Push` | app/Sources/FormUI/Shell/AppRoute.swift:63-74 | the forward part goes, the route is appended, and the oldest entries beyond the capacity go |
| `AppState.RouteHistory.Remove` | app/Sources/FormUI/Shell/AppRoute.swift:97-113 | the loop over entries computes the removal whose safety is proved |
| `AppState.AppState.NavigateTo` | app/Sources/FormUI/Shell/AppState.swift:46-50 | the whole new state is the model's step, whose runs `NavigationRuns` ties to the reference, and stays consistent |
| `AppState.AppState.GoBack` | app/Sources/FormUI/Shell/AppState.swift:64-67 | likewise for back |
| `AppState.AppState.ForgetSession` | app/Sources/FormUI/Shell/AppState.swift:76-80 | likewise for forget, and the session is unreachable |
| `AppState.PreviewAppState.NavigateTo` | app/Sources/FormUI/Commands/CommandAppState.swift:76-82 | the two stacks change as the reference step says |
| `KeyBinding.Parse` | app/Sources/FormUI/Commands/KeyBinding.swift:136-194 | the parser that consumes its remainder is the parsing function of the round trips and of the vocabulary |
| `KeyBinding.TokensRoundTrip` | app/Sources/FormUI/Commands/KeyBinding.swift:81-90 | the tokens of every modifier set parse back to it |
| `KeyBinding.SerializedRoundTrip` | app/Sources/FormUI/Commands/KeyBinding.swift:136-218 | for every modifier set the serialized text reads back as the binding, if and only if the key is no display glyph and no unnamed blank |
| `KeyBinding.DisplayRoundTrip` | app/Sources/FormUI/Commands/KeyBinding.swift:136-208 | the displayed text of a named key reads back; that of a key with a one-character capital does so if and only if the capital lowercases back and is neither a display glyph nor blank |
| `KeyWords.TokenMeans` | app/Sources/FormUI/Commands/KeyBinding.swift:81-90 | a token is a modifier exactly if it is one of that modifier's words or its glyph, in any case |
| `KeyWords.KeyWordReads` | app/Sources/FormUI/Commands/KeyBinding.swift:112-122 | each key word, in any case, reads as its key |
| `KeyWords.KeyGlyphReads` | app/Sources/FormUI/Commands/KeyBinding.swift:112-122 | each display glyph reads as its key |
| `KeyWords.WordsRead` | app/Sources/FormUI/Commands/KeyBinding.swift:136-194 | every text of modifier words, any alias, case, order and number, and a key, joined by `+`, reads as exactly those modifiers and that key |
| `KeyWords.GlyphsRead` | app/Sources/FormUI/Commands/KeyBinding.swift:136-194 | so does every row of modifier glyphs followed by a key |
| `KeyWords.UnknownWordFails` | app/Sources/FormUI/Commands/KeyBinding.swift:136-194 | one word that is no modifier spoils the text |
| `KeyWords.UnknownKeyFails` | app/Sources/FormUI/Commands/KeyBinding.swift:180-194 | a word outside the vocabulary is no key |
| `KeyWords.PrintedModifiers` | app/Sources/FormUI/Commands/KeyBinding.swift:196-218 | both printed forms name each modifier of the set once, in the order control, option, shift, command, by its first word or its glyph |
| `ShortcutResolver.ClaimOverrides` | app/Sources/FormUI/Commands/ShortcutResolver.swift:110-136 | the first loop computes the override pass |
| `ShortcutResolver.FillDefaults` | app/Sources/FormUI/Commands/ShortcutResolver.swift:138-150 | the second loop computes the default pass |
| `ShortcutResolver.OwnerIsWinner` | app/Sources/FormUI/Commands/ShortcutResolver.swift:110-155 | the owner of every key is the first command with it as override, else the first default command that declares it, else none |
| `ShortcutResolver.OwnerIffEffective` | app/Sources/FormUI/Commands/ShortcutResolver.swift:110-155 | a command owns a key if and only if the key is among its effective keys |
| `ShortcutResolver.ConflictFree` | app/Sources/FormUI/Commands/ShortcutResolver.swift:8-16 | no key is effective for two commands |
| `ShortcutResolver.NoDuplicateBindings` | app/Sources/FormUI/Commands/ShortcutResolver.swift:87-90 | the list of all effective keys has no duplicates |
| `ShortcutResolver.OverrideOutcome` | app/Sources/FormUI/Commands/ShortcutResolver.swift:115-136 | a parseable override has exactly its key if it is the first to ask; otherwise it has none and the key is displaced |
| `ShortcutResolver.UnboundOutcome` | app/Sources/FormUI/Commands/ShortcutResolver.swift:117-123 | an empty override leaves the command without keys |
| `ShortcutResolver.DefaultOutcome` | app/Sources/FormUI/Commands/ShortcutResolver.swift:138-150 | each default of a command without effective override is effective or displaced, never both, and nothing else is either |
| `ShortcutResolver.PatchTakesEffect` | app/Sources/FormUI/Commands/ShortcutResolver.swift:94-103 | applying the patch makes the key the command's only one if and only if no earlier command has it as override; otherwise it is displaced |
| `ShortcutResolver.ClearRestoresDefaults` | app/Sources/FormUI/Commands/ShortcutResolver.swift:94-103 | clearing restores exactly the defaults that the rule gives the command |
| `OverrideText.BlankTextUnbinds` | app/Sources/FormUI/Commands/ShortcutResolver.swift:119-123 | an override text of nothing but blanks leaves the command without keys |
| `OverrideText.UnreadableTextIsIgnored` | app/Sources/FormUI/Commands/ShortcutResolver.swift:124-128 | a text that reads as no key resolves, for every command, as if it were not there |
| `OverrideText.ReadableTextBinds` | app/Sources/FormUI/Commands/ShortcutResolver.swift:115-136 | a text that reads as a key gives the command exactly that key, unless an earlier command's text reads as the same one |
| `OverrideText.DefaultBinds` | app/Sources/FormUI/Commands/ShortcutResolver.swift:138-150 | a declared key of a command without a readable override is effective exactly if no text reads as it and no earlier such command declares it; otherwise it is displaced |
| `ShortcutResolver.ShortcutResolver.Apply` | app/Sources/FormUI/Commands/ShortcutResolver.swift:37-42 | after new settings the tables are the resolution of them, also when the early return is taken |
| `ShortcutResolver.ShortcutResolver.Recompute` | app/Sources/FormUI/Commands/ShortcutResolver.swift:110-155 | the tables become the resolution of the current overrides, whose meaning text by text `OverrideText` states |
| `ShortcutResolver.ShortcutResolver.CommandBoundTo` | app/Sources/FormUI/Commands/ShortcutResolver.swift:81-85 | a command that answers to the key, or none if no command does |
| `ShortcutResolver.ShortcutResolver.SettingsPatch` | app/Sources/FormUI/Commands/ShortcutResolver.swift:94-103 | the patched overrides, with the serialized key or without the entry |

## Left out

- Views, themes, fonts, text attributes and layout: presentation, not state.
- Chat store: tool runs, turn and run records, context usage and timestamps are written and never read back by the logic modelled, so they would only add easy members; the debug assertion on drift is not modelled.
- Chat store: content indices are natural numbers, since a negative one would trap in the original.
- Prompts: a prompt counts as dispatched when it is handed to the client; failures that the original swallows and the order in which detached tasks start are not modelled.
- Chat store: the two halves of `load` are separate steps around its suspension; the query's answer is a parameter.
- MockRun: delays, command ids and usage numbers are not modelled, and tool-execution and turn events stand in the log as events the transcript ignores.
- Rust core: what it accumulates is stated as a relation up to provider metadata; the core's code is not modelled.
- Markdown: strings are sequences of UTF-16 units, so a backtick followed by a combining mark counts as a backtick.
- Markdown: whether the reconstructed source parses to the same tree is not stated; the parser is in the core and text is not escaped.
- Builder: images, tables, quotes, code blocks and the other native kinds write nothing to a text run and are one constructor.
- RenderCache: a negative capacity is not modelled, nor is the order of entries with equal stamps, which the original leaves open; the contract admits every order.
- Transport: a state machine over steps of threads rather than an object, because the property is about interleavings; `query` and `dispatch` racing `shutdown` take no lock and are outside it.
- CoreClient: likewise a state machine; finishing the streams on shutdown is not modelled.
- Highlight.Spans: `start + len` is an unbounded sum; the original's machine addition can overflow for huge lengths.
- Highlight.SortByLower: the library sort is an insertion sort here; only sortedness and permutation are used.
- FuzzyMatch.Subsequence: scores are not modelled; casing, the whitespace test and the fallback's containment test are parameters.
- KeyBinding: casing is a parameter, one character at a time; a key whose lowercase form is several characters would trap in the original.
- KeyBinding.DisplayRoundTrip: says nothing of a key without a name whose capital is several characters; what that text reads as depends on the words it spells.
- Navigation: saving and restoring routes is not modelled.
- ShortcutResolver: matching a key event against bindings depends on the window system and is not modelled.
- Codable conformances, catalogues, statistics, keychain, files and pasteboard: many easy members and foreign calls.
