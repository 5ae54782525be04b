# CharlieBot: a verified model of its stateful core

CharlieBot's page keeps long chats, sessions and sidebars in step with a server over one socket. Most of its
hard code is state that two paths must agree on: a list built at once and the same list built bit by bit. This
project models those parts in Dafny and proves what holds over every input, every run or every reachable state.

- **The chat turn engine** (`Transcript`, `SpanRule`, `Derivation`, `Pagination`, `RowList`, `TurnWindow`,
  `TurnEngine`). One ordered store of messages is cut into turns. An input that arrives after its span's first
  reply moves to the next span. The closed form is that segment *k* shows the late inputs of span *k-1* and then
  what stays of span *k*; mount, live append and page prepend are all proved against it. The rows on screen are
  a window of that list between two spacers.
- **The streamed draft** (`StreamDraft`): frames, repeats and snapshots that overlap, and the commit that takes
  the accumulated text over.
- **Nested fences** (`Fences`, `FenceText`): outer code fences grow so that a flat reader (section 4.5 of the
  CommonMark specification) pairs them as the nested scan did.
- **Sessions and the send lock** (`Sessions`), **the socket** (`SocketLink`): switch generations, held composer
  actions, the upload counter; the stale-socket check, the event cursor and the session-list resync.
- **The sidebar** (`Base64`, `Columns`, `Sidebar`): id columns in base64url (section 5 of RFC 4648) through a
  32-bit accumulator, delta columns, and indicators repainted along one ancestor chain.
- **Rendering** (`WideChars`, `MathSpans`, `MathPage`, `Cards`): boxes around wide characters, math spans and
  protected ranges, comment cards in a column.
- **The Rust tools** (`Words`, `Rng`, `Shell`, `EventLog`): the seeded generator, shell quoting nested twice
  (section 2.2 of the POSIX Shell Command Language), and the event log of an exact size.

Imperative sources are classes and loops here, each proved against a specification function or against the
property itself; pure sources are functions with lemmas. Protocols are proved for every interleaving: either
every method of a class keeps `Valid()` and a driver method runs any list of events (`Sessions.Interleave`,
`SocketLink.Interleave`, `StreamDraft.Drive`), or a step relation has an invariant (`StreamDraft`, `Pagination`).

Check everything with `dafny verify dfyconfig.toml`.

## Where the code and its promise part

- `closeSpan`'s parts are disjoint but for one case: a span whose only reply is its first entry has that reply as
  head and as conclusion. `SpanRule.SplitDisjoint` says exactly when. The thrown check concerns fold and carry
  only, so it is still unreachable (`Derivation.CloseSpan`).
- The window is not always exact: the store can change behind a hidden list, and the next frame can be a scroll
  frame that the hysteresis band skips. `TurnEngine.StaleWindow` and `TurnEngine.StaleRow` run into a missing and
  a stale row. A frame that projects always restores the window, a skipped one keeps what was there
  (`Reproject`); a hidden append keeps it exact if and only if the list was not empty and the closed turn lies
  outside the window, and current if and only if the tail does (`AppendMessage`); a hidden page keeps both if and
  only if it adds no segment and derives none of the shown ones again (`PrependMessages`). While hidden, what is
  lost stays lost.
- A snapshot of the *next* draft that overtakes a commit on the wire can make the commit take wrong text;
  `StreamDraft.SnapshotSteals` is such a run. Once every frame of the closed draft has arrived, the commit keeps
  its own text if and only if the snapshot is a prefix of it (`StreamDraft.OvertakingSnapshot`); before that, a
  frame from zero still in flight mends the text (`StreamDraft.OtherDraftReplaces`). Snapshots of the draft the
  page is on never harm a run.
- A changed draft is told by a joined fingerprint. Every frame that changes the draft is reported if and only if
  the draft holds no NUL (`StreamDraft.ChangesAreSeen`); `StreamDraft.ChangeGoesUnseen` runs the page into the
  other case.
- A fence closer longer than its opener is *loose*: the rewrite does not make the two equal. A balanced text reads
  flat as it read nested if and only if no loose closer of the outermost fence's character reaches that fence's
  final length (`Fences.FlatReadsOutermost`, with `Fences.LongCloserBreaks` as the failing input).
- A second pass is idle on every balanced text, but not on every text: `Fences.OutgrownGrowsAgain` is a text it
  changes again. A pass changes nothing if and only if every matched fence is longer than every fence opened
  inside it (`FenceText.FixedIsTheText`, and `FenceText.FixedTwice` for a second pass). The second pass matches
  the lines as the first did if and only if no line outgrows the fence around it (`Fences.SecondScanIsIdle`).
- A page that the server turned away as out of date (close code 4409) and that stays loaded reopens its socket
  without the resync (`SocketLink.TurnedAwayComesBackBlind` runs it). `SocketLink.DownIsMissed` says exactly which
  opens owe one.
- A switch that fails, or whose render throws, leaves the page *stranded*: what is held or pressed then has no
  switch under way to resolve it, until the next move. `Sessions.StrandedPress` runs into it, and
  `Sessions.Interleave` says exactly when, as a function of the events (`NavThrough`).
- The unread broadcast for the session the page has open is recorded without a repaint. From a page where every
  row shows what is due they all still do if and only if the fact did not change, or its row is not on the page
  and every row above it is marked by something else (`Sidebar.Painter.UnreadChanged`); the next event of that
  session repaints it (`Sidebar.Follow`).

## Model

| member | source | states |
|---|---|---|
| `SpanRule.SplitTurnSpan` | web/static/js/chat/shared.js:27-68 | The index loops deal a span by the places of its first and last assistant message: inputs before the first stay, inputs behind it are carried, the last concludes, the head is the last user input, else the last own input, else the first item, and the fold is what lies between without inputs; this is `SplitOf`. |
| `SpanRule.FindConclusion` | web/static/js/chat/shared.js:28-31 | The walk back stops at the last assistant message, with none behind it, or finds none. |
| `SpanRule.FindFirst` | web/static/js/chat/shared.js:33-36 | The walk ends at the first assistant message, and the prelude is what stands before it. |
| `SpanRule.FindHead` | web/static/js/chat/shared.js:52-57 | The head is the own input that is a user message with no user message behind it, else the last own input, else the first item, and exists unless the span is empty. |
| `SpanRule.CollectInputs` | web/static/js/chat/shared.js:27-68 | Own inputs are exactly the stimuli before the first reply, carried ones exactly those from it on, each in order. |
| `SpanRule.CollectFold` | web/static/js/chat/shared.js:27-68 | The fold is the stretch between head and conclusion without what was carried. |
| `SpanRule.SplitReadsKept` | web/static/js/chat/shared.js:16-68 | Head, conclusion and fold are a function of the entries that stay: splitting those again gives the same three and carries nothing. |
| `SpanRule.EarlyIsFixed` | web/static/js/chat/shared.js:16-68 | Giving up the late inputs is idempotent, and inputs and other entries each keep their order. |
| `SpanRule.CarriedInFront` | web/static/js/chat/shared.js:16-68 | Inputs carried into a span stand in front of it and are never carried out of it again. |
| `SpanRule.EarlyAcross` | web/static/js/chat/shared.js:16-68 | Splitting a joined span after its second half already gave up its late inputs gives the same stay and the same total carry. |
| `SpanRule.KeptApart` | web/static/js/chat/shared.js:27-68 | What stays and what is carried partition the span, and nothing stays twice. |
| `SpanRule.HeadPlace` | web/static/js/chat/shared.js:27-68 | The head of a non-empty span exists and stays in it; it is the last user message among the own inputs, else the last of them, else the first entry. |
| `SpanRule.FoldPlace` | web/static/js/chat/shared.js:27-68 | Every fold entry stays in the span and is neither head nor conclusion. |
| `SpanRule.SplitDisjoint` | web/static/js/chat/shared.js:27-68 | Head, conclusion, fold and carry are pairwise disjoint, except that head and conclusion coincide if and only if the span opens with its only reply. |
| `Derivation.DescribeSpan` | web/static/js/chat/turn-engine.js:110-132 | A span with two stable entries or more is described by its last stable one as separator and the turn-input rule, by place, on those before it; any other has no description. |
| `Derivation.DescriptionReadsKept` | web/static/js/chat/turn-engine.js:110-132 | A settled segment derived again from its own entries describes to itself with an empty carry. |
| `Derivation.CloseSpan` | web/static/js/chat/turn-engine.js:338-367 | Closing succeeds for every closing span of distinct entries: the thrown fold check is unreachable. The result is the segment of what stays plus the late inputs: flat without a body, else a turn with the described fold and separator under the ids of head, conclusion and separator. |
| `Derivation.KeyTells` | web/static/js/chat/turn-engine.js:126-132 | Two turns have one key if and only if head, conclusion and separator have the same ids, for ids without a bar. |
| `Derivation.CloseAt` | web/static/js/chat/turn-engine.js:338-367 | Closing span k with its carry in front gives segment k and carries exactly span k's own late inputs. |
| `Derivation.DeriveSegments` | web/static/js/chat/turn-engine.js:318-331 | One pass over any run of distinct entries gives the closed form: every settled segment and the tail. |
| `Derivation.SpansConcat` | web/static/js/chat/turn-engine.js:318-331 | Cutting a concatenation is cutting both halves and gluing the two spans that meet. |
| `Derivation.ReferenceSnoc` | web/static/js/chat/turn-engine.js:1645-1679 | One more entry only grows the tail, or closes it into one more settled segment and leaves the carry as the tail. |
| `Pagination.DerivationConserves` | web/static/js/chat/turn-engine.js:318-367 | Derivation loses and doubles no entry: the segments hold the store as a multiset. |
| `Pagination.ReferenceShows` | web/static/js/chat/turn-engine.js:318-367 | Segment k shows the late inputs of arrival span k-1 followed by what stays of arrival span k. |
| `Pagination.ArrivalOrNext` | web/static/js/chat/turn-engine.js:318-367 | Each entry shows in its arrival span's segment or, if and only if it is an input behind that span's first reply, in the next one; nothing is carried twice. |
| `Pagination.PrependIsBatch` | web/static/js/chat/turn-engine.js:1606-1629 | Deriving the page alone and merging at the boundary gives the batch derivation of page and store together, and derives at most two existing segments again. |
| `Pagination.PrependGrows` | web/static/js/chat/turn-engine.js:1606-1629 | A prepend never leaves fewer segments than before. |
| `Pagination.HandedDistinct` | web/static/js/chat/turn-engine.js:1606-1629 | The region handed on by a pass shares no entry with the segments behind it. |
| `Pagination.DerivedDistinct` | web/static/js/chat/turn-engine.js:1606-1629 | A page and a store without a common entry derive into a region and segments without one. |
| `Pagination.GrownIsBatch` | web/static/js/chat/turn-engine.js:1645-1679 | Growing the segment list by one live entry gives the batch derivation of the longer store, pending tail included. |
| `Pagination.RunIsBatch` | web/static/js/chat/turn-engine.js:1091-1102 | After any interleaving of mounts, appends, prepends and view switches the segments equal the batch derivation of the whole store. |
| `RowList.RemoveRow` | web/static/js/chat/turn-engine.js:907-910 | Removing a segment's node from the list leaves the rows of the other segments in store order. |
| `RowList.ReplaceRow` | web/static/js/chat/turn-engine.js:912-918 | Replacing a node in place keeps every other row and the order. |
| `RowList.InsertRow` | web/static/js/chat/turn-engine.js:919-926 | Inserting before the next row that exists puts the new row at its segment's place. |
| `RowList.FirstRowIs` | web/static/js/chat/turn-engine.js:988-994 | The first row among some segments is the head of their row list. |
| `TurnWindow.EnsureOffsets` | web/static/js/chat/turn-engine.js:449-461 | Offsets are the running sums of the heights, and the total is their sum. |
| `TurnWindow.ComputeTargetRange` | web/static/js/chat/turn-engine.js:708-732 | The range starts at the first segment that reaches down to two screens above the viewport and ends before the first that starts two screens below; past the cap, what is left out in front lies further off than the last kept and what is left out behind no nearer than the first. |
| `TurnWindow.PinnedRange` | web/static/js/chat/turn-engine.js:744-757 | The range ends at the last segment and takes as many as cover viewport and margins and not one more, fewer only at the cap or the list's start. |
| `TurnWindow.WidenForAnchor` | web/static/js/chat/turn-engine.js:869-879 | The range takes in everything up to the anchor, or, past the cap, as much of that around the anchor as it allows; a range that holds the anchor is unchanged. |
| `TurnWindow.Spacers` | web/static/js/chat/turn-engine.js:939-945 | Before rounding, the top spacer is the height above the window, the bottom spacer the height below it, and with the window they add up to the total. |
| `TurnWindow.SurroundsOne` | web/static/js/chat/turn-engine.js:708-732 | One range only is as `ComputeTargetRange` describes. |
| `TurnWindow.TrailsOne` | web/static/js/chat/turn-engine.js:744-757 | One range only is as `PinnedRange` describes. |
| `TurnWindow.WidensOne` | web/static/js/chat/turn-engine.js:869-879 | One range only is as `WidenForAnchor` describes. |
| `TurnEngine.AnchorIndex` | web/static/js/chat/turn-engine.js:1432-1439 | The index is the first segment that holds the anchor, or -1 when none does. |
| `TurnEngine.TurnEngine.NextInWindow` | web/static/js/chat/turn-engine.js:988-994 | The next row is the first existing row among the given segments. |
| `TurnEngine.TurnEngine.ChooseRange` | web/static/js/chat/turn-engine.js:856-879 | The range is valid and capped: while it follows the bottom the trailing segments, else, and on a prepend, those around the viewport, widened to the restore anchor's segment whenever the projection does not snap to the bottom. |
| `TurnEngine.ChosenOne` | web/static/js/chat/turn-engine.js:856-879 | For every segment list, reason and layout that is one range only. |
| `TurnEngine.TurnEngine.EvictOutside` | web/static/js/chat/turn-engine.js:885-910 | After eviction exactly the rows of the window are left, each with its node, in store order. |
| `TurnEngine.TurnEngine.ReplaceStale` | web/static/js/chat/turn-engine.js:890-918 | Every row of the window whose signature moved is rebuilt in place, every other keeps its node; no row appears or goes. |
| `TurnEngine.TurnEngine.InsertMissing` | web/static/js/chat/turn-engine.js:890-926 | Every segment of the window has a row, at its place, and nothing else has; rows that were there keep their nodes. |
| `TurnEngine.TurnEngine.Reproject` | web/static/js/chat/turn-engine.js:780-982 | A visible Everything projection shows exactly the window its reason and layout call for: its rows in store order, current, between the spacers of what lies above and below, with the anchor's segment inside; hidden, For-you and skipped frames change nothing, each exactly when its guard holds. After any but a For-you frame the window is exact, and its rows current, if and only if the frame projected or they were before. No row with a current signature is built again. |
| `TurnEngine.TurnEngine.Reconcile` | web/static/js/chat/turn-engine.js:885-926 | Evicting, replacing and inserting leave exactly the range's segments with a row, each with the signature it needs now, and no row with that signature is built again. |
| `TurnEngine.TurnEngine.Attach` | web/static/js/chat/turn-engine.js:1091-1158 | The segments are the batch derivation of the store, and the window is exact when it is visible. |
| `TurnEngine.TurnEngine.Mount` | web/static/js/chat/turn-engine.js:1082-1085 | The store takes the messages at its back as new entries, and the engine is valid. |
| `TurnEngine.TurnEngine.SetView` | web/static/js/chat/turn-engine.js:1229-1246 | The store carries over; a visible switch to Everything leaves an exact, current window, any other switch no rows at all, and a repeat of the view changes nothing. |
| `TurnEngine.TurnEngine.CloseTail` | web/static/js/chat/turn-engine.js:1645-1679 | The pending tail becomes a settled segment and its carry the next pending tail; settled segments do not move. |
| `TurnEngine.TurnEngine.AppendMessage` | web/static/js/chat/turn-engine.js:1645-1701 | The store gains one entry, the segments equal the batch derivation, no settled segment changes, a separator closes the tail, and a visible window is exact. Behind a hidden list the window is exact if and only if it was, there were segments and a closed turn is outside the window; its rows are also current if and only if they were and the tail is outside the window. |
| `TurnEngine.TurnEngine.LiveEntry` | web/static/js/chat/turn-engine.js:1645-1679 | A live message takes a fresh identity, gets a client id when it has none, and its key joins the records, which stay the keys of the store. |
| `TurnEngine.DecimalTells` | web/static/js/chat/turn-engine.js:1645-1660 | Different live sequence numbers give different client ids. |
| `TurnEngine.CoveredGrows` | web/static/js/chat/turn-engine.js:1645-1701 | With segments added behind, a window is exact if and only if it was and the list was not empty. |
| `TurnEngine.CoveredCloses` | web/static/js/chat/turn-engine.js:1645-1701 | With a segment replaced in place without a row, a window is exact if and only if it was and does not hold that place. |
| `TurnEngine.CoveredShifts` | web/static/js/chat/turn-engine.js:1577-1643 | With a page in front, a window is exact if and only if it was, no segment was added and none it shows was derived again. |
| `TurnEngine.TurnEngine.FreshEntries` | web/static/js/chat/turn-engine.js:1578-1585 | A page adds exactly the messages whose keys the records lack, each key once, in order, and its keys join the records; records are the keys of the store in every valid state. |
| `TurnEngine.FreshOnce` | web/static/js/chat/turn-engine.js:1578-1585 | A key survives the filter if and only if a message has it and no record holds it, and no key survives twice. |
| `TurnEngine.FreshInOrder` | web/static/js/chat/turn-engine.js:1578-1585 | What a page adds stands in the order of the page, every message without a key among it. |
| `TurnEngine.TurnEngine.MergeLoop` | web/static/js/chat/turn-engine.js:1613-1629 | The boundary loop ends, re-derives segments one at a time and leaves all later ones as the same objects. |
| `TurnEngine.TurnEngine.SplicePage` | web/static/js/chat/turn-engine.js:1606-1629 | In place, the segment list becomes the batch derivation of page and store; at most two old segments go, every later one stays untouched. |
| `TurnEngine.TurnEngine.PrependMessages` | web/static/js/chat/turn-engine.js:1577-1643 | New entries land in front, the invariant holds, at most two existing segments are derived again, and a visible window is exact. A page with nothing new changes nothing shown. Behind a hidden list the window is exact, and its rows current, if and only if they were, no segment was added and none it shows was derived again. |
| `TurnEngine.StaleWindow` | web/static/js/chat/turn-engine.js:780-850 | A run of the engine, from mount over a hidden separator to a skipped scroll frame, that leaves a window segment without its row. |
| `TurnEngine.StaleRow` | web/static/js/chat/turn-engine.js:780-850 | A run of the engine in which the shown tail grows behind a hidden list, and a skipped scroll frame leaves its row showing the shorter turn. |
| `StreamDraft.FrameExtends` | web/static/js/stream-draft.js:19-27 | A frame of the held draft leaves exactly the draft up to the larger end if and only if it does not start past what is held. |
| `StreamDraft.SnapshotExtends` | web/static/js/stream-draft.js:19-38 | A snapshot of the draft the page holds part of leaves the longer of the two. |
| `StreamDraft.OtherSnapshotReplaces` | web/static/js/stream-draft.js:19-38 | A snapshot that is no part of that draft replaces what the page holds. |
| `StreamDraft.OtherDraftReplaces` | web/static/js/stream-draft.js:19-27 | A frame from zero whose text differs on the overlap replaces the held text: the first one of another draft, or one that mends what a snapshot of another draft left. |
| `StreamDraft.DeliveriesHold` | web/static/js/stream-draft.js:19-49 | Any sequence of frames, repeats and snapshots without a gap leaves exactly the draft up to the end they reach. |
| `StreamDraft.LargestEnd` | web/static/js/stream-draft.js:19-49 | That end is the largest one seen. |
| `StreamDraft.Page.ResetStreamDraft` | web/static/js/stream-draft.js:13-15 | After a reset any next draft is taken as it comes, whatever was held: no text of the closed draft can match it. |
| `StreamDraft.Page.SeedStreamDraft` | web/static/js/stream-draft.js:30-38 | Of one draft the page ends up with the longer of what it held and what the snapshot has; a snapshot extends both channels, and the tool rows are its own. |
| `StreamDraft.Page.ApplyStreamFrame` | web/static/js/stream-draft.js:42-53 | Each channel of a frame grows its text on its own, from empty when it resets: a part of the held draft leaves the draft up to the larger end exactly when it does not start past what is held, a differing one from zero replaces. Tool rows stay unless the frame carries some or resets. It reports a change exactly when the fingerprint changed; over a draft without a NUL that is exactly when the draft changed. |
| `StreamDraft.ExtendedGrows` | web/static/js/stream-draft.js:19-27 | `extendedStreamText` grows a text so, for every text, frame and length. |
| `StreamDraft.FingerprintTells` | web/static/js/stream-draft.js:51-53 | Fingerprints agree if and only if the tool rows do and content, NUL and thinking join to the same text. |
| `StreamDraft.ChangesAreSeen` | web/static/js/stream-draft.js:42-53 | Every frame that changes the held draft is reported as a change if and only if the draft holds no NUL. |
| `StreamDraft.ChangeGoesUnseen` | web/static/js/stream-draft.js:42-53 | A run of the page in which a catch-up frame changes the draft and reports no change. |
| `StreamDraft.Page.CommitMessage` | web/static/js/websocket-handlers.js:10-37 | The echo of an optimistic send and a message already on the page leave messages and draft alone, each exactly when its guard holds, an echo taking its request off the pending ones and its record over; any other message lands, a streamed one with the held draft, and only an assistant or plan message resets the draft. |
| `StreamDraft.StepKeepsInv` | web/static/js/websocket-handlers.js:153-166 | Every step of server, wire and page (frame, commit, repeat, reconnect, poll, delivery) keeps the invariant that ties the wire to the held text; a poll may deliver any prefix of the draft the page is on, commits in flight or not. |
| `StreamDraft.CommitsTakeTheirOwnDraft` | web/static/js/websocket-handlers.js:24-37 | Over every run each committed message holds exactly the draft it closed: no text of an earlier draft and none missing. |
| `StreamDraft.HandlePacket` | web/static/js/websocket-handlers.js:147-166 | The page's own methods handle a packet as the run does: held text and committed contents stay those of the run. |
| `StreamDraft.Drive` | web/static/js/websocket-handlers.js:10-166 | Driving the page's own methods through any run, every committed message holds exactly the draft it closed, and the page holds a part of the draft it is on. |
| `StreamDraft.OvertakingSnapshot` | web/static/js/sidebar/session-view.js:843-850 | With every frame of a closed draft arrived and its commit next, a snapshot that arrives first leaves the commit its own text if and only if the snapshot is a prefix of that text. |
| `StreamDraft.SnapshotSteals` | web/static/js/sidebar/session-view.js:843-850 | A run from the start in which a snapshot of the next draft overtakes a commit, and the commit takes that draft's text. |
| `Fences.StrictNesting` | web/static/js/markdown-renderer.js:11-52 | In every text, balanced or not, a matched fence ends up strictly longer than every fence line inside it, loose closers apart, and has one length unless its own closer is loose. |
| `Fences.GrowsByOne` | web/static/js/markdown-renderer.js:11-52 | A matched fence that grew ends exactly one above a fence line inside it that its opener was no longer than: none grows without need or further than it must. |
| `Fences.InsideIsShorter` | web/static/js/markdown-renderer.js:11-52 | In a balanced text every fence line inside an open fence ends up shorter than it, at any depth, unless it is a loose closer. |
| `Fences.FlatReadsOutermost` | web/static/js/markdown-renderer.js:11-52 | A flat reader of a rewritten balanced text finds exactly the outermost pairs of the nested scan and ends outside, if and only if no loose closer intrudes. |
| `Fences.EqualClosersDoNotIntrude` | web/static/js/markdown-renderer.js:11-52 | Where every closer is as long as its opener nothing intrudes. |
| `Fences.LongCloserBreaks` | web/static/js/markdown-renderer.js:11-52 | A balanced text with one longer closer that intrudes. |
| `Fences.SecondScanIsIdle` | web/static/js/markdown-renderer.js:11-52 | A second scan matches the lines as the first did if and only if no line outgrows the fence around it, and then it upgrades nothing; on every balanced text it is idle. |
| `Fences.BalancedDoesNotOutgrow` | web/static/js/markdown-renderer.js:11-52 | In a balanced text no line outgrows the fence around it. |
| `Fences.OutgrownGrowsAgain` | web/static/js/markdown-renderer.js:11-52 | A text that leaves fences open and of which a second pass upgrades lines the first one left alone. |
| `Fences.OutgrownMayStay` | web/static/js/markdown-renderer.js:11-52 | A text with an outgrown fence of which a second pass upgrades nothing. |
| `Fences.IdleIffNested` | web/static/js/markdown-renderer.js:11-52 | The scan upgrades nothing if and only if every matched fence is longer than every fence opened inside it. |
| `Fences.RewriteIsIdle` | web/static/js/markdown-renderer.js:11-81 | The rewrite leaves every line as it is if and only if the same holds: an upgrade always makes some line longer. |
| `FenceText.ResizedMatches` | web/static/js/markdown-renderer.js:64-81 | Resizing a fence line changes the delimiter length the line rule reads and nothing else it reads. |
| `FenceText.MatchExact` | web/static/js/markdown-renderer.js:9-9 | A line is a fence of n characters if and only if at most three spaces stand before exactly n backticks or tildes, three or more. |
| `FenceText.ScanFences` | web/static/js/markdown-renderer.js:11-52 | The loop's stack and upgrades are those of the scan over the parsed lines. |
| `FenceText.ScanLine` | web/static/js/markdown-renderer.js:24-48 | One fence line closes the top or opens a fence, noting lengths to the parent, as the scan step does. |
| `FenceText.ApplyFenceUpgrades` | web/static/js/markdown-renderer.js:64-81 | In place and last line first, exactly the upgraded lines are resized. |
| `FenceText.AppliedParses` | web/static/js/markdown-renderer.js:64-81 | Parsing the rewritten lines gives the parsed lines with the upgraded lengths. |
| `FenceText.NothingToFix` | web/static/js/markdown-renderer.js:54-61 | A text without three backticks or tildes in a row is left as it is by the whole pass. |
| `FenceText.FixNestedFences` | web/static/js/markdown-renderer.js:54-61 | The early return agrees with split, scan, rewrite and join. |
| `FenceText.FixedIsFaithful` | web/static/js/markdown-renderer.js:1-81 | The fixed text of a balanced text reads flat with the same outermost open and close lines, if and only if no loose closer intrudes. |
| `FenceText.FixedTwice` | web/static/js/markdown-renderer.js:1-81 | A second pass changes nothing if and only if the first one left every matched fence longer than every fence opened inside it. |
| `FenceText.FixedIsTheText` | web/static/js/markdown-renderer.js:1-81 | A pass changes nothing if and only if every matched fence of the text is longer than every fence opened inside it. |
| `FenceText.FixedOnce` | web/static/js/markdown-renderer.js:1-81 | A second pass changes nothing on every balanced text, and on every other text in which no line outgrows the fence around it. |
| `Sessions.CountsConcat` | web/static/js/chat/displayed-session.js:68-94 | The identities and the upload count of a list of actions add up over concatenation. |
| `Sessions.AllDue` | web/static/js/chat/displayed-session.js:77-94 | When every held action names one session, the due filter for it takes all and leaves none. |
| `Sessions.Bound` | web/static/js/chat/displayed-session.js:68-73 | A newly bound action waits exactly once, at the front or the back, and counts once if an upload. |
| `Sessions.Settled` | web/static/js/chat/displayed-session.js:77-94 | Settling the first outstanding action leaves exactly the others waiting, changes no earlier fate, runs nothing twice and moves an upload from held to running or out. |
| `Sessions.TalliesClose` | web/static/js/file-upload.js:22-27 | Closing one input-work window keeps the map the exact count of open windows. |
| `Sessions.SessionPage.RefreshSendLock` | web/static/js/file-upload.js:212-224 | The button is locked if and only if an upload or an input-work window is open. |
| `Sessions.SessionPage.SetUploadingState` | web/static/js/file-upload.js:228-231 | The counter moves by one and the lock follows. |
| `Sessions.SessionPage.InputWorkStarted` | web/static/js/file-upload.js:17-20 | One more window of the message is open and the button is locked. |
| `Sessions.SessionPage.InputWorkSettled` | web/static/js/file-upload.js:22-27 | One window fewer is open, none if none was, and the lock is exact. |
| `Sessions.SessionPage.BlockIfUploadsInFlight` | web/static/js/file-upload.js:32-36 | The gate refuses exactly while the button is locked. |
| `Sessions.SessionPage.Run` | web/static/js/chat/displayed-session.js:68-81 | The action has run and the others are all that waits. |
| `Sessions.SessionPage.Drop` | web/static/js/file-upload.js:129-136 | A stop or an attachment is dropped, an attachment giving its place in the counter back. |
| `Sessions.SessionPage.RunHeldComposerActions` | web/static/js/chat/displayed-session.js:77-81 | Every held action has run once, in the order they were pressed, and none is held. |
| `Sessions.SessionPage.AbandonHeldComposerActions` | web/static/js/chat/displayed-session.js:87-94 | Every held message has run, in the order they were pressed, every other held action is dropped, each once, and none is held. |
| `Sessions.RunInPressOrder` | web/static/js/chat/displayed-session.js:77-94 | What runs of the held actions, all of them or the messages, runs each once and in the order they were pressed. |
| `Sessions.SessionPage.BindComposerAction` | web/static/js/chat/displayed-session.js:68-73 | An action runs at once if and only if its session is loaded and waits at the back otherwise; the upload counter stays exact. |
| `Sessions.SessionPage.Press` | web/static/js/file-upload.js:112-137 | A press binds the displayed session, is refused exactly without one or for a message while an upload or input work is open, and takes a fresh identity; it runs at once if that session is loaded and joins the held ones at the back otherwise. |
| `Sessions.SessionPage.FinishUpload` | web/static/js/file-upload.js:175-178 | A settled request leaves the running uploads and the counter drops with it. |
| `Sessions.SessionPage.SetDisplayedSession` | web/static/js/chat/displayed-session.js:43-48 | Moving on resolves everything held first: messages run in press order, the rest is dropped and gives its places in the counter back; a repeat of the displayed session keeps it held. |
| `Sessions.SessionPage.SwitchSession` | web/static/js/sidebar/session-view.js:607-660 | A click shows its target at once under a new generation and never writes the active session. Away from the displayed session it runs the held messages in press order, drops every held stop and upload and takes those uploads off the counter; onto the displayed one it keeps them held. Running uploads go on. |
| `Sessions.SessionPage.Land` | web/static/js/sidebar/session-view.js:696-745 | Only the newest generation writes the active session, which is then the displayed one; every held action runs if the render does not throw, and otherwise the page is stranded with what it holds. |
| `Sessions.SessionPage.FailSwitch` | web/static/js/sidebar/session-view.js:672-690 | The newest switch runs the messages it held, drops the rest and leaves the page stranded, an older one changes nothing; the active session and running uploads stay. |
| `Sessions.SessionPage.CreateTaskNode` | web/static/js/sidebar/session-view.js:1217-1266 | The new session is displayed and active and older switches are superseded; moving to it runs the held messages and drops the rest, running uploads go on, and from the welcome page nothing changes. |
| `Sessions.SessionPage.RenderNoActiveSessionView` | web/static/js/sidebar/session-view.js:1268-1296 | No session is active or displayed; the held messages run, the rest is dropped, older switches are superseded, and running uploads and input-work windows stay. |
| `Sessions.Handle` | web/static/js/sidebar/session-view.js:607-745 | Any event keeps the invariant, takes the page exactly where `NavAfter` says, and settles the held actions exactly as `Resolves` says: all run, the messages run and the rest dropped, or all stay held. A press binds or is refused exactly by its guard. Windows change only by input work and by exactly one; a running upload ends only with its own request. |
| `Sessions.NewestWrites` | web/static/js/sidebar/session-view.js:607-745 | The active session changes only by the newest generation's answer, a creation or an archive, and generations never fall. |
| `Sessions.HandleMove` | web/static/js/sidebar/session-view.js:607-745 | Clicks, answers, refusals, creations and archives take the page where `NavAfter` says and settle the held actions as `Resolves` says; windows and running uploads stay. |
| `Sessions.HandlePressed` | web/static/js/file-upload.js:112-137 | A press leaves the page where it is and binds one new action, or none exactly when it is refused. |
| `Sessions.HandleUploaded` | web/static/js/file-upload.js:175-178 | A request's end takes its own upload out of the running ones and no other. |
| `Sessions.HandleWork` | web/static/js/file-upload.js:17-27 | Input work moves its own window count by one and nothing else. |
| `Sessions.Interleave` | web/static/js/chat/displayed-session.js:43-94 | Over every run no fate changes once met, what ran stays as it ran, no message is dropped, every held action names the displayed session, and the lock is open exactly when no upload is held or running and no window is open. The actions held at the start are still held or met their fate by the first event of the run that settles any. The windows are those the run opened and did not settle, an upload runs until its own request ends, the page is where the events took it, and what is held has a switch under way if and only if the events did not leave the page stranded. |
| `Sessions.StrandedPress` | web/static/js/sidebar/session-view.js:672-690 | A run (switch, refusal, stop pressed) that ends with an action held, no switch under way and the displayed session not loaded. |
| `SocketLink.Link.OnlyTheNewestIsHeard` | web/static/js/websocket.js:70-72 | At most the page's own newest socket passes the stale check, and the dispatcher's shorter check by session and generation decides the same. |
| `SocketLink.Link.ConnectWS` | web/static/js/websocket.js:150-174 | A new connecting socket is the only one heard and the retry timers are off; a loss is recorded and a resync marked exactly when an open socket is given up or there is no session. |
| `SocketLink.Link.DisconnectWS` | web/static/js/websocket.js:84-105 | No socket is heard and no retry is armed; a loss is recorded and a resync marked exactly when an open socket is given up. |
| `SocketLink.Link.Opened` | web/static/js/websocket.js:176-192 | A heard open asks for the session list exactly once if frames may have been missed and not otherwise; a stale one changes nothing. |
| `SocketLink.Link.Received` | web/static/js/websocket.js:279-310 | Only the heard socket moves the cursor, only up, and past the index of its frame. |
| `SocketLink.Link.ClosedBy` | web/static/js/websocket.js:209-233 | A heard close, the late one of a silently dead socket included, marks the resync and arms the retry, except with code 4409; a stale one changes nothing. |
| `SocketLink.Link.RetryFires` | web/static/js/websocket.js:120-125 | A due retry connects a new socket for the session, one that is not due changes none. |
| `SocketLink.Link.BecomesVisible` | web/static/js/app.js:71-82 | A visible page replaces a socket that is not open by a new one, never during a switch, and leaves an open one. |
| `SocketLink.Link.Click` | web/static/js/sidebar/session-view.js:607-656 | A click on another session takes the link down and leaves the session with the switch under way; any other click changes nothing. |
| `SocketLink.Link.Land` | web/static/js/sidebar/session-view.js:706-738 | The session changes to the target with its own cursor, the switch is over and a socket for it connects unless the render throws. |
| `SocketLink.Link.FailSwitch` | web/static/js/sidebar/session-view.js:672-690 | A failed switch is over, so that a visible page reconnects; session and sockets stay. |
| `SocketLink.Link.Create` | web/static/js/sidebar/session-view.js:1229-1255 | The page moves to the created session with its cursor, and a new socket for it is the one heard and the switch over unless the render throws; from the welcome page nothing changes. |
| `SocketLink.Link.Archive` | web/static/js/sidebar/session-view.js:1268-1287 | No session, no socket, no switch, no retry, cursor zero. |
| `SocketLink.Handle` | web/static/js/websocket.js:70-310 | Any event adds to the record exactly the opens it reports heard, and a turning away only on a 4409 close. |
| `SocketLink.DownIsMissed` | web/static/js/websocket-handlers.js:79-86 | After the link was last up, frames count as missed if and only if it went down some other way than by being turned away. |
| `SocketLink.EveryLaterOpenOwes` | web/static/js/websocket-handlers.js:79-86 | Without a turning away, every open after the page's first owes exactly one resync. |
| `SocketLink.TurnedAwayComesBackBlind` | web/static/js/websocket.js:217-222 | A run of the link (open, close 4409, visible, open) that opens twice and asks for no list. |
| `SocketLink.Interleave` | web/static/js/websocket.js:70-310 | Over every run a stale socket stays stale, the cursor does not fall while the session stays, the record counts exactly the opens heard, and without a 4409 close in the run the resyncs asked for are those opens less the page's first, unless that one too followed a lost link. |
| `Words.BitsOfValue` | rust/crates/app/mock-home/src/rng.rs:58-64 | Bits and numbers below the word size determine each other. |
| `Words.TimesInverse` | rust/crates/app/mock-home/src/rng.rs:61-62 | A wrapping multiplication is undone by the factor's inverse modulo 2^64. |
| `Rng.FoldInverse` | rust/crates/app/mock-home/src/rng.rs:61-63 | A fold by 22 bits or more is undone, from both sides. |
| `Rng.MixIsABijection` | rust/crates/app/mock-home/src/rng.rs:58-64 | SplitMix64's mixing is a bijection on 64-bit words. |
| `Rng.MixZero` | rust/crates/app/mock-home/src/rng.rs:58-64 | Only zero mixes to zero. |
| `Rng.SeededIsSound` | rust/crates/app/mock-home/src/rng.rs:12-16 | No seed yields the all-zero state, and different seeds yield different states. |
| `Rng.SeededWords` | rust/crates/app/mock-home/src/rng.rs:12-16 | Word k of a seed's state, unmixed, is the seed plus k + 1 times the golden-ratio constant modulo 2^64. |
| `Rng.StepIsABijection` | rust/crates/app/mock-home/src/rng.rs:18-28 | The state step is undone from both sides and moves only the zero state to zero. |
| `Rng.SeededNeverStuck` | rust/crates/app/mock-home/src/rng.rs:12-28 | No state reachable from any seed is all zero. |
| `Rng.ScrambleIsABijection` | rust/crates/app/mock-home/src/rng.rs:19-19 | The output scrambler loses nothing of its state word. |
| `Rng.ScaledBelow` | rust/crates/app/mock-home/src/rng.rs:36-38 | A bounded draw is under its bound. |
| `Rng.ScaledIs` | rust/crates/app/mock-home/src/rng.rs:36-38 | A draw is k if and only if the word times the bound lies between k and k + 1 times 2^64. |
| `Rng.ScaledReaches` | rust/crates/app/mock-home/src/rng.rs:36-38 | Every number under the bound is drawn by some word. |
| `Rng.ShufflePermutes` | rust/crates/app/mock-home/src/rng.rs:51-55 | A shuffle keeps the items as a multiset and every place past its range. |
| `Rng.ShuffleInjective` | rust/crates/app/mock-home/src/rng.rs:51-55 | Different draws order distinct items differently. |
| `Rng.ShuffleReaches` | rust/crates/app/mock-home/src/rng.rs:51-55 | Every order of distinct items comes from some draws. |
| `Rng.Generator.NextU64` | rust/crates/app/mock-home/src/rng.rs:18-28 | The in-place updates make the state step and the scrambled output. |
| `Rng.Generator.Below` | rust/crates/app/mock-home/src/rng.rs:36-38 | The result is under n and is the part of n that the output word is of 2^64. |
| `Rng.Generator.Range` | rust/crates/app/mock-home/src/rng.rs:41-43 | The result is the lower end plus the scaled output, between both ends, ends included. |
| `Rng.Generator.Shuffle` | rust/crates/app/mock-home/src/rng.rs:51-55 | In place and in bounds, the slice becomes the Fisher-Yates order of the generator's draws, a permutation of it. |
| `Shell.ReadQuoted` | rust/crates/app/cli/src/launcher.rs:69-77 | Wherever a word may stand or go on, quoted text adds exactly itself to that word. |
| `Shell.QuoteIsOneWord` | rust/crates/app/cli/src/launcher.rs:69-77 | For every text, the quoted text reads back as exactly one word equal to it. |
| `Shell.RemoteWordIsThePath` | rust/crates/app/cli/src/launcher.rs:114-123 | Expanding the remote word under a home gives the absolute path as one unsplit word. |
| `Shell.LineReads` | rust/crates/app/cli/src/launcher.rs:143-150 | Pieces joined by blanks read as their tokens in order. |
| `Shell.LaunchArrives` | rust/crates/app/cli/src/launcher.rs:129-150 | For every command, directory and launch id both nested quotings are undone: the launch line arrives whole, the inner command is one word after `-lc`, the directory one word after `cd`, the run directory and the pid file absolute. |
| `Shell.InnerReads` | rust/crates/app/cli/src/launcher.rs:137-141 | For every command the reader can finish, the inner command reads as meant: the command alone in its subshell, its exit code into the absolute exit path, both streams into the absolute log path. |
| `Shell.WrapperCloses` | rust/crates/app/cli/src/launcher.rs:79-86 | A command the reader can finish, a trailing comment included, leaves the closing parenthesis, the exit code and the redirection intact. |
| `Shell.SubshellCloses` | rust/crates/app/cli/src/launcher.rs:79-86 | Whatever follows a finished command on the next line is read as if the command were not there. |
| `Base64.EncodeCarries` | web/static/js/sidebar/groups.js:800-820 | The unpadded text of any bytes is in the alphabet, has ceil(4n/3) letters and carries exactly those bytes. |
| `Base64.WrapKeeps` | web/static/js/sidebar/groups.js:811-811 | The wrap to a signed 32-bit number keeps the low bits. |
| `Base64.PushSixKeeps` | web/static/js/sidebar/groups.js:811-812 | However often the accumulator wrapped, its low end holds the bits kept so far followed by the letter's six. |
| `Base64.TopByteIs` | web/static/js/sidebar/groups.js:813-816 | The byte shifted off is the first eight of the kept bits and the rest stays. |
| `Base64.DecodeBase64Url` | web/static/js/sidebar/groups.js:804-820 | Decoding fails if and only if a character is outside the alphabet, and otherwise gives exactly the bytes the text carries. |
| `Columns.CanonicalIsTheSpelling` | rust/crates/runtime/session-api/src/listing.rs:922-932 | An id travels encoded if and only if it is the canonical spelling of 16 bytes, and then as those. |
| `Columns.RowCountIs` | web/static/js/sidebar/groups.js:856-858 | The row count read off the text length is the number of ids, for every number. |
| `Columns.ExpandSessionId` | web/static/js/sidebar/groups.js:831-835 | A cell expands to the id it stands for and fails exactly when it stands for none. |
| `Columns.ExpandSessionIds` | web/static/js/sidebar/groups.js:839-844 | A column expands to its ids and fails exactly when a cell or the blob's length is wrong. |
| `Columns.CellRoundTrip` | rust/crates/runtime/session-api/src/listing.rs:899-920 | Every id text survives its cell. |
| `Columns.IdColumnRoundTrip` | rust/crates/runtime/session-api/src/listing.rs:874-920 | Whatever ids the rows have or lack, the page expands the written column to exactly those and never throws. |
| `Columns.SumsOfDeltas` | rust/crates/runtime/session-api/src/listing.rs:934-950 | Summing written differences gives the values back, missing cells included. |
| `Columns.DeltasDiffer` | rust/crates/runtime/session-api/src/listing.rs:934-950 | The writer writes, for every column, each value's difference from the one before it, and missing cells as missing. |
| `Columns.ExpandDeltas` | web/static/js/sidebar/groups.js:869-878 | The cells are the differences of the values, each from the one before it with a value, missing cells included; so the loop inverts the server's writer for every column. |
| `Sidebar.BelowIsAnyDepth` | web/static/js/sidebar/status.js:316-330 | The walk below a row finds a fact if and only if climbing from some row with it, from any depth, passes the row. |
| `Sidebar.UnderElsewhere` | web/static/js/sidebar/status.js:316-330 | What stands below a row that is not above x does not depend on x. |
| `Sidebar.StandIn` | web/static/js/sidebar/status.js:337-341 | The three walks show the gear exactly when something at any depth below is running or a paused worker. |
| `Sidebar.DueElsewhere` | web/static/js/sidebar/status.js:332-375 | A change at one row changes what is due only there and on its ancestors. |
| `Sidebar.BuildSessionTree` | web/static/js/sidebar/groups.js:576-597 | Each session nests under its listed parent and nothing else; no worker stands before a sibling that is none, `updated` does not rise among equals, and equals stand as listed; the roots are exactly the sessions that do not nest, at rising list places. |
| `Sidebar.SortedInOrder` | web/static/js/sidebar/groups.js:591-595 | Whatever order siblings were pushed in, the sort leaves them in that order. |
| `Sidebar.LeafIsDue` | web/static/js/sidebar/status.js:238-247 | A row with nothing below it is right from its own facts. |
| `Sidebar.Painter.PaintSessionIndicator` | web/static/js/sidebar/status.js:355-375 | The three walks and the unread walk paint what is due by the climbs from any depth, and no other row changes. |
| `Sidebar.Painter.RefreshSessionIndicator` | web/static/js/sidebar/status.js:381-386 | When only one row's facts changed, repainting it and its ancestors leaves every row as a full repaint would, stale ones apart, and that row is stale no longer. |
| `Sidebar.Painter.SetSessionIndicator` | web/static/js/sidebar/status.js:388-391 | The row takes its state and every row is as a full repaint would leave it, stale ones apart. |
| `Sidebar.Painter.ApplySessionStatus` | web/static/js/sidebar/status.js:439-452 | A status reply lands on one row (thinking before running before waiting), never overwrites a newer unread fact, and leaves every row as a full repaint would, stale ones apart. |
| `Sidebar.Painter.ApplyUnread` | web/static/js/sidebar/session-view.js:730-732 | A read or unread fact repaints to what a full repaint would show, stale rows apart. |
| `Sidebar.Painter.UnreadChanged` | web/static/js/websocket-handlers.js:96-101 | A broadcast for another session repaints; one for the open session records the fact only, and every row still shows what is due if and only if the fact did not change, or its row is not on the page and every row above it is marked by something else. |
| `Sidebar.UnreadIsDue` | web/static/js/sidebar/status.js:355-375 | A changed unread fact changes what is due exactly on its own row and on the rows above it that nothing else marks. |
| `Sidebar.Painter.RefreshTreeIndicators` | web/static/js/sidebar/status.js:395-399 | Painting only the rows with children suffices when the leaves are right. |
| `Sidebar.Painter.GroupedPaint` | web/static/js/sidebar/groups.js:361-481 | After a grouped paint of any acyclic list every row shows what is due, the facts of every listed session are those the list carries, and nothing is changed of any other; an empty list leaves the tree. |
| `Sidebar.Follow` | web/static/js/websocket-handlers.js:96-101 | Over every run of poll replies, broadcasts and reads each row is as a full repaint would leave it, but those at and above a session whose last event was a broadcast while it was open. |
| `WideChars.IsWide` | web/static/js/markdown-renderer.js:233-244 | The binary search decides membership in any sorted table of disjoint ranges. |
| `WideChars.WrapText` | web/static/js/markdown-renderer.js:266-289 | The scan loop cuts the text into the pieces of `Scan`. |
| `WideChars.ScanIsRight` | web/static/js/markdown-renderer.js:266-289 | The pieces lie end to end; a box opens at a wide code point, splits no surrogate pair and holds all marks behind it and nothing else; a copied unit starts no wide code point. |
| `WideChars.ErasedIsTheText` | web/static/js/markdown-renderer.js:266-289 | Erasing the boxes gives the text back unit for unit. |
| `WideChars.WideIsBoxedOnce` | web/static/js/markdown-renderer.js:266-289 | Every wide code point lies whole in exactly one box. |
| `WideChars.ProbeIsSafe` | web/static/js/markdown-renderer.js:253-258 | A segment the U+1100 probe skips would be left as it is. |
| `WideChars.RenderIsScan` | web/static/js/markdown-renderer.js:266-304 | The output is the pieces in order, boxes in their span. |
| `WideChars.SplitIsRight` | web/static/js/markdown-renderer.js:246-252 | The split loses nothing, alternates text and tags, and no text segment holds a tag. |
| `WideChars.WrapWideChars` | web/static/js/markdown-renderer.js:295-304 | Tags stand untouched and every text segment is scanned, probe or no probe. |
| `WideChars.BlockParts` | web/static/js/markdown-renderer.js:246-304 | For every list of segments the output is spelled by parts, bare units and boxes without an angle bracket, whose contents are exactly the segments' units. |
| `WideChars.BoxesComeOff` | web/static/js/markdown-renderer.js:246-304 | Erasing every box from the output gives the block back, unit for unit, for every block that holds no box of its own. |
| `WideChars.EraseSpelled` | web/static/js/markdown-renderer.js:246-304 | Erasing boxes from any parts spelled out leaves exactly their contents. |
| `EventLog.Log.Push` | rust/crates/app/mock-home/src/session.rs:162-168 | One line more, counted in bytes and events. |
| `EventLog.TurnsSnoc` | rust/crates/app/mock-home/src/session.rs:184-213 | A separator after an answer, and a stimulus not directly after one, keep the turns closed. |
| `EventLog.Log.WriteTurns` | rust/crates/app/mock-home/src/session.rs:175-217 | For every stream it ends with exactly the log the stream makes: each draw is made with 4096 bytes of room or more and written behind the separator it needs; the writing stops only when the room is used up, or a separator or an event does not fit; a turn left open is closed exactly when the separator drawn next fits. It never passes the limit. |
| `EventLog.WroteOne` | rust/crates/app/mock-home/src/session.rs:175-217 | A limit and a stream make one log only. |
| `EventLog.FillerEvent` | rust/crates/app/mock-home/src/generate.rs:89-99 | The filler line takes exactly the room, or there is none exactly when an empty line is longer. |
| `EventLog.WriteEventLog` | rust/crates/app/mock-home/src/generate.rs:105-125 | The log is the turns of the stream, a filler of exactly the room left if an empty one fits, and the final line; it stays within the target if and only if the final line fits, and falls short only by less than an empty filler line. |
| `Cards.SortByAnchor` | web/features/artifacts/static/artifact-comments.js:529-532 | The order is a stable ascending permutation of the cards. |
| `Cards.StackCards` | web/features/artifacts/static/artifact-comments.js:527-542 | The tops are the greedy stack of the cards in that order. |
| `Cards.StackIsLeast` | web/features/artifacts/static/artifact-comments.js:527-542 | The stack is the pointwise least placement at or below the anchors with every gap kept. |
| `Cards.StackShifts` | web/features/artifacts/static/artifact-comments.js:1149-1151 | With the cards in order, stacking and then scrolling is stacking the scrolled anchors. |
| `Cards.OrderIsUnique` | web/features/artifacts/static/artifact-comments.js:529-532 | Anchors and stability leave one order only. |
| `Cards.ScrollKeepsOrder` | web/features/artifacts/static/artifact-comments.js:1149-1151 | The sort of the scrolled anchors is the same order. |
| `Cards.StackScrolled` | web/features/artifacts/static/artifact-comments.js:1149-1151 | `stackCards` of the scrolled anchors is the scrolled `stackCards`, sort included. |
| `Cards.FitColumn` | web/features/artifacts/static/artifact-comments.js:1160-1169 | The in-place upward pass gives the capped column. |
| `Cards.CapIsGreatest` | web/features/artifacts/static/artifact-comments.js:1154-1169 | The capped column is the pointwise greatest placement at or above the shifted stack with every gap kept and the last card inside the band. |
| `Cards.AllInsideTheBand` | web/features/artifacts/static/artifact-comments.js:1154-1169 | Then every card ends inside the band. |
| `Cards.UntouchedIffItFits` | web/features/artifacts/static/artifact-comments.js:1154-1169 | A column is left as it stands if and only if it already fits. |
| `MathSpans.ScanInlineDollar` | web/static/js/math-scanner.js:24-36 | The loop finds the end `InlineDollar` defines. |
| `MathSpans.ScanDisplayDollar` | web/static/js/math-scanner.js:40-48 | The loop finds the end `DisplayEnd` defines. |
| `MathSpans.ScanBracket` | web/static/js/math-scanner.js:55-66 | The loop finds the end `BracketEnd` defines. |
| `MathSpans.ScanMathSpan` | web/static/js/math-scanner.js:70-89 | A text opens with a span of length n, display or not, if and only if the class its first characters open has its end there, said without the scan. |
| `MathSpans.SpanIsAt` | web/static/js/math-scanner.js:70-89 | The same of the function: one class by the opening characters, and that class's first unescaped end. |
| `MathSpans.ClassEnds` | web/static/js/math-scanner.js:24-66 | An inline or bracket span ends at p if and only if p is the first unescaped closing place, with no unescaped line break before it in the single-line classes and something between the delimiters. |
| `MathSpans.DisplayEndExact` | web/static/js/math-scanner.js:40-48 | A display span ends at p if and only if p is the first dollar inside, a second follows it and the content is not empty. |
| `MathSpans.SpanIsDelimited` | web/features/artifacts/prerender_math.js:115-119 | A raw span is its opening delimiter, `contentOf` it, never empty, and its closing delimiter. |
| `MathSpans.ScanIsLeftmost` | web/features/artifacts/prerender_math.js:27-47 | The scan finds exactly the leftmost unescaped spans, escapes counted by the parity of backslashes. |
| `MathSpans.LeftmostIsUnique` | web/features/artifacts/prerender_math.js:27-47 | That description fits one list of spans only. |
| `MathSpans.LeftmostAscends` | web/features/artifacts/prerender_math.js:27-47 | Spans lie in the text, ascending and disjoint. |
| `MathSpans.ScanMathSpans` | web/features/artifacts/prerender_math.js:27-47 | The scan loop gives those spans. |
| `MathSpans.RawComesBack` | web/features/artifacts/prerender_math.js:97-113 | With each span shown as itself a run comes back: nothing outside the spans is touched, dropped or moved. |
| `MathPage.MergeRanges` | web/features/artifacts/prerender_math.js:74-81 | Merged ranges are sorted, strictly separated and cover exactly what the ranges covered. |
| `MathPage.RenderRun` | web/features/artifacts/prerender_math.js:97-113 | For any KaTeX, the output is cut by the leftmost spans of the run: each stretch of a span is KaTeX of its content in its mode, each stretch between them the text as it stands, and together they make up the output. |
| `MathPage.LaidIsAssembled` | web/features/artifacts/prerender_math.js:97-113 | One output only is cut so. |
| `MathPage.PrerenderMath` | web/features/artifacts/prerender_math.js:84-95 | For any KaTeX, the output is cut by the merged ranges: each stretch of a range is the range as it stands, each stretch between them the run there, rendered, and together they make up the output. |
| `MathPage.LaidIsPage` | web/features/artifacts/prerender_math.js:84-95 | One output only is cut so. |
| `MathPage.PageIsFaithful` | web/features/artifacts/prerender_math.js:84-113 | With each span shown as itself the whole page comes back. |

## Left out

- Replacing a message and rekeying an optimistic one in the turn engine: they change no entry's place.
- The For-you projection, row text, placeholders, pre-rendering slices, measured geometry, scroll correction and the reading-anchor restore: heights are any numbers that are not negative, and a zero-height list only counts as hidden.
- Rounding of the spacers to whole pixels.
- The thinking channel in the draft protocol: the server may replace thinking text, so only the content channel is proved over runs; single frames cover both.
- `WideChars.BoxesComeOff`: leaves out blocks that already hold a box's opening tag, which erasing would take for one of its own.
- The server's side of streaming beyond what frames, resets and snapshots it sends.
- Drafts, uploaded-file chips, titles, telemetry, caches and retries of a session switch; a cached bootstrap is a click followed at once by its landing.
- Backoff delays and the quick-retry budget of the socket, the reload after a 4409 close, the network-loss flag; a stream frame's own handler is in `StreamDraft`.
- `SocketLink.Link.Create`: takes an id the page is not in, which the server mints.
- Archived and search paints of the sidebar, and the activity broadcast that defers to the next poll.
- `Rng.Generator.Range`: leaves out the one range of all 2^64 numbers, whose size overflows.
- `unit`, `choose`, the size curve and the text generators of the synthetic data, and file output; every line length is a number, and filler text is taken to need no escaping.
- `Shell.InnerReads`: takes commands the reader can finish; here-documents, command substitution, patterns and unquoted named parameters are outside the reader, which refuses them.
- `Shell.WrapperCloses`: takes the same commands.
- `Shell.SubshellCloses`: takes the same commands.
- ssh, spawning and killing processes.
- Column encodings other than ids and deltas, and integers past 2^53 in delta columns.
- The numbers of the wide-character table and of the mark class: results hold for every sorted, disjoint table without surrogates or anything under U+1100.
- The regular expressions that find protected ranges: any ranges inside the page are taken.
- marked, KaTeX, highlight.js, the incremental draft parse and the older DOM turn outline.
- Python guards, packaging, configuration and the server's store, aggregator and registry.
