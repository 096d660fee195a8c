# Verified model of the core state machines

This Dafny project models the deterministic logic of the assistant and proves properties of it:

- **Stream filter** (`Text`, `InlineMarkdown`, `StreamChecks`, `StreamCuts`, `StreamFilter`, `StreamStability`,
  `StreamRetraction`, `StreamKinds`): which prefix of a streamed text is shown. The answer is the longest prefix that
  ends at a boundary and passes three checks, no shown text stops inside a fence, a label or a link, and exactly the
  prefixes held by a settled boundary are never taken back.
- **Tag deduplication** (`Lexicographic`, `TagUnionFind`, `TagDedup`, `TagRewrite`): tags share
  a cluster exactly when case variants, plurals and singulars lead from one to the other, and a second run finds exactly
  what the operator skipped.
- **History** (`History`, `TranscriptWindow`): the newest-first scans equal the naive ones and depend on no record
  of another chat, and transcript windows equal windows on one flat timeline.
- **Turn streams** (`CodexTurn`, `CodexProperties`, `AcpTurns`): one final event per turn that reports how the
  turn ended, prefix chains, tolerance for lost notifications, and replies that hold only their own chunks. Requests,
  responses and notifications are those of sections 4, 4.1 and 5 of the JSON-RPC 2.0 specification.
- **Smaller machines** (`LockPool`, `Slug`, `MemoryChunker`, `ChunkerProperties`, `ScoreSummary`,
  `ApplicationHost`, `CronTriggers`): lock pool, Markdown chunker, score percentiles, host lifecycle and trigger names.

Loops and objects of the source are methods and classes. Each is proved against a specification, a function or a
predicate, and the lemmas speak about that specification. What it computes is stated a second time in terms of the
inputs, without naming it, and the methods promise that as well. `dafny verify dfyconfig.toml` checks the project.

## Where a promise needs a condition

- Stream filter: a sentence at the very end of the untrimmed text, a list item before a marker that may still grow,
  the cut of a long span and the tail of the text can be retracted. `NeverRetractedExactlyIfSettled` is the exact
  condition for every publishable prefix; `SentenceIsKeptExactlyIfTextFollows` and `ListItemIsKeptExactlyIfDecided`
  spell it out for the two kinds where it depends on the text.
- Codex: a completion that reclassifies streamed text as commentary, or contradicts it, takes it back
  (`src/kai/codex.py:1159-1171`). `Consistent` is the exact condition for one event. The fallback that keeps a turn of
  commentary from being blank (`src/kai/codex.py:979-981`) fails for such an item; `AnswerIsCompleteExactlyIf` is the
  exact condition for a turn.
- ACP: the error exit does not drain late chunks (`src/kai/acp.py:1497-1509`), and a chunk past the quiet window is
  not drained either. `TurnLeavesQuietExactlyIf` says which turns leave nothing behind, and
  `LeftoverSurfacesInTheNextReply` exactly when the next reply is affected.
- Locks: a released lock with a waiter that has not resumed reads as not held and can be evicted
  (`src/kai/locks.py:47-51`). `SafeExactlyIfExclusive` and `RunIsSafeExactlyIfExclusive` have the exact condition for
  one holder per chat, and `TwoHoldersAreReachable` a run from the start that violates it.
- Transcript: the comment at `src/kai/history.py:949-961` promises a window after the rightmost target. The code
  anchors at the assistant turn even if it precedes the user turn. `WindowIsOnTheTimeline` has the exact condition,
  `WindowByTimeStamps` its form in time stamps.
- History: `src/kai/history.py:464-471` promises that the most recent pair is the current exchange. That holds for an
  exchange written one after the other (`CurrentExchangeIsLast`); a further message before the reply takes the reply
  (`LaterMessageTakesTheReply`).
- Host: a stop that raises during the cleanup of a failed start ends that cleanup
  (`src/kai/application_host.py:210-220`), and an attachment that ends after the host was stopped, or after its name was
  taken, leaves an adapter running (`src/kai/application_host.py:309-316`). `CleanupIsCompleteExactlyIf` has the exact
  condition for one start, `StoppedMeansAllStopped` for a run.
- Triggers: `register_job_by_id` does not look at the queue (`src/kai/cron.py:149-167`) and can duplicate a name.
  `RunNeverDuplicates` has the exact condition.
- ACP start: a `session/new` answer without a session id raises a KeyError (`src/kai/acp.py:829`) that `_send_locked`
  does not catch; the model has it as an outcome of its own, `Uncaught`.

Three comments differ from the code, and the model follows the code: a bare list marker at the end of the text is
shown although the comment excludes it (`src/kai/bot.py:562-574`; it ends in a period), `find` halves paths instead
of compressing them fully (`scripts/tag-dedup.py:248-255`), and the heading pattern accepts a title of white space
after the hashes (`scripts/migrate-memory-md-to-qdrant.py:114-117`).

## Model

| member | source | states |
|---|---|---|
| `StreamChecks.HasOpenFencedCode` | src/kai/bot.py:421-429 | a text is withheld exactly when an odd number of its lines, as a set of positions, are fence lines |
| `StreamChecks.FenceTracker` | src/kai/bot.py:613-622 | flipping a flag at each fence line keeps it equal to the parity check of the text read so far, whether the line is read whole or in part |
| `StreamChecks.FenceLineExactly` | src/kai/bot.py:380-380 | a fence line is at most three spaces, three backticks and anything after them |
| `StreamChecks.FencedBlockIsSkipped` | src/kai/bot.py:432-447 | between closed lines a fenced block adds nothing to the text outside fences, and what follows it is read as if it stood alone |
| `StreamChecks.PlainTextIsKept` | src/kai/bot.py:432-447 | a text without fence lines lies outside fences as a whole |
| `StreamChecks.SegmentsOutsideFences` | src/kai/bot.py:432-447 | keeps exactly the lines that are no fence line and have an even number of fence lines before them |
| `StreamChecks.HasOddBackticks` | src/kai/bot.py:462-472 | the answer is the parity of the unescaped backticks in every spelling of the text by escaped and single characters |
| `InlineMarkdown.SpellsExactlyItsTokens` | src/kai/bot.py:462-487 | a text has exactly one spelling by escaped and single characters in which a backslash stands alone at most at the end; that is what the scanners read |
| `InlineMarkdown.CountsAreCounts` | src/kai/bot.py:462-527 | the counters of the scans are multiplicities of unescaped backticks and brackets |
| `InlineMarkdown.EndsClosedExactlyIf` | src/kai/bot.py:478-502 | reading one token at a time ends outside labels and targets if and only if the tokens are the rendering of a sequence of whole pieces |
| `StreamChecks.LinksEndOpen` | src/kai/bot.py:478-502 | false exactly when the text consists of single characters, escaped ones, labels and links with balanced targets, nested as deep as they may be; true for every text that stops in a label or, after `](`, in a target that is not closed |
| `StreamChecks.HasUnbalancedInlineMarkdown` | src/kai/bot.py:450-502 | false exactly when outside fences the unescaped backticks are even and all labels and links are whole; true wherever the text stops in a label or a target |
| `InlineMarkdown.MaxExcessIsMaximum` | src/kai/bot.py:505-527 | the recursive maximum is positive exactly when some final part of the line opens more brackets than it closes |
| `InlineMarkdown.ClampedIsMaximum` | src/kai/bot.py:505-527 | a bracket counter that never drops below zero ends at the larger of the plain sum and the largest excess of a final part |
| `StreamChecks.LineEndsInsideUnmatchedInline` | src/kai/bot.py:505-527 | true exactly when the backticks are odd or some final part of the line opens more brackets than it closes |
| `StreamChecks.EndsWithTerminator` | src/kai/bot.py:557-565 | true exactly when the line has a sentence terminator with nothing but closing punctuation after it |
| `StreamChecks.HasDanglingFinalLine` | src/kai/bot.py:530-582 | what disqualifies the last visible line, with the extra rule for the kind `full` |
| `StreamCuts.ParagraphCuts` | src/kai/bot.py:585-597 | the cuts are exactly the positions of a double line break with something visible after it, overlapping ones included |
| `StreamCuts.LineSentenceCuts` | src/kai/bot.py:624-649 | the cuts of a line are exactly the ends of a run that begins with a terminator after the list marker and reaches white space or the end of the line |
| `StreamCuts.OrderedMarkerExactly` | src/kai/bot.py:393-393 | the scan skips a marker exactly when indentation, a number, a dot and white space or the end are there, and it ends where they end |
| `StreamCuts.ListItemExactly` | src/kai/bot.py:387-387 | a list item with content is indentation, a bullet or a number with a dot, white space and something visible |
| `StreamCuts.FormingMarkerExactly` | src/kai/bot.py:394-400 | a forming marker is indentation and a bullet, a number or a number with a dot, before white space or the end |
| `StreamCuts.SentenceCuts` | src/kai/bot.py:600-651 | the cuts are exactly the sentence ends of the lines outside fences, outside in the sense of the parity check |
| `StreamCuts.ClosedFenceCuts` | src/kai/bot.py:654-670 | the cuts are exactly the ends of fence lines that have an open fence before them |
| `StreamCuts.ListItemCuts` | src/kai/bot.py:673-703 | the cuts are exactly the ends of list items with content whose next line is blank or begins a list item; the added-up line starts are the true ones |
| `StreamCuts.LongSpanUnique` | src/kai/bot.py:706-738 | at most one position satisfies the long-span rule |
| `StreamCuts.LongSpanCut` | src/kai/bot.py:706-738 | returns the one position that satisfies the rule, none exactly when there is none; starting the scan at the threshold misses nothing |
| `StreamFilter.SortCandidates` | src/kai/bot.py:772-775 | orders the candidates by falling position, then by strength, and keeps each as often as it occurs |
| `StreamFilter.WeakerKindsPassLess` | src/kai/bot.py:573-582 | a text that passes as a weaker kind passes as every stronger kind, which is why one test per position is enough |
| `StreamFilter.FirstPassingIsLongest` | src/kai/bot.py:772-788 | the first candidate that passes yields an extension of every other publishable prefix |
| `StreamFilter.StreamPublishablePrefix` | src/kai/bot.py:741-789 | the answer is a publishable prefix that extends every publishable prefix, over all cuts and kinds; nothing is published exactly when there is none; a shown text is a non-empty part of the streamed one with all fences closed and all code spans, labels and links whole, so it never stops in a link target |
| `StreamFilter.PublicationExists` | src/kai/bot.py:741-789 | every text has an answer that keeps that promise |
| `StreamFilter.PublicationIsUnique` | src/kai/bot.py:741-789 | that promise determines the answer |
| `StreamStability.SentenceLeavesNoFenceOpen` | src/kai/bot.py:600-651 | no sentence candidate is rejected by the open-fence check |
| `StreamStability.ClosedFenceFailsOnlyInline` | src/kai/bot.py:654-670 | no closed-fence candidate is rejected for an open fence or its last line; it passes exactly when the inline Markdown before it is balanced |
| `StreamStability.SentenceStays` | src/kai/bot.py:624-649 | a sentence with text after it on its line stays one when the line grows, and the line neither becomes nor ceases to be a fence |
| `StreamRetraction.SettledStays` | src/kai/bot.py:585-703 | a settled boundary that passes is a publishable boundary, or extended by one, of every text that goes on visibly |
| `StreamRetraction.SurvivorIsSettled` | src/kai/bot.py:741-789 | after a letter, a backtick that makes the backticks odd and a new line, whatever is still publishable is held by a settled boundary of the original text |
| `StreamRetraction.NeverRetractedExactlyIfSettled` | src/kai/bot.py:741-789 | for every text and every publishable prefix: all continuations go on publishing an extension of it if and only if a blank line, a sentence with something after it, a closing fence or a list item with a decided next line holds it |
| `StreamKinds.FirmPublicationIsNeverRetracted` | src/kai/bot.py:741-789 | whatever is appended, the filter publishes a string that begins with every published paragraph, closed fence, sentence with something after it (if only white space) and list item with a decided next line |
| `StreamKinds.SentenceIsKeptExactlyIfTextFollows` | src/kai/bot.py:600-651 | a published sentence is never retracted if and only if anything follows it in the untrimmed text |
| `StreamKinds.ListItemIsKeptExactlyIfDecided` | src/kai/bot.py:673-703 | a published list item is never retracted if and only if its next line is complete or a marker with white space after it, or the item also ends a sentence |
| `StreamKinds.ParagraphIsKept` | src/kai/bot.py:741-789 | an instance: a sentence before a paragraph break with text after it stays shown whatever follows |
| `StreamKinds.SentenceAtTheEndIsRetracted` | src/kai/bot.py:741-789 | an instance: `a.` is shown, and so is the bare marker `1.`; one more letter takes either back |
| `StreamKinds.BareMarkerIsNoSentence` | src/kai/bot.py:562-574 | the bare marker has no sentence cut, so it is shown as the tail of the text |
| `TagUnionFind.HalvingKeepsForest` | scripts/tag-dedup.py:248-255 | one halving step keeps the parent map acyclic and the partition, and moves strictly towards the root |
| `TagUnionFind.LinkingRootsKeepsForest` | scripts/tag-dedup.py:257-260 | linking two roots keeps the parent map acyclic and merges exactly two classes |
| `TagUnionFind.SameRootIffConnected` | scripts/tag-dedup.py:240-260 | two keys have one root if and only if a walk along the links connects them |
| `TagUnionFind.MergeAddsLink` | scripts/tag-dedup.py:257-277 | merging the classes of a link turns the components of the old links into those of the old links and the new one |
| `TagUnionFind.UnionFind.Find` | scripts/tag-dedup.py:248-255 | terminates at the root of the key and leaves the partition as it was |
| `TagUnionFind.UnionFind.Union` | scripts/tag-dedup.py:257-260 | merges the two classes and no others |
| `TagDedup.CanonicalIsBest` | scripts/tag-dedup.py:195-206 | the canonical form is a member, the most frequent one, ties going to the lexicographically first |
| `Lexicographic.LeqExactly` | scripts/tag-dedup.py:195-206 | the order on tags: a prefix comes first, otherwise the first difference decides |
| `TagDedup.TotalIsAdditive` | scripts/tag-dedup.py:298-298 | the total of a cluster is the sum of the counts of its members, however it is split |
| `TagDedup.SingularFormsExactly` | scripts/tag-dedup.py:163-192 | a form is offered as singular if and only if the tag is its plural by one of three equations: `ies` for `y` after something, `es` after x, sh, ch, zz or ss, and `s` after anything that does not end in s |
| `TagDedup.RelatedExactlyByChains` | scripts/tag-dedup.py:262-277 | apart from `confirmed_action`, two tags are related if and only if a chain of tags leads from one to the other, each step a case variant or a plural of its neighbour |
| `TagDedup.VariantsShareACluster` | scripts/tag-dedup.py:209-300 | two counted tags that are case variants or singular and plural share a cluster |
| `TagDedup.ConfirmedActionStaysApart` | scripts/tag-dedup.py:272-275 | no chain of links leads from `confirmed_action` to another key |
| `TagDedup.GroupByFold` | scripts/tag-dedup.py:236-239 | every tag is in exactly the group of its case-folded form |
| `TagDedup.LinkForms` | scripts/tag-dedup.py:265-276 | after the loop the classes are exactly the components of the graph whose links are the plural and singular pairs |
| `TagDedup.EmitClusters` | scripts/tag-dedup.py:281-300 | emits exactly the components with two or more tags, that of `confirmed_action` left out |
| `TagDedup.IdentifyClusters` | scripts/tag-dedup.py:209-300 | two tags share a cluster if and only if a chain of case variants, plurals and singulars leads from one to the other, all counted and none `confirmed_action`; the clusters are pairwise disjoint, of at least two tags, with the best member as canonical form and the right total |
| `TagRewrite.ComputeDistribution` | scripts/tag-dedup.py:147-160 | the dictionary holds every tag of every row with its number of occurrences and no other |
| `TagRewrite.AllTagsExactly` | scripts/tag-dedup.py:147-160 | the counted list consists of the tags of all rows, row by row |
| `TagRewrite.ApplyClusterToRow` | scripts/tag-dedup.py:303-349 | the rewritten and deduplicated tags with the guard, and whether they differ from the row |
| `TagRewrite.DedupKeepsFirsts` | scripts/tag-dedup.py:338-340 | every tag once, in the order of first occurrences |
| `TagRewrite.CanonCases` | scripts/tag-dedup.py:329-336 | a tag goes to the canonical form of the one cluster that holds it, and a canonical form to itself |
| `TagRewrite.GuardIsUnreachable` | scripts/tag-dedup.py:342-346 | with clusters from the detection the guard never fires, and the flag says exactly whether the tags changed |
| `TagRewrite.RewriteIsIdempotent` | scripts/tag-dedup.py:303-349 | a second rewrite returns the same tags and reports no change |
| `TagRewrite.SimulateAfter` | scripts/tag-dedup.py:380-388 | every tag gets the sum of the counts mapped to it, and the total is conserved |
| `TagRewrite.HitsAreOccurrences` | scripts/tag-dedup.py:385-388 | remapping counts per tag equals counting the remapped occurrences |
| `TagRewrite.ReportBoundsTheRewrite` | scripts/tag-dedup.py:380-388 | for every tag the simulated count bounds the count in the rewritten rows from above, and the simulated total is the old total |
| `TagRewrite.ApplyRewrites` | scripts/tag-dedup.py:444-519 | a row holds its rewritten tags exactly when its write succeeded; the audit log has an entry with id, text, old and new tags for exactly the changed rows, in order; the counters count the successes and the rows that should have changed and did not |
| `TagRewrite.AcceptClusters` | scripts/tag-dedup.py:594-607 | the clusters that the operator did not skip, with the chosen canonical forms |
| `TagRewrite.SecondRunFindsTheSkipped` | scripts/tag-dedup.py:147-349 | after the accepted merges were applied to every row, counting and detecting again finds exactly the tags of the skipped clusters, whichever members were chosen as canonical forms |
| `TagRewrite.PipelineReachesFixpoint` | scripts/tag-dedup.py:147-349 | a second detection finds no cluster if and only if the operator skipped none |
| `TagRewrite.RunForUser` | scripts/tag-dedup.py:570-612 | the clusters follow the rules on the tags of the rows; only tags are ever changed; when all writes succeed, every later detection on the stored rows finds exactly what was skipped |
| `History.SortIsStable` | src/kai/history.py:549-549 | the sort by time stamp orders, loses nothing and keeps records of one time stamp in their order |
| `History.ReadDay` | src/kai/history.py:518-549 | the sifted and sorted records of all readable files of a day, malformed and blank lines skipped |
| `History.DaysRunBackwards` | src/kai/history.py:518-553 | the days are read back into their order, the oldest first, whatever they hold |
| `History.WrittenIsRead` | src/kai/history.py:518-549 | whatever is written in a readable file and passes the filter is read |
| `History.LastNExactly` | src/kai/history.py:559-562 | the last n of a list are its end, as long as n or as the list |
| `History.OlderPairsComeFirst` | src/kai/history.py:550-557 | prepending older turns only adds pairs at the front |
| `History.PairRecordsChronologically` | src/kai/history.py:565-595 | the pairs are the texts of exactly the places where a user record and an assistant record follow each other with no record of either side between them, each once and in order |
| `History.EarlyBreakIsSound` | src/kai/history.py:554-558 | n pairs in the newest days are the last n pairs of all days |
| `History.GetRecentPairs` | src/kai/history.py:505-562 | equals the last n pairs of the full oldest-first concatenation; every pair holds the stripped, visible texts of a written user and a written assistant record of exactly this chat, the latter no placeholder; and the answer is the same when all records of other chats, and those without a chat, are removed |
| `History.CurrentExchangeIsLast` | src/kai/history.py:464-471 | an exchange of the chat that was just written is the last pair, whatever was written before it |
| `History.LaterMessageTakesTheReply` | src/kai/history.py:464-471 | with a further message between an exchange and its reply, the last pair is that exchange if and only if both messages read the same |
| `History.SyntheticExactly` | src/kai/history.py:69-89 | a placeholder is one of two fixed texts or `[error: ` with something after it up to the closing bracket |
| `History.RecentMessages` | src/kai/history.py:362-406 | equals the last 20 records of the full oldest-first concatenation; all are written, of this chat or of none; and leaving out the records of other chats is all that naming a chat does |
| `History.GetRecentHistory` | src/kai/history.py:322-417 | those records, a line each with minute, speaker and shortened text |
| `History.ShortMessageAsShown` | src/kai/history.py:408-415 | a short message is shown as it is, after its date, its time to the minute and its speaker |
| `TranscriptWindow.FindRecordIndex` | src/kai/history.py:887-898 | the first record with that time stamp and direction |
| `TranscriptWindow.CollectBefore` | src/kai/history.py:910-937 | the last k visible turns of the previous day and the day up to the user turn, oldest first, in chronological order |
| `TranscriptWindow.CollectAfter` | src/kai/history.py:940-1001 | the first m visible turns of what follows the anchor on the day and the next day |
| `TranscriptWindow.VisibleExactly` | src/kai/history.py:901-903 | a window leaves out the placeholders and keeps every other turn in order |
| `TranscriptWindow.FirstNExactly` | src/kai/history.py:975-1001 | a window is a beginning of what follows, as long as was asked for or as there is |
| `TranscriptWindow.FetchTranscriptContext` | src/kai/history.py:735-884 | each reason is reported exactly when it applies: no provenance, another chat than the expected one, no readable day, no turn at a time stamp, a changed text; on success the turns are the first ones recorded at their time stamps, the user turn has the stored hash and the chat is the expected one, and the windows are cut out of the timeline |
| `TranscriptWindow.AnchorOnTimeline` | src/kai/history.py:865-874 | with unique time stamps the records looked at are the rest of the timeline of both days after the target, on either side of midnight |
| `TranscriptWindow.WindowAfterTargets` | src/kai/history.py:949-961 | on a flat timeline the window after the anchor is the window after the rightmost target exactly when the assistant turn does not precede the user turn with something visible up to the user turn, or nothing was asked for |
| `TranscriptWindow.WindowIsOnTheTimeline` | src/kai/history.py:865-1001 | the returned window is the flat-timeline window after the rightmost target under exactly that condition |
| `TranscriptWindow.WindowByTimeStamps` | src/kai/history.py:940-1001 | on days in the order of their time stamps the condition reads off the provenance: no assistant turn, one on the next day, one that is not earlier than the user turn, or nothing asked for |
| `TranscriptWindow.ReversedTargetsSpoilTheWindow` | src/kai/history.py:949-961 | an assistant turn before the user turn puts the user turn into its own window |
| `CodexTurn.Turn.CommitCurrentItem` | src/kai/codex.py:1000-1014 | commits or suppresses the open item by its phase and reports whether visible text changed |
| `CodexTurn.Turn.Visible` | src/kai/codex.py:1016-1021 | the committed text and, unless it is commentary, the open item |
| `CodexTurn.Turn.OnDelta` | src/kai/codex.py:1140-1157 | a delta of another item commits the open one and opens an unclassified one |
| `CodexTurn.Turn.OnItemCompleted` | src/kai/codex.py:1159-1175 | the completion overrides text and phase, and is emitted only if it changes what is visible |
| `CodexTurn.Turn.OnTurnCompleted` | src/kai/codex.py:1179-1217 | the final event, with suppressed commentary only when nothing visible was said; what it reports is fixed by `FinalEventReports` |
| `CodexTurn.StreamTurn` | src/kai/codex.py:1026-1282 | emits what the state machine emits, up to the first terminal event; the final event reports success if and only if the turn is completed as such, or reading ends after text was shown, without an error then and with the message of the terminal event otherwise |
| `CodexTurn.FinalEventReports` | src/kai/codex.py:1179-1282 | the same for every run from the start, text being shown by a delta outside commentary, or by a completion that does not end as commentary and has text or reclassifies streamed commentary |
| `CodexTurn.ShownIsTracked` | src/kai/codex.py:958-1175 | the machine has noted shown text exactly when one of the events so far shows text, and knows the open commentary item |
| `CodexProperties.OneFinalEvent` | src/kai/codex.py:1026-1282 | a run with a terminal event emits exactly one final event, as the last one; a run without one emits none |
| `CodexProperties.CommittedOnlyGrows` | src/kai/codex.py:996-1014 | committed text only grows by appending, whatever arrives |
| `CodexProperties.ShownGrowsExactlyIfConsistent` | src/kai/codex.py:1159-1175 | an event keeps the shown text as a prefix if and only if it is no completion that hides or contradicts streamed text |
| `CodexProperties.EmitsShownText` | src/kai/codex.py:1016-1021 | partial events carry exactly the shown text, final events extend it |
| `CodexProperties.EmittedTextIsPrefixChain` | src/kai/codex.py:1026-1282 | in a consistent run every emitted text is a prefix of every later one, the final one included |
| `CodexProperties.RunIsConsistentExactlyIfShownGrows` | src/kai/codex.py:1026-1282 | a run is consistent if and only if the shown text grows at every event up to the terminal one |
| `CodexProperties.NoiseIsIgnored` | src/kai/codex.py:1259-1268 | other item types, empty deltas, acknowledgements and unknown messages change nothing |
| `CodexProperties.DeliveryDoesNotMatter` | src/kai/codex.py:1125-1175 | an item adds the same text on the same side to every state, with its completion lost or with any of its deltas lost, also when its completion has no phase or changes it; only the flag for visible text depends on what streamed |
| `CodexProperties.ItemsAddUp` | src/kai/codex.py:983-1014 | after any items, however delivered, the state holds the blank-line join of the notice and the visible items, the commentary aside, and whether anything visible or too early was streamed |
| `CodexProperties.AnswerIsCompleteExactlyIf` | src/kai/codex.py:1179-1203 | the turn answers with the visible items, or with the commentary when there are none, if and only if there is visible text, or no commentary, or no item streamed text before it was classified as commentary; otherwise with the notice alone |
| `CodexProperties.LostNotificationsDoNotMatter` | src/kai/codex.py:983-1203 | when commentary starts as commentary, losing, for each item, its completion or any of its deltas leaves the final answer unchanged |
| `CodexProperties.LateReclassificationBlanksTheTurn` | src/kai/codex.py:1169-1171 | an instance: text that streamed unclassified and completes as commentary is taken back, and the turn succeeds with an empty answer |
| `AcpTurns.AcpBackend.WriteRpc` | src/kai/acp.py:78-122 | every request takes a fresh id |
| `AcpTurns.AcpBackend.ReadResult` | src/kai/acp.py:125-193 | discards lines up to the first response with the id; what it leaves unread when it fails |
| `AcpTurns.AnswerIsTheFirstWithId` | src/kai/acp.py:125-193 | the answer is the first line with the id; an error there, or no such line, is a failure; everything after it stays unread |
| `AcpTurns.AcpBackend.DrainLateText` | src/kai/acp.py:202-260 | folds every chunk left in the pipe, skips everything else and empties the pipe |
| `AcpTurns.TextsExactly` | src/kai/acp.py:1434-1440 | the chunks are the texts of the notifications that have one, in order |
| `AcpTurns.FoldExactly` | src/kai/acp.py:1434-1440 | the chunks are joined from the first to the last |
| `AcpTurns.PartialsExactly` | src/kai/acp.py:1434-1440 | stream event i shows the first i + 1 chunks |
| `AcpTurns.AnsweredExactly` | src/kai/acp.py:1441-1470 | the answered requests are those the hook has an answer to, in order |
| `AcpTurns.AcpBackend.EnsureStarted` | src/kai/acp.py:936-1066 | a live process is left alone; a new one is refused exactly when one of its two requests gets no answer or an error, and otherwise is up exactly when the second answer names a session, with everything after that answer unread |
| `AcpTurns.AcpBackend.ReadAnswer` | src/kai/acp.py:1360-1524 | success exactly for a result as the first response to the prompt, or for a process that ends by itself after some text, with the error of an error response otherwise; the stream events, the answered requests and what remains of process and pipe |
| `AcpTurns.AcpBackend.SendTurn` | src/kai/acp.py:1168-1524 | one call of send: a start that is refused or raises is reported as such, and a prompt that is written gets the outcome of its lines; stream events, answered requests and what remains |
| `AcpTurns.AcpBackend.Kill` | src/kai/acp.py:1560-1591 | drops process, session and pipe |
| `AcpTurns.LateChunksCommute` | src/kai/acp.py:1471-1495 | a completed turn depends only on its chunks and their order, not on which of them arrive after the response, also behind lines left in the pipe that do not end it |
| `AcpTurns.TurnLeavesQuietExactlyIf` | src/kai/acp.py:1360-1524 | a turn leaves neither text nor a foreign response in the pipe if and only if it is killed, or nothing of that kind comes too late or after an error response |
| `AcpTurns.ReplyAfterLeftover` | src/kai/acp.py:1360-1524 | what a turn on a running process answers: the fold of the chunks left in the pipe and its own, up to an error response |
| `AcpTurns.QuietTurn` | src/kai/acp.py:1360-1524 | on a quiet pipe a turn answers the fold of its own chunks, those before an error response included |
| `AcpTurns.EachReplyIsItsOwn` | src/kai/acp.py:1360-1524 | over any run of turns that leave a quiet pipe every reply is the fold of exactly its own turn's chunks |
| `AcpTurns.EventsArePrefixesOfTheReply` | src/kai/acp.py:1434-1440 | the stream events of a turn are prefixes of one another and of its reply |
| `AcpTurns.LeftoverSurfacesInTheNextReply` | src/kai/acp.py:1360-1524 | after any earlier exit the next reply, of a completed, killed or error-ended turn, is its own turn's if and only if no chunk was left in the pipe, for verbatim joining and for the joining of OpenCode |
| `AcpTurns.JoinedChunks` | src/kai/opencode.py:102-106 | chunks extend the text before them by the same string, up to one space between a sentence and a capital |
| `AcpTurns.JoinedAtTheSeam` | src/kai/opencode.py:102-106 | one space goes between a sentence end and a capital, and nothing anywhere else |
| `AcpTurns.ErrorExitLeaksAChunk` | src/kai/acp.py:1497-1509 | the error exit leaves a late chunk behind, and the next reply begins with it |
| `AcpTurns.OldResponsesEndNothing` | src/kai/acp.py:1471-1498 | a response to an earlier prompt ends no later turn |
| `LockPool.BoundedPool.GetEntry` | src/kai/locks.py:27-54 | a chat in the pool keeps its entry and nothing changes; any other gets a new one at the end, for which a full pool gives up exactly the oldest inactive entry; stop events follow the same rule |
| `LockPool.DropExactly` | src/kai/locks.py:27-54 | a task that gives up leaves the queue of a lock once, and the others keep their order |
| `LockPool.HeldLockStaysPooled` | src/kai/locks.py:44-51 | no held lock is ever evicted |
| `LockPool.StepKeepsBusyLocksPooled` | src/kai/locks.py:44-51 | an event keeps every lock that is held or waited for in the pool if and only if it evicts none that somebody waits for |
| `LockPool.OneHolderInEveryRun` | src/kai/locks.py:27-54 | in a run that evicts no lock that somebody waits for, each chat has at most one holder after every event |
| `LockPool.NoHandoverIsSafe` | src/kai/locks.py:44-51 | without a lock in handover every lookup is safe, so immediate handover is one way to get such a run |
| `LockPool.SafeExactlyIfExclusive` | src/kai/locks.py:44-51 | an event is safe if and only if no task that enters next and no waiter that then resumes can become a second holder of a chat |
| `LockPool.RunIsSafeExactlyIfExclusive` | src/kai/locks.py:27-54 | a run is free of such evictions if and only if at no point of it two more events could give a chat two holders |
| `LockPool.EvictionInTheGapGivesTwoHolders` | src/kai/locks.py:47-51 | evicting any lock that was released and not yet taken by its waiter leads to two holders for its chat |
| `LockPool.TwoHoldersAreReachable` | src/kai/locks.py:44-54 | a run from the empty pool, with 65 chats and one waiter, ends with two holders of one chat |
| `LockPool.PoolIsBounded` | src/kai/locks.py:47-54 | the pool never outgrows 64, the peak of held locks and one more, or its initial size |
| `MemoryChunker.ReadSegments` | scripts/migrate-memory-md-to-qdrant.py:158-176 | headings of the first three levels open a segment, every other line goes to the end of the open one; see `SegmentsKeepLines` |
| `MemoryChunker.OpensSegmentExactly` | scripts/migrate-memory-md-to-qdrant.py:117-117 | a line opens a segment if and only if it begins with one to three hashes, a white-space character and one character more |
| `MemoryChunker.HeadingIsRead` | scripts/migrate-memory-md-to-qdrant.py:117-117 | a heading is read as it is written: its level is the number of hashes and its title what stands between the white space |
| `MemoryChunker.BuildChunks` | scripts/migrate-memory-md-to-qdrant.py:189-232 | which segments become chunks, with trimmed bodies, the last level-2 title as parent and the slug as tag |
| `Slug.SlugifyGivesSlug` | scripts/migrate-memory-md-to-qdrant.py:101-111 | the tag consists of words of letters and digits with single dashes between them, and keeps every letter and digit of the lower-cased title |
| `Slug.SlugJoinsTheWords` | scripts/migrate-memory-md-to-qdrant.py:101-111 | the tag of a title is the words of its lower-cased form, as they stand, with one dash in place of every gap between two of them |
| `Slug.SlugifyIsIdentityExactlyOnSlugs` | scripts/migrate-memory-md-to-qdrant.py:101-111 | a lower-case text is its own tag if and only if it has that shape |
| `MemoryChunker.RollUpChunks` | scripts/migrate-memory-md-to-qdrant.py:234-256 | small level-3 chunks are folded into the last level-2 chunk |
| `ChunkerProperties.SegmentsKeepLines` | scripts/migrate-memory-md-to-qdrant.py:158-176 | the heads and bodies of the segments, one after the other, are the headings and the other lines of the file in their order; so the bodies are the body lines as a sequence |
| `ChunkerProperties.ChunksKeepLines` | scripts/migrate-memory-md-to-qdrant.py:178-232 | before the rollup the visible lines of the chunks are those of the segments, in order |
| `ChunkerProperties.ChunksAreBuilt` | scripts/migrate-memory-md-to-qdrant.py:189-232 | the chunks stand, in order, for exactly the segments of level 2 and those with a visible line, with their titles, lines, slugs and the title of the last level-2 chunk as parent |
| `ChunkerProperties.FoldAddsTitleAndBody` | scripts/migrate-memory-md-to-qdrant.py:252-254 | a fold keeps the lines of the parent first, then the title line, then the lines of the child |
| `ChunkerProperties.RollUpArranges` | scripts/migrate-memory-md-to-qdrant.py:234-256 | every chunk that is not folded keeps its place, and its lines are its own, followed by title and lines of every small level-3 chunk whose parent it is, in order |
| `ChunkerProperties.BuiltChunksKeepOrder` | scripts/migrate-memory-md-to-qdrant.py:120-232 | before the rollup the chunks show the body lines of the file in order |
| `ChunkerProperties.RollUpKeepsLines` | scripts/migrate-memory-md-to-qdrant.py:234-256 | for every line, folding adds its occurrences among the title lines and nothing else |
| `ChunkerProperties.ChunkingConservesContent` | scripts/migrate-memory-md-to-qdrant.py:120-261 | for every input the multiset of visible body lines over all chunks is that of the input, plus the inserted title lines |
| `ChunkerProperties.RollUpTracksParents` | scripts/migrate-memory-md-to-qdrant.py:246-251 | the comparison of parent titles is always true when a level-2 heading precedes |
| `ChunkerProperties.SmallChunksAreRolledUp` | scripts/migrate-memory-md-to-qdrant.py:234-261 | every level-3 chunk in the result reaches the threshold or has no level-2 heading before it |
| `ChunkerProperties.ChunkMemoryMd` | scripts/migrate-memory-md-to-qdrant.py:120-261 | segments, built chunks and result are related, order included, as `SegmentsKeepLines`, `ChunksAreBuilt` and `RollUpArranges` say, for every file; over all chunks every line occurs as often as in the file and the title lines together; no chunk is empty, and a level-3 chunk reaches the threshold or has no level-2 heading before it |
| `ScoreSummary.PercentileIsBetweenNeighbours` | scripts/migrate-memory-md-to-qdrant.py:275-285 | a percentile lies between the scores at the ranks around it |
| `ScoreSummary.PercentileIsMonotone` | scripts/migrate-memory-md-to-qdrant.py:275-285 | a higher percentile is never a lower score |
| `ScoreSummary.PercentileAtARank` | scripts/migrate-memory-md-to-qdrant.py:275-285 | at the position of a rank the percentile is the score of that rank, so 0 and 1 give the extremes |
| `ScoreSummary.PercentileBetweenRanks` | scripts/migrate-memory-md-to-qdrant.py:275-285 | between two ranks the percentile is the weighted mean of their scores, halfway the plain mean |
| `ScoreSummary.FewScoresAbove` | scripts/migrate-memory-md-to-qdrant.py:275-285 | a percentile leaves no more scores strictly above it than there are ranks above its own |
| `ScoreSummary.SkippedAndNearMisses` | scripts/migrate-memory-md-to-qdrant.py:287-289 | a skipped score is never a near miss, and together they are the scores from the lower of both bounds on |
| `ScoreSummary.CountExactly` | scripts/migrate-memory-md-to-qdrant.py:287-289 | a count goes over the scores one by one |
| `ApplicationHost.KaiApplicationHost.StartBegins` | src/kai/application_host.py:160-163 | a start is accepted exactly by a new host |
| `ApplicationHost.KaiApplicationHost.StartEnds` | src/kai/application_host.py:164-223 | which components are created, and which are stopped again when a step raises |
| `ApplicationHost.KaiApplicationHost.CleanUp` | src/kai/application_host.py:210-220 | the exception handler stops what was created up to the first stop that raises |
| `ApplicationHost.CreatedExactly` | src/kai/application_host.py:164-209 | a component exists when start raises exactly if the step that creates it comes before the one that raises |
| `ApplicationHost.CleanupStopsInOrder` | src/kai/application_host.py:210-220 | the cleanup stops the commands before the store, the store before the execution and the execution before the pool, as far as they were created and up to the first stop that raises |
| `ApplicationHost.KaiApplicationHost.AttachBegins` | src/kai/application_host.py:299-308 | refuses when not ready, unnamed or named twice, and asks the adapter to start otherwise |
| `ApplicationHost.KaiApplicationHost.AttachEnds` | src/kai/application_host.py:309-316 | an adapter that fails to start is stopped and the host fails; one that has started is put under its name, whatever the host has become |
| `ApplicationHost.PutExactly` | src/kai/application_host.py:316-316 | a new name goes to the end, a name that is attached keeps its place, and all others stay |
| `ApplicationHost.NamesStayDistinct` | src/kai/application_host.py:299-316 | over every interleaving of calls the attached names are distinct |
| `ApplicationHost.KaiApplicationHost.Stop` | src/kai/application_host.py:325-355 | stops everything whatever raises, and counts exactly the stops that raised |
| `ApplicationHost.CleanupIsCompleteExactlyIf` | src/kai/application_host.py:210-220 | a failed start stops exactly what it had created if and only if no stop but the last raises |
| `ApplicationHost.LeakIsADeficit` | src/kai/application_host.py:160-355 | a call makes some count of things started and out of reach grow if and only if it is a start whose cleanup is cut short, or an attachment that ends on a stopped host or on a name taken in the meantime; no call makes one shrink |
| `ApplicationHost.RunIsBalancedExactlyIfNothingLeaks` | src/kai/application_host.py:160-355 | after every interleaving of calls, what is running is what was started and not stopped if and only if no call leaked; nothing is created twice |
| `ApplicationHost.StoppedMeansAllStopped` | src/kai/application_host.py:325-355 | in a stopped host with nothing in flight every created component and every adapter that was asked to start has been stopped just as often, if and only if no call leaked, over every interleaving of calls |
| `ApplicationHost.AttachAtOnceNeverLeaks` | src/kai/application_host.py:299-316 | an attachment that ends before anything else happens does not leak |
| `ApplicationHost.StopDuringAttachLeaks` | src/kai/application_host.py:309-316 | a stop while an adapter starts leaves the adapter running on a stopped host, however often the host is stopped again |
| `ApplicationHost.StopsInReverseOrder` | src/kai/application_host.py:335-350 | adapters are stopped in the reverse of their attach order, then the commands, the store, the execution and the pool |
| `CronTriggers.FamiliesAreDisjoint` | src/kai/cron.py:127-130 | a generated name matches the family test of a job if and only if it is that job's |
| `CronTriggers.DigitsHaveTheValue` | src/kai/cron.py:185-185 | the number in a trigger name is the decimal form of the job id |
| `CronTriggers.NamesAsWritten` | src/kai/cron.py:182-216 | an instance: the names that the comments of the source give as examples |
| `CronTriggers.Scheduler.RegisterJob` | src/kai/cron.py:170-228 | the triggers of a job by its schedule, up to the entry that raises |
| `CronTriggers.Scheduler.RegisterNewJobs` | src/kai/cron.py:107-146 | after a pass exactly the names of the jobs without a trigger that are not due have been added; exactly the one-shot jobs without a trigger that are due are deactivated; counted are those that are added and read without an exception |
| `CronTriggers.TriggersExactly` | src/kai/cron.py:170-228 | a job gets the plain name for a one-shot or repeating schedule, and for each valid daily time before the first that raises, with the place of the time where there are several |
| `CronTriggers.Scheduler.Cancel` | src/kai/bot.py:1591-1594 | removes the triggers that match the family test and keeps the others in order |
| `CronTriggers.RegistrationNeverDuplicates` | src/kai/cron.py:107-146 | a pass over jobs with distinct ids duplicates no trigger name |
| `CronTriggers.Scheduler.RegisterById` | src/kai/cron.py:149-167 | adds the triggers of the job without a look at the queue, and reports whether the job exists |
| `CronTriggers.ByIdDuplicatesNothingExactlyIf` | src/kai/cron.py:149-167 | a registration by id duplicates no trigger name if and only if none of its triggers is in the queue |
| `CronTriggers.NewJobAddsNew` | src/kai/cron.py:149-167 | that is so for every job without a trigger in the queue |
| `CronTriggers.RunNeverDuplicates` | src/kai/cron.py:107-167 | a run of passes, registrations by id, cancellations and departing triggers duplicates no trigger name at any point if and only if no registration by id finds one of its triggers in the queue |
| `CronTriggers.SecondPassAddsNothing` | src/kai/cron.py:107-146 | a second pass at the same time adds nothing |
| `CronTriggers.CancelledExactly` | src/kai/bot.py:1591-1594 | cancelling takes the triggers one by one and keeps the order of those that stay |
| `CronTriggers.CancelRemovesExactlyTheJob` | src/kai/bot.py:1588-1596 | cancelling removes every trigger of the job and none of any other job |

## Left out

- Text: only `\n` is a line break (the source mixes `splitlines` and `find`), `\d` matches ASCII digits only, and
  characters are code points without normalisation.
- Lower-casing is a parameter of which only `lower("confirmed_action") == "confirmed_action"` is assumed; the text
  hash, the token estimate and the ACP chunk join are parameters without assumptions.
- Parsing of JSON, dates and schedules: records, day numbers and schedule entries arrive parsed, malformed ones as
  cases of their own.
- StreamFilter.SortCandidates: inserts one candidate after the other; Python's sort is not modelled, only its result.
- Dictionaries keep their order as a sequence of keys beside a map; lists of records and chunks are values, so
  aliasing between them is not modelled.
- TagRewrite.RunForUser: takes the operator's answers as a function of the cluster; the dialogue, the row fetch and the
  formatting of the report and the audit file are left out.
- TranscriptWindow.FetchTranscriptContext: leaves out drift logging and the constant `truncated` flag.
- History.GetRecentHistory: file names and namespaces are left out.
- AcpTurns.AcpBackend.SendTurn: the conversion of images is left out, and of the answers to server requests their
  contents; a notice about dropped images is the seed of the text. Timeouts are outcomes that
  the world chooses, and the quiet window separates chunks that arrive in time from late ones.
- CodexTurn.StreamTurn: begins after the prompt was written; process start, images and the clock are left out.
- LockPool.BoundedPool.GetEntry: takes the set of held or set entries as a parameter; the asyncio event loop is
  modelled as a sequence of events, and timers and cancellation as a waiter that gives up.
- ScoreSummary.PercentileIsMonotone: over real numbers, so floating-point rounding is not modelled.
- ApplicationHost.KaiApplicationHost.Stop: a stop is one step, so calls that come while it waits and its cancellation
  are left out, and so are readiness and the wait for adapters.
- CronTriggers.Scheduler.RegisterNewJobs: what a trigger does when it fires is left out.
- The `claude.py` stream and the Discord and HTTP adapters: smaller copies of the machines modelled here.
- Message handlers, subprocess signalling, webhooks, stores and prompt assembly: effects outside this logic.
