# Nisaba, verified

A Dafny model of the parts of Nisaba whose correctness is hard to see, with proofs of what
they are for. `dafny verify dfyconfig.toml` checks everything.

* **Tracked changes.** A document is a text with overlapping range marks (inserted, deleted,
  secret, comment). Views filter characters by mark coverage; accepting or rejecting a change
  removes characters and moves every other mark. `Survivors` is the algebra of "which
  characters are left and where positions end up"; `ResolutionRuns` shows that any run of
  verdicts has a closed form in it, from which order-independence (`RunsConverge`), the
  preservation of views (`ViewRuns`, `Bulk`) and the preservation of validity
  (`ValidityRuns`) follow; `Reports` says what the outcomes report. `Redline` proves that injecting change markup never changes the
  bracket, math and raw balance of the source.
* **Diff.** `Lcs` and `EditScripts` define longest common subsequences and edit scripts on
  their own terms; `Hirschberg` proves the linear-space divide-and-conquer optimal against
  them, with its arithmetic and work bounds. `ChangeLists` and `TokenScripts` are the runs of
  a diff and the lines and words it divides texts into; `Refinement` says what a tiered diff
  is, read off the finished list of runs, and `TieredDiff` proves that the loops produce one
  that reconstructs both texts.
* **Sync.** `SyncClient` is the client's event handlers, as functions and as a class whose
  methods compute them; `SyncProtocol` puts client, a hostile network and a relay known only
  by its contract together and proves one invariant; `SyncTheorems` reads the guarantees
  off it. `SyncFrame` and `SyncCodec` are the binary protocol.
* **Export.** `Crc32`, `Zip`, `ZipRoundTrip`, `ArchiveFiles` and `ZipWriter` are the archive
  writer with an independent reader; `RisText`, `RisRoundTrip`, `Bibliography`, `RisExport`,
  `RisFields`, `ExportTree`, `ExportProof`, `ExportContents` and `ExportMethods` are the
  reference export with its validator.
* **Compilation.** `CompileWorker` and `CompilePool` are the warm workers and their pool.

Texts are sequences of Unicode scalar values, positions are 32-bit character indexes, and
numbers that the source keeps in fixed widths are bounded where the bound can be reached.
Where the source changes something step by step (a row of a table, a buffer, the fields of
an object) the model is a method or a class proved against a function; the theorems are
lemmas about those functions.

## What turned out different from what one might expect

* Rejecting an insertion can orphan a comment, so only accepts keep a valid document valid.
  `ValidityRuns.RunKeepsValidIff` gives the exact condition, `RejectCanOrphan` an example.
* Dropping the inserted runs of a redline gives the baseline text if and only if no character
  is both inserted and deleted (`Redline.DroppingInsertedGivesBaseline`; one such character is
  the example of `DroppingInsertedCanDiffer`).
* The comment on the work limit of `diff_seq` bounds the size of the grid; the cells written
  over the whole recursion can exceed it. Counted at each write, sequences of m and n elements
  cost at most `MostCells(m, n) == n * Rows(m)` cells, where a slice of m >= 2 elements counts
  as m rows and those of its larger half, and sequences that share nothing cost exactly that
  (`Hirschberg.DiffSeq`). So for lengths within the limit every pair stays within it if and
  only if `MostCells(m, n)` does: `Hirschberg.DiffWithinLimit` is one direction, and
  `Hirschberg.WorstCase` builds, for any other lengths, a pair that exceeds it. Two
  sequences of 8192 elements that share nothing are such a pair (`WorkCanExceedLimit`), and
  the cells are never more than three times the grid (`MostCellsBounds`).
* A changed region over the refinement limit is emitted as a deletion and an insertion even
  if one of them is empty. So the result has an empty run if and only if the script of the
  lines has a change with nothing changed opposite to it that is over the limit, as every
  long insertion into an empty text is (`TieredDiff.DiffChars`).
* The browser's text decoder strips a byte-order mark, so a sync frame with a text that
  starts with one does not survive a round trip, nor do bytes that carry one re-encode to
  themselves. Both are stated as equivalences (`SyncFrame.FrameRoundTrip`,
  `SyncFrame.AcceptedReencodes`) with a frame that fails both (`MarkedFrameIsLost`,
  `MarkedBytesChange`).
* Uncited references are numbered by id, not in input order as the comment on
  `number_bibliography` has it (`Bibliography.NumbersFollowCitations`). Their input order is
  kept if and only if they stand in it by id (`InputOrderKeptIff`); of "b" and then "a", both
  uncited, "a" gets the lower number (`InputOrderCanChange`).
* A reference id with blanks around it or a line break in it is written to RIS but cannot be
  read back: the validator accepts the builder's tree if and only if no id is like that
  (`ExportProof.BuildIsAcceptedIff`; `BlankBookIsRefused` is a book of one such reference).

## Model

| member | source | states |
|---|---|---|
| Resolution.RemoveCharRange | crates/nisaba-core/src/resolution.rs:136-148 | the text without a clamped character range; unchanged for an empty or out-of-range one |
| Resolution.RemapLoop | crates/nisaba-core/src/resolution.rs:193-232 | every other mark moved to where its characters are, with the exact count of moved and list of emptied marks |
| Resolution.Resolve | crates/nisaba-core/src/resolution.rs:154-240 | the loops compute the outcome function, errors for unknown and non-change marks included |
| Reports.OutcomeReports | crates/nisaba-core/src/resolution.rs:154-240 | the removed range is what was cut out of the text, the count is that of the marks that lie elsewhere, and the list names by increasing id the marks that lost their last character |
| ResolutionRuns.RemapIsRank | crates/nisaba-core/src/resolution.rs:95-119 | the position map is exactly "minus the number of removed characters below", on top of any earlier removals |
| ResolutionRuns.RunClosedForm | crates/nisaba-core/src/resolution.rs:95-240 | after any run of verdicts, on any ids: the original text minus the union of the destructively resolved ranges, and every other mark re-ranked |
| ResolutionRuns.RunsConverge | crates/nisaba-core/src/resolution.rs:154-240 | every order of the same verdicts reaches the same text and marks |
| Projection.FlagMeansCovered | crates/nisaba-core/src/projection.rs:96-120 | the OR-ed flag byte of a character has a kind's bit exactly if some mark of that kind covers it |
| Projection.CharFlags | crates/nisaba-core/src/projection.rs:96-120 | the nested loops produce those flags for every character, ranges clamped |
| Projection.ProjectText | crates/nisaba-core/src/projection.rs:129-150 | the filter loop yields exactly the characters the view does not hide, in order |
| Projection.EditorIsText | crates/nisaba-core/src/projection.rs:129-138 | the editor view is the whole text |
| ViewRuns.ProjectShrunk | crates/nisaba-core/src/projection.rs:129-150 | the view of a document after a run can be read off the original document |
| ViewRuns.RunPreservesView | crates/nisaba-core/src/resolution.rs:154-240 | any run of accepts preserves Proposed and Public, any run of rejects preserves Baseline |
| ViewRuns.ResolveEverything | crates/nisaba-core/src/resolution.rs:154-240 | accepting every change leaves exactly the Proposed text, rejecting every change exactly Baseline, and no change mark |
| Occurrence.OccurrenceOrders | crates/nisaba-core/src/mark.rs:246-257 | timestamp, author and id form a total order on marks, up to equal ids |
| Bulk.ResolveBulk | crates/nisaba-core/src/review.rs:587-623 | the loop over the selected marks in occurrence order computes the batch function |
| Reports.BatchReports | crates/nisaba-core/src/review.rs:587-623 | one operation for each existing mark asked for, by timestamp, then author, then id |
| Bulk.ResolveInOrder | crates/nisaba-core/src/review.rs:600-620 | the marks are resolved in turn, gone ones skipped, up to the first error |
| Bulk.BulkIgnoresCallerOrder | crates/nisaba-core/src/review.rs:587-623 | text, marks, operation list and error depend on the set of ids alone, not on order or repeats |
| Bulk.BulkIsRun | crates/nisaba-core/src/review.rs:587-623 | a batch of change marks succeeds and is the run of its verdicts |
| Bulk.BulkRefuses | crates/nisaba-core/src/review.rs:587-623 | one selected comment or secret refuses the whole batch |
| Bulk.BulkSettles | crates/nisaba-core/src/review.rs:587-623 | a batch succeeds exactly without comments and secrets, preserves the matching view, and leaves that view if it names every change |
| Validation.Sweep | crates/nisaba-core/src/validation.rs:223-236 | the moving cursor over sorted intervals decides whether every position is covered |
| Validation.IsRangeFullyDeleted | crates/nisaba-core/src/validation.rs:206-237 | true exactly for a non-empty range each of whose characters some delete covers |
| Validation.FindOrphans | crates/nisaba-core/src/validation.rs:176-199 | every orphaned comment once, by id, and nothing else |
| Validation.NoFlagNoConflict | crates/nisaba-core/src/validation.rs:123-135 | the flag shortcut never suppresses a conflict |
| Validation.FindConflicts | crates/nisaba-core/src/validation.rs:123-175 | every insert/delete pair whose clamped ranges share a character, once, in order, with exactly the shared range |
| Validation.StructuralReported | crates/nisaba-core/src/validation.rs:105-122 | by increasing id, an inverted mark is reported as inverted and nothing else, any other that ends past the text as out of bounds with the length of the text |
| Validation.Validate | crates/nisaba-core/src/validation.rs:100-199 | the three sections of the report, each with exactly its issues in its order, and no issue exactly if the document is in bounds, conflict-free and without orphans |
| ValidityRuns.RunKeepsStructure | crates/nisaba-core/src/resolution.rs:193-240 | bounds and conflict-freedom are invariants of every run |
| ValidityRuns.RunKeepsValidIff | crates/nisaba-core/src/validation.rs:100-199 | a run keeps a valid document valid exactly if each comment keeps a visible character or loses all of them |
| ValidityRuns.AcceptsKeepValid | crates/nisaba-core/src/validation.rs:100-199 | accepting any changes in any order keeps a fully valid document fully valid |
| ValidityRuns.RejectCanOrphan | crates/nisaba-core/src/resolution.rs:193-240 | a concrete valid document that one reject makes invalid |
| Documents.Document.SetText | crates/nisaba-core/src/document.rs:189-192 | the new text without marks, always valid |
| Documents.Document.AddMark | crates/nisaba-core/src/document.rs:195-197 | the mark replaces any with its id; nothing else changes |
| Documents.Document.RemoveMark | crates/nisaba-core/src/document.rs:200-202 | the mark is gone and returned; nothing else changes |
| Documents.Document.ResolveMark | crates/nisaba-core/src/document.rs:232-254 | one step of a run; a refused call changes nothing |
| Documents.Document.View | crates/nisaba-core/src/document.rs:206-208 | the projection of the current fields |
| Documents.Document.IsValid | crates/nisaba-core/src/document.rs:218-226 | validity of the current fields |
| Lcs.LcsIsUpperBound | crates/nisaba-core/src/review.rs:327-358 | no common subsequence is longer than the recurrence the rows compute says |
| Lcs.LcsIsAttained | crates/nisaba-core/src/review.rs:327-358 | some common subsequence is that long |
| Lcs.LcsSplit | crates/nisaba-core/src/review.rs:308-322 | some split of the second sequence loses nothing when the first is halved |
| Lcs.LcsFront | crates/nisaba-core/src/review.rs:344-358 | the same length by the recurrence from the front, which the backward rows use |
| EditScripts.PushCompact | crates/nisaba-core/src/review.rs:360-384 | appending a run keeps the list without empty runs and mergeable neighbours |
| EditScripts.ScriptBound | crates/nisaba-core/src/review.rs:258-262 | no edit script keeps more elements than the longest common subsequence |
| Hirschberg.LcsRowPrefix | crates/nisaba-core/src/review.rs:327-341 | the two rolling rows end with the exact LCS length for every prefix; the writes are counted |
| Hirschberg.LcsRowSuffix | crates/nisaba-core/src/review.rs:344-358 | likewise for every suffix |
| Hirschberg.BestSplit | crates/nisaba-core/src/review.rs:308-319 | the chosen split keeps as much as the whole |
| Hirschberg.SubBound | crates/nisaba-core/src/review.rs:234-237 | below the work limit every row entry is at most the shorter side, at most 8192 |
| Hirschberg.SumFits | crates/nisaba-core/src/review.rs:312-319 | and so is every left+right sum, so 32 bits suffice |
| Hirschberg.FirstOccurrence | crates/nisaba-core/src/review.rs:297-299 | the search stops at the first occurrence of the element, or at the end |
| Hirschberg.DiffSingle | crates/nisaba-core/src/review.rs:297-306 | the base case keeps its one element exactly if it occurs, which is optimal |
| Hirschberg.DiffRec | crates/nisaba-core/src/review.rs:264-324 | trimming, base cases and recursion extend the script over both slices, within the limit by exactly their LCS |
| Hirschberg.DiffSeq | crates/nisaba-core/src/review.rs:258-358 | a compact script from a to b; within the limit minimal and never a wholesale replacement; the cells written are at most n times the rows of the halving recursion, and exactly that on disjoint sequences |
| Hirschberg.WorstCase | crates/nisaba-core/src/review.rs:234-237 | for any two lengths within the limit, a disjoint pair that writes the most cells: it keeps to the limit exactly if those lengths always do |
| Hirschberg.DiffWithinLimit | crates/nisaba-core/src/review.rs:234-237 | every pair of lengths whose worst case is within the limit keeps to it, with an LCS script |
| Hirschberg.MostCellsBounds | crates/nisaba-core/src/review.rs:234-237 | the worst case is over the grid itself from three elements on, and never over three times it |
| Hirschberg.WorkCanExceedLimit | crates/nisaba-core/src/review.rs:234-237 | two sequences within the limit on which more cells are written than the limit |
| Hirschberg.LcsScriptIsMinimal | crates/nisaba-core/src/review.rs:258-262 | a script that keeps the LCS deletes and inserts least |
| TokenScripts.SplitLines | crates/nisaba-core/src/review.rs:194-208 | non-empty pieces that concatenate to the text, each ending at its only line break but the last |
| TokenScripts.SplitWords | crates/nisaba-core/src/review.rs:211-226 | alternating maximal runs of blanks and non-blanks that concatenate to the text |
| Refinement.PrefixIsOptimal | crates/nisaba-core/src/review.rs:258-262 | every prefix of a script that keeps the most keeps the most |
| Refinement.NeighboursShareNothing | crates/nisaba-core/src/review.rs:475-525 | neighbouring deletions and insertions of such a script have no element in common |
| TieredDiff.RefineChars | crates/nisaba-core/src/review.rs:475-525 | character runs that add exactly the two regions to the two sides, keep exactly as many characters as the longest common subsequence, at their places, and leave no character shared by neighbouring changes |
| TieredDiff.Group | crates/nisaba-core/src/review.rs:440-457 | neighbouring deletions and insertions are gathered, all of them and no more, up to the next equal run |
| TieredDiff.EmitRegion | crates/nisaba-core/src/review.rs:460-468 | a region over the refinement limit is one deletion and one insertion, and any other is divided at the next tier |
| TieredDiff.DiffRegion | crates/nisaba-core/src/review.rs:407-472 | the regions of both sides are added exactly; the tokens a minimal script keeps are kept at their places, and every group of changes is given up whole or divided by the words, then the characters, of its two sides |
| TieredDiff.DiffTokens | crates/nisaba-core/src/review.rs:423-472 | the cursor loop over the runs of any token script does that, and leaves an empty run exactly for a lone change over the refinement limit |
| TieredDiff.DiffChars | crates/nisaba-core/src/review.rs:180-186 | kept+deleted runs spell old, kept+inserted runs spell new, no two neighbours of a kind; divided by lines, words and characters as above, so neighbouring changes of at most 8192 characters share none; a run is empty exactly if the line script has a lone change over the refinement limit |
| Delimiters.ClassifyInlineSafety | crates/nisaba-core/src/redline.rs:95-136 | the counter loop computes the verdict, first failing reason included |
| Delimiters.OpensOneContentBlock | crates/nisaba-core/src/redline.rs:264-296 | exactly: the open marker leaves one square bracket open which the close marker closes |
| Delimiters.NonSquareDelimitersClean | crates/nisaba-core/src/redline.rs:300-325 | exactly: all other delimiters of a marker balance |
| Redline.ValidateStyle | crates/nisaba-core/src/redline.rs:215-251 | no problem exactly for a style whose markers all balance |
| Redline.DefaultStyleIsValid | crates/nisaba-core/src/redline.rs:193-212 | the default style passes |
| Redline.RedlineWithReport | crates/nisaba-core/src/redline.rs:364-464 | the text is cut into maximal runs of one kind, each emitted and recorded in order; the redline keeps the verdict of the source, the records are ordered and disjoint |
| Redline.EmitWraps | crates/nisaba-core/src/redline.rs:180-190 | a span is emitted as it is, between the insertion markers, between the deletion markers or between those of a replaced block |
| Redline.EmitChange | crates/nisaba-core/src/redline.rs:438-464 | one changed run is appended between the markers of its own kind if it is inline-safe and of a replaced block if not, and recorded with its kind, verdict and range |
| Redline.RedlineKeepsVerdict | crates/nisaba-core/src/redline.rs:95-136 | for every valid style the redline has the same safety verdict as the source, reason included |
| Redline.RunsSpellText | crates/nisaba-core/src/redline.rs:364-413 | the runs spell the source, every character once and in order |
| Redline.DroppingDeletedGivesProposed | crates/nisaba-core/src/redline.rs:364-413 | dropping deleted runs gives Proposed |
| Redline.DroppingInsertedGivesBaseline | crates/nisaba-core/src/redline.rs:416-428 | dropping inserted runs gives Baseline exactly if no character is both |
| Redline.DroppingInsertedCanDiffer | crates/nisaba-core/src/redline.rs:416-428 | a text of one character, both inserted and deleted, where it does not |
| Redline.ReportCoversChanges | crates/nisaba-core/src/redline.rs:438-464 | the recorded runs cover exactly the changed characters, each under its kind |
| Redline.ReportIsOrdered | crates/nisaba-core/src/redline.rs:438-464 | recorded runs are non-empty, ordered and disjoint |
| SyncClient.SyncConnection.SendPending | web/src/sync.ts:124-128 | the head of the queue goes out only if nothing awaits a receipt |
| SyncClient.SyncConnection.SendUpdate | web/src/sync.ts:130-134 | an empty batch is dropped, another queued and sent if possible; what was queued and sent |
| SyncClient.SyncConnection.TeardownSocket | web/src/sync.ts:182-193 | receipt and handshake are forgotten, the queue is kept |
| SyncClient.SyncConnection.HandleOpen | web/src/sync.ts:200-229 | the open event, with a hello that cannot be encoded |
| SyncClient.SyncConnection.HandleWelcomeTimeout | web/src/sync.ts:219-223 | no welcome in time closes the socket, unless one came or the end was final |
| SyncClient.SyncConnection.HandleWelcome | web/src/sync.ts:234-275 | first welcome of all against later ones, merge failures included; what was queued, sent, seeded and attached |
| SyncClient.SyncConnection.HandleUpdate | web/src/sync.ts:276-288 | merge first, then compare with the batch that awaits its receipt; what left the queue and what was sent |
| SyncClient.SyncConnection.HandleSnapshot | web/src/sync.ts:276-288 | a snapshot is merged and never taken for a receipt |
| SyncClient.SyncConnection.HandleError | web/src/sync.ts:297-308 | three codes are retried, all others are final |
| SyncClient.SyncConnection.Abort | web/src/sync.ts:309-315 | a protocol failure is final, the subscription dropped, the socket closed |
| SyncClient.SyncConnection.HandleClose | web/src/sync.ts:317-322 | teardown, and a reconnect unless the end was final |
| SyncClient.SyncConnection.HandleReconnectTimer | web/src/sync.ts:195-199 | one new socket, or none if the end was final |
| SyncClient.SyncConnection.Close | web/src/sync.ts:331-336 | the caller's close |
| SyncProtocol.StepKeepsInv | web/src/sync.ts:97-342 | every event of client, network, relay or another peer keeps the invariant |
| SyncProtocol.Reachable | web/src/sync.ts:97-342 | so every reachable state satisfies it |
| SyncTheorems.NothingIsLost | web/src/sync.ts:114-134 | produced == receipted ++ pending; what left the queue is persisted; first occurrences in the log are a prefix of the produced batches, as long as the receipts or one more |
| SyncTheorems.StopAndWait | web/src/sync.ts:124-128 | on a socket batches go out in order without gap or repeat, at most one beyond the receipts |
| SyncTheorems.OneOrigin | web/src/sync.ts:106-112 | the editor is attached at most once and the relay seeded at most once |
| SyncTheorems.SeedsOnlyAnEmptyRelay | web/src/sync.ts:238-260 | only the first welcome, and only one without content, seeds |
| SyncTheorems.LocalIsProduced | web/src/sync.ts:130-134 | a non-empty batch of the editor enters the queue, whatever else is going on |
| SyncTheorems.ProducedIsHanded | web/src/sync.ts:130-261 | over any run the queue has taken in exactly the seed, if the first welcome came without content, and then every non-empty batch of the editor in order; the editor is attached exactly if that welcome was merged |
| SyncTheorems.ErrorIsRetriedIff | web/src/sync.ts:297-321 | three error codes lead to a reconnect with the queue kept, and every other is final |
| SyncTheorems.SilentRelayIsLeft | web/src/sync.ts:218-224 | when the welcome timer fires, a connection without handshake is closed and nothing else changes |
| SyncTheorems.NeverHangs | web/src/sync.ts:168-224 | in every reachable state a live connection waits for a welcome only with its timer armed, and is closed only with a reconnect armed |
| SyncTheorems.AttemptsAreCounted | web/src/sync.ts:168-322 | a close counts an attempt; a receipt, or a welcome with nothing queued, sets the count back to zero |
| SyncTheorems.EndUnsubscribes | web/src/sync.ts:182-194 | the editor is let go of when the connection has ended for good |
| SyncTheorems.ReconnectOnlyMerges | web/src/sync.ts:261-267 | a later welcome produces nothing; once merged, a queue that is not empty has its head out and its receipt awaited |
| SyncTheorems.TerminalIsFinal | web/src/sync.ts:168-198 | closed and unsupported are absorbing: no further socket, no update handed to a socket, new or repeated |
| SyncTheorems.CanDrain | web/src/sync.ts:182-193 | from every reachable live state some continuation delivers everything queued |
| SyncFrame.BytesRoundTrip | web/src/protocol.ts:66-108 | what decoding makes of any encoded frame; the same frame exactly if in range and within limits |
| SyncFrame.TypeNumbers | web/src/protocol.ts:11-11 | the first byte of a message names its type |
| SyncFrame.AcceptedIsCanonical | web/src/protocol.ts:93-108 | every accepted byte string is the encoding of the frame returned |
| SyncFrame.PrefixFree | web/src/protocol.ts:79-108 | no accepted message is a proper prefix of another |
| SyncFrame.CutOrExtendedIsRefused | web/src/protocol.ts:79-108 | every proper prefix and every extension of an encoded frame is refused, also of one over the limits |
| SyncFrame.FrameRoundTrip | web/src/protocol.ts:66-108 | on texts: the same frame exactly if in range, within 16 MiB and without leading byte-order marks; refused exactly if over the limit |
| SyncFrame.MarkedFrameIsLost | web/src/protocol.ts:87-87 | a frame that is accepted but comes back without its byte-order mark |
| SyncFrame.AcceptedReencodes | web/src/protocol.ts:93-108 | accepted bytes re-encode to themselves exactly without a byte-order mark in a text payload |
| SyncFrame.MarkedBytesChange | web/src/protocol.ts:87-87 | accepted bytes that do not re-encode to themselves |
| Utf8.DecodeEncode | web/src/protocol.ts:1-2 | the strict decoder inverts the encoder |
| Utf8.EncodeDecode | web/src/protocol.ts:1-2 | the encoder inverts the strict decoder, so over-long forms and surrogates are refused |
| SyncCodec.FrameSizeIsExact | web/src/protocol.ts:54-63 | the pre-computed size is the number of bytes written |
| SyncCodec.EncodeSyncFrame | web/src/protocol.ts:66-77 | the encoder never runs past its buffer, fills it, and throws exactly for fields over their width |
| SyncCodec.Encoder.U32 | web/src/protocol.ts:32-38 | four bytes from the top, or a refusal over 32 bits |
| SyncCodec.Encoder.U64 | web/src/protocol.ts:39-42 | eight bytes from the top, or a refusal outside 64 bits |
| SyncCodec.Encoder.Data | web/src/protocol.ts:43-47 | length and bytes appended |
| SyncCodec.SyncCursor.ReadBig | web/src/protocol.ts:82-85 | the byte loops read a big-endian number or refuse a truncated one |
| SyncCodec.SyncCursor.ReadBytes | web/src/protocol.ts:86-86 | a sized field within the limit and the message |
| SyncCodec.SyncCursor.ReadString | web/src/protocol.ts:87-87 | likewise, and refused unless it is well-formed UTF-8 |
| SyncCodec.DecodeSyncFrame | web/src/protocol.ts:93-108 | the cursor computes the decoding function, trailing bytes refused |
| Crc32.ShiftDifference | crates/nisaba-export/src/lib.rs:328-334 | the difference of two registers evolves like a register |
| Crc32.FeedByte | crates/nisaba-export/src/lib.rs:344-347 | one table lookup is eight steps of the bit-serial register |
| Crc32.Crc32Table | crates/nisaba-export/src/lib.rs:322-339 | entry i is eight steps from i |
| Crc32.Crc32 | crates/nisaba-export/src/lib.rs:341-349 | the table-driven checksum is the bit-by-bit reflected CRC-32 (section 8 of RFC 1952) of every byte string |
| Crc32.BurstIsDetected | crates/nisaba-export/src/lib.rs:341-349 | every corruption within 32 consecutive bits changes the checksum |
| ZipRoundTrip.ArchiveReadsBack | crates/nisaba-export/src/lib.rs:247-310 | reading from the end record through the directory to the local headers gives every entry, in order |
| ArchiveFiles.FilesReadBack | crates/nisaba-export/src/lib.rs:222-233 | and so every file with its path and contents, all checksums verified |
| ArchiveFiles.SafePathStaysBelow | crates/nisaba-export/src/lib.rs:202-214 | a path that is let in leads below the directory it is unpacked in, component by component |
| ZipWriters.ZipWriter.Add | crates/nisaba-export/src/lib.rs:247-269 | one record and one entry appended, or an error and nothing changed, exactly by the three limits |
| ZipWriters.ZipWriter.Finish | crates/nisaba-export/src/lib.rs:271-310 | the complete archive exactly if count, names and end offset fit |
| ZipWriters.WriteZip | crates/nisaba-export/src/lib.rs:222-233 | succeeds exactly for safe paths within the format's limits, and then reads back to the same files; the error tells which |
| CompileWorker.Worker.RemoveGone | crates/nisaba-compile-core/src/lib.rs:314-327 | gone sources removed in any order; in step with the workspace also after a refusal |
| CompileWorker.Worker.ApplyChanged | crates/nisaba-compile-core/src/lib.rs:328-334 | afterwards the worker holds exactly the request's sources |
| CompileWorker.Worker.UpdateSources | crates/nisaba-compile-core/src/lib.rs:313-351 | succeeds exactly if every removal and the re-rooting do; in step either way |
| CompileWorker.Worker.Compile | crates/nisaba-compile-core/src/lib.rs:358-384 | content of the universe, and every compile counted as hit or miss |
| CompilePool.CompileWorkers.EvictIdle | crates/nisaba-compile-core/src/lib.rs:474-483 | exactly the workers idle no longer than the limit stay |
| CompilePool.CompileWorkers.EvictLru | crates/nisaba-compile-core/src/lib.rs:487-496 | exactly one worker goes, none used less recently |
| CompilePool.CompileWorkers.MakeRoom | crates/nisaba-compile-wasm/src/lib.rs:165-170 | there is room afterwards unless the pool may hold no worker at all; only a full pool gives up a worker, one used least recently |
| CompilePool.CompileWorkers.WorkerFor | crates/nisaba-compile-wasm/src/lib.rs:160-179 | the warm worker, a new one, or which error; its last use is now; every worker of another project that has not idled out stays, but for one least recently used when a full pool takes a new one |
| CompilePool.CompileWorkers.Serve | crates/nisaba-compile-wasm/src/lib.rs:180-186 | an answer exactly if the worker can follow the request, and then the content of a fresh compile |
| CompilePool.CompileWorkers.Compile | crates/nisaba-compile-wasm/src/lib.rs:156-187 | exactly when a compile succeeds, and which error it is otherwise; never over the bound; a successful answer has the content of a fresh compile; other projects as for WorkerFor |
| CompilePool.CompileFresh | crates/nisaba-compile-wasm/src/lib.rs:75-112 | a worker made for one request yields that content |
| CompilePool.ServeAll | crates/nisaba-compile-wasm/src/lib.rs:156-187 | over any run of calls, failed ones included, the bound holds, every answer is as good as fresh, and a valid call is answered whenever the typesetter refuses nothing |
| RisRoundTrip.ParseWritten | crates/nisaba-references/src/lib.rs:188-285 | written records are read back, values trimmed and on one line, exactly if each has its type first; otherwise refused |
| RisRoundTrip.LinesOfJoined | crates/nisaba-references/src/lib.rs:191-192 | joining and splitting lines are inverse but for trailing returns |
| ExportMethods.ParseRis | crates/nisaba-references/src/lib.rs:188-263 | the line loop computes the parsing function |
| ExportMethods.WriteRis | crates/nisaba-references/src/lib.rs:267-285 | the writing loop computes the text, or refuses a record without a type |
| RisExport.RecordReadsBack | crates/nisaba-references/src/lib.rs:539-648 | the cleaned id and the number can be read from the record of every reference |
| RisExport.BodyIsBody | crates/nisaba-references/src/lib.rs:544-636 | nothing else in a record uses the tags of its frame or keys |
| RisFields.RecordHoldsFields | crates/nisaba-references/src/lib.rs:539-648 | under every RIS tag, exactly the values of the field it stands for, in order |
| RisFields.DashSplits | crates/nisaba-references/src/lib.rs:539-648 | pages are split at their first dash |
| RisFields.WrappedIsJoined | crates/nisaba-references/src/lib.rs:195-217 | a value broken over two lines is read as one with a blank in between |
| Decimals.DecimalRoundTrip | crates/nisaba-references/src/lib.rs:641-646 | a printed 32-bit number parses back |
| ExportMethods.NumberBibliography | crates/nisaba-references/src/lib.rs:1017-1049 | the loops compute the numbering, with its two errors |
| Bibliography.NumbersAreABijection | crates/nisaba-references/src/lib.rs:1017-1049 | the numbers are exactly 1..n, one for each reference |
| Bibliography.NumbersFollowCitations | crates/nisaba-references/src/lib.rs:1031-1039 | lower exactly if cited first or, cited alike, with the lower id |
| Bibliography.CitedAlikeByIds | crates/nisaba-references/src/lib.rs:1031-1039 | two references cited alike keep their input order exactly if their ids are in order |
| Bibliography.InputOrderKeptIff | crates/nisaba-references/src/lib.rs:1012-1039 | uncited references keep the input order exactly if their ids stand in it in order |
| Bibliography.InputOrderCanChange | crates/nisaba-references/src/lib.rs:1012-1039 | two uncited references whose input order is not kept |
| ExportProof.NamesDiffer | crates/nisaba-references/src/lib.rs:1055-1071 | full texts with different numbers have different file names, whatever the authors |
| ExportProof.PathsAreAsManyAsEntries | crates/nisaba-references/src/lib.rs:1350-1366 | no two entries share a path |
| ExportContents.MissingAre | crates/nisaba-references/src/lib.rs:1199-1213 | a refusal for missing full texts names exactly the cited references that lack one |
| ExportContents.BuildSucceedsIff | crates/nisaba-references/src/lib.rs:1191-1233 | a build succeeds exactly if every citation is of a reference, every cited reference has a full text and every reference a title |
| ExportContents.BuildHolds | crates/nisaba-references/src/lib.rs:1214-1232 | the tree has exactly the RIS file and, for each reference with a full text, those bytes under its own path, in path order |
| ExportContents.NameTells | crates/nisaba-references/src/lib.rs:1055-1073 | a file name begins with the number of the reference and ends with its year |
| ExportMethods.BuildManifest | crates/nisaba-references/src/lib.rs:1191-1233 | the loops compute the manifest, which exists and holds what the rows above say; missing full texts are an error before any file |
| ExportMethods.CheckEntry | crates/nisaba-references/src/lib.rs:1300-1347 | exactly the findings that are true of the entry, none exactly for a good one |
| ExportMethods.CheckFiles | crates/nisaba-references/src/lib.rs:1367-1375 | exactly the files of the full-text directory that belong to no entry |
| ExportMethods.ValidateExport | crates/nisaba-references/src/lib.rs:1247-1381 | exactly the findings that are true of the tree, none exactly for an acceptable one |
| ExportContents.LastNumberCounts | crates/nisaba-references/src/lib.rs:1268-1290 | the number read for an id is that of the last record that gives it one |
| ExportContents.AcceptedTells | crates/nisaba-references/src/lib.rs:1247-1398 | in an accepted tree every reference has a record with its id and current number, and every cited one a full text and a file for it |
| ExportProof.ExportIsRead | crates/nisaba-references/src/lib.rs:1265-1297 | the validator reads every id with its number from the exported text |
| ExportProof.BuildIsAcceptedIff | crates/nisaba-references/src/lib.rs:1187-1381 | the validator accepts the builder's tree exactly if every id is trimmed and on one line |
| ExportProof.BlankBookIsRefused | crates/nisaba-references/src/lib.rs:245-249 | a book of one reference, with a blank in front of its id, that is built and refused |

## Left out

- The data layer of documents, `project.rs` and milestones beyond their diff: plain map operations.
- `refresh_comment_threads` and comment threads: they only read the orphan condition proved here.
- `MarkSet::iter_mut`: it lets a caller change the id a mark is stored under; the model keeps marks under their ids.
- Conversions of positions to bytes and UTF-16, and byte offsets in the diff: texts are sequences of characters, and every slice lies between characters.
- The milestone redline: it wraps changes without classifying them, so the verdict theorem does not apply to it.
- Delimiters.ClassifyInlineSafety: depths and counts are unbounded integers where the source has machine words.
- Redline.ReportCoversChanges: for texts of at most 2^32-1 characters, past which the source saturates recorded positions.
- Redline.ReportIsOrdered: for texts of at most 2^32-1 characters, for the same reason.
- Presence, heartbeats, back-off delays, jitter and status messages of the sync client: they decide no safety property; timers are events that may come at any time.
- SyncProtocol.Reachable: assumes that distinct local batches have distinct bytes, which no other peer writes, and that callbacks do not throw.
- Relay internals and the CRDT: the relay is its contract, merging is an opaque step that may fail.
- SyncFrame.FrameRoundTrip: texts are Unicode scalar values, so JavaScript strings with lone surrogates are not modelled; refusals are not told apart by message.
- Typst: `typst::compile`, the workspace and the universe are a function of entry and sources, with failures as inputs; timing and memory figures of a response are left out.
- CompilePool.CompileWorkers.Compile: request validation is a given predicate; lock poisoning cannot happen with one thread and is not modelled.
- The fold of letters to ASCII in file names, DOI and PMID normalisation, ids derived from titles, YAML rendering: string tables; where the export needs one it is a parameter.
- Import of metadata beyond title, accession number and reference number: nothing the validator looks at.
- Citation extraction and `deduplicate`: not needed by the export theorems.
- The builder of project archives (PDF signature, sort, duplicate check): a short sequence of checks before the writer proved here.
- User interface, authentication, network clients and deployment.
