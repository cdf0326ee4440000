# Verified models of pmux

pmux keeps a pool of interactive assistant instances behind a daemon, `pmuxd`, and
surrounds it with a sidecar, an MCP bridge and the scripts that produce its
evidence. This project models the parts whose correctness is a matter of
interleaving, of string boundaries or of bookkeeping over whole histories, and
proves what they promise. `dafny verify dfyconfig.toml` checks everything.

| files | what they model |
|---|---|
| `LeasePool`, `LeaseBook`, `LeaseProtocol`, `LeaseInvariant`, `LeaseTheorems`, `LeaseSnapshots`, `LeaseReplies` | sticky conversation leases: the book, the pool cells, and every interleaving of requests, releases, sweeps and pool expiry |
| `Redaction`, `RedactionDocument` | replacing machine identifiers by placeholders in texts and receipts, and the scan that checks it |
| `OwnerCleanup`, `OwnerRemoval`, `ChildReaper`, `OwnerExit` | the sidecar: removing a private runtime after owner loss, reaping stale children, telling a goodbye from a loss |
| `McpFraming`, `McpResponse` | newline framing with a size limit (the stdio section of "Transports", MCP specification 2025-11-25), and the response writer |
| `MutantKeys`, `MutantCensus` | position-free mutant keys and the census that stands in for them |
| `TestRegions`, `HunkAttribution`, `RegisterCurrency` | deciding whether a recorded mutation register still describes a tree |
| `DrainArrivals`, `DrainState`, `DrainMeasurement`, `DrainRun` | measuring how long rows keep arriving after an answer |
| `BoundedLog` | the log file with a hard ceiling and one backup |
| `Common` | optional values, bytes and flattening, shared by the models |

The lease protocol is a step system: a request snapshots the pool's ids, plans under
the book's lock, talks to the pool outside it, and commits or recovers under it
again, each as its own step, so a snapshot may be arbitrarily stale when it is used.
A step that is not enabled changes nothing, so every sequence of steps is a run and
`Reachable` ranges over all of them. The pool's side (claim, resume, clear, expiry)
follows `crates/service/src/pool/mod.rs`; failures inside an instance are inputs of
the steps.

Code that updates state in place is modelled by classes and loops proved against
functions of the old state; the theorems are about those functions.

## Where the code and its own words part

Each of these is a theorem below: an input that shows it, and the exact condition.

- Rows are dropped when their pool cell is gone, says the comment at
  `bin/pmuxd/src/conversation.rs:590`. The ids are read before the lock, so a row
  committed in between is dropped while its cell still rests in the pool, and the
  next turn of that conversation is refused as busy (`StaleSnapshotLosesRow`,
  `LostRowRefusesNextTurn`). Over every run, the row of a resting cell is lost exactly
  when the cell was not there at the snapshot, and then it was committed since
  (`PlanLosesRowIffMissed`, `SweepLosesRowIffMissed`).
- Rendering is idempotent because no placeholder contains a needle, says the text of
  `render`. For one replacement that is exactly the condition
  (`IdempotentIffNotInPlaceholder`); for a map it suffices (`RenderIsIdempotent`).
- A rendered dictionary can lose entries: a key and its placeholder collide
  (`CollidingKeysLoseEntry`, `HomeKeyCollides`). It keeps them all exactly when its keys
  render apart (`DictKeepsEntriesIffKeysApart`).
- The line scan cannot see a needle that holds a line break
  (`BrokenNeedleIsNeverReported`), and sees every other one (`LinesCoverText`).
- A line's carriage return counts towards the MCP frame limit although it is dropped
  (`CarriageReturnCounts`): refused although the content fits are exactly the
  terminated lines of one byte more than the limit that end in it
  (`CarriageReturnRefusesIff`).
- The node bound of the owner cleanup is exceeded by up to depth + 1 records
  (`BoundIsAttained`, `ListIsBounded`). A tree is accepted exactly when its nodes are
  private and its size is within the bound plus the directories open around its last
  entry (`AcceptsIff`).
- A `#[cfg(test)]` region that holds an enumerated mutant is said to be refused. Only
  mutants with an item span are looked at, so a product constant inside a region that
  the scanner got wrong is edited in silence (`ItemlessMutantIsExcused`). All mutants of
  a file are protected exactly when a region meets an item, or no region meets a
  mutant without one (`MutantsProtectedIff`).
- The bound check of the drain measurement is said to fail when an arrival exceeds the
  bound. It compares a rounded maximum (`SmallExcessPasses`, `ReportedAboveIff`). The
  table entry for an assistant row after the answer can never be met
  (`NoArrivalIsAnAnswer`).
- The log's ceiling is hard exactly when the file it opens is marked full, leaves room
  for the capacity record, or has reached the ceiling (`CeilingHoldsIff`).

## Model

| member | source | states |
|---|---|---|
| `LeasePool.ClassifyPrefix` | bin/pmuxd/src/conversation.rs:114-155 | a replay is an equal request and nothing else; a continuation's typed tail joined to the previous messages is the request |
| `LeasePool.ContinueIsStrictExtension` | bin/pmuxd/src/conversation.rs:114-136 | every strict extension of the same class and system text continues, and only the added messages are typed |
| `LeasePool.HeardAfter` | bin/pmuxd/src/conversation.rs:639-680 | what a cell has heard grows by exactly the typed prompt |
| `LeaseBook.ConversationBook.RemoveOrphans` | bin/pmuxd/src/conversation.rs:590-601 | the loop removes exactly the idle rows missing from the snapshot and keeps the cap |
| `LeaseBook.ConversationBook.Plan` | bin/pmuxd/src/conversation.rs:463-547 | the planning critical section, branch by branch, is the specified book and verdict; disjointness and cap survive |
| `LeaseBook.ConversationBook.Commit` | bin/pmuxd/src/conversation.rs:682-695 | commit clears the reservation and leaves one idle row with the new fingerprint, result and cell |
| `LeaseBook.ConversationBook.RecoverFailedTurn` | bin/pmuxd/src/conversation.rs:606-621 | recovery either only clears the in-flight mark or removes row and reservation |
| `LeaseBook.ConversationBook.Release` | bin/pmuxd/src/conversation.rs:559-573 | release is refused exactly while a turn is under way, and otherwise removes only that row |
| `LeaseBook.PlanBookOk` | bin/pmuxd/src/conversation.rs:362-366 | planning keeps live and reserved disjoint and within `max_leases` |
| `LeaseBook.VerdictMeans` | bin/pmuxd/src/conversation.rs:463-547 | busy if and only if a turn is under way; cap, replay, continuation and reprime each if and only if their condition on the row and the snapshot holds |
| `LeaseBook.PlanChanges` | bin/pmuxd/src/conversation.rs:463-547 | planning writes one reservation or one in-flight mark, on its own conversation, and drops exactly the idle rows its ids do not name |
| `LeaseBook.CommitBookOk` | bin/pmuxd/src/conversation.rs:682-695 | a commit turns a reservation into a row without passing the cap |
| `LeaseBook.RecoverBookOk` | bin/pmuxd/src/conversation.rs:606-621 | recovery keeps disjointness and cap |
| `LeaseBook.VanishedReplayPrimes` | bin/pmuxd/src/conversation.rs:481-546 | a replay whose cell vanished always becomes a prime: neither cap nor reservation can refuse it |
| `LeaseInvariant.KeepPlan` | bin/pmuxd/src/conversation.rs:463-547 | planning with any snapshot, however stale, keeps the global invariant |
| `LeaseInvariant.KeepDeliver` | crates/service/src/pool/mod.rs:478-530 | the end of a turn, answered or failed, keeps the invariant |
| `LeaseInvariant.KeepCommit` | bin/pmuxd/src/conversation.rs:682-695 | a commit keeps the invariant and is the last commit of its conversation |
| `LeaseInvariant.KeepRecover` | bin/pmuxd/src/conversation.rs:606-621 | recovery, with the pool asked before the lock, keeps the invariant |
| `LeaseInvariant.KeepRelease` | bin/pmuxd/src/conversation.rs:559-573 | an explicit release keeps the invariant |
| `LeaseInvariant.KeepExpire` | crates/service/src/pool/mod.rs:532-568 | the pool clearing any resting cell at any time keeps the invariant |
| `LeaseInvariant.KeepStep` | bin/pmuxd/src/conversation.rs:406-705 | every step of every task keeps the invariant |
| `LeaseInvariant.ReachableInv` | bin/pmuxd/src/conversation.rs:406-705 | the invariant holds in every reachable state of every interleaving |
| `LeaseTheorems.IdleCellHoldsItsRow` | bin/pmuxd/src/conversation.rs:462-556 | in every reachable state an idle row's cell has heard exactly the row's messages, with its class, system text and token |
| `LeaseTheorems.AnsweredCellHoldsRequest` | bin/pmuxd/src/conversation.rs:623-705 | a cell whose turn is answered has heard exactly that request |
| `LeaseTheorems.DeliveredCell` | crates/service/src/pool/mod.rs:478-530 | an answered cell has heard exactly the request, by the primer alone or by the missing suffix after what it held; a failed one is gone; no other cell changes |
| `LeaseTheorems.OwnershipIsExact` | bin/pmuxd/src/conversation.rs:464-547 | at most one turn owns a conversation; reserved if and only if a prime owns it, in flight if and only if another turn does |
| `LeaseTheorems.CapIsNeverExceeded` | bin/pmuxd/src/conversation.rs:362-366 | live and reserved are disjoint and never exceed the cap, in any run |
| `LeaseTheorems.QuiescentBookIsIdle` | bin/pmuxd/src/conversation.rs:549-556 | with no turn under way nothing is reserved and no row is in flight |
| `LeaseTheorems.ReplayIsLastCommit` | bin/pmuxd/src/conversation.rs:481-494 | every replay ever served carried the answer of the last committed turn of that id, asked with the same request |
| `LeaseTheorems.ReplayTypesNothing` | bin/pmuxd/src/conversation.rs:481-494 | a replay comes from a cell that holds the request and changes no cell |
| `LeaseTheorems.ResumeNeverClashes` | bin/pmuxd/src/conversation.rs:639-680 | a continuation finds its own resting cell or none: never busy, never another class |
| `LeaseTheorems.FallbackClaimIsFree` | crates/service/src/pool/mod.rs:570-640 | a reprime or a fallback never finds its conversation taken |
| `LeaseTheorems.PrimeRefusedIffCellOutlivesRow` | crates/service/src/pool/mod.rs:570-640 | a first turn is refused by the pool exactly when a resting cell outlived its row |
| `LeaseTheorems.RunForward` | bin/pmuxd/src/conversation.rs:623-705 | over any run a turn never goes back and never changes its plan |
| `LeaseTheorems.RefusedContinuationRestoresRow` | bin/pmuxd/src/conversation.rs:606-621 | from plan to recovery, whatever ran between: a kept continuation has its very row and cell back, any other failure leaves no row |
| `LeaseTheorems.KeepReason` | bin/pmuxd/src/conversation.rs:606-612 | a row is kept exactly for a continuation refused as InvalidConfig whose cell is still leased |
| `LeaseTheorems.StaleSnapshotLosesRow` | bin/pmuxd/src/conversation.rs:462-464 | a reachable run in which planning one conversation drops another's live row |
| `LeaseTheorems.LostRowRefusesNextTurn` | crates/service/src/pool/mod.rs:570-640 | the next turn of that conversation is refused as busy though none is under way |
| `LeaseSnapshots.PlanLosesRowIffMissed` | bin/pmuxd/src/conversation.rs:462-547 | over every run from snapshot to plan, the row of a resting cell is dropped if and only if the snapshot did not name it, and then it was committed since |
| `LeaseSnapshots.SweepLosesRowIffMissed` | bin/pmuxd/src/conversation.rs:575-601 | the same for a sweep |
| `LeaseSnapshots.RunSince` | bin/pmuxd/src/conversation.rs:462-705 | over every run a snapshot is kept until used, and a cell that was absent at it is absent, at work, or committed since |
| `LeaseReplies.DeliveredAnswer` | bin/pmuxd/src/conversation.rs:639-680 | a delivered turn holds the result it was given, the cell it was typed into, and Primed, Continued or Reprimed exactly as it got there |
| `LeaseReplies.CommitReply` | bin/pmuxd/src/conversation.rs:682-704 | the caller is told the cell and the result that the committed row remembers, and they are the turn's |
| `LeaseReplies.AnswerReachesCaller` | bin/pmuxd/src/conversation.rs:623-705 | over every run from delivery on, a caller that is answered gets that result, that cell and that kind, and the turn is in the log |
| `LeaseReplies.FailureCodes` | bin/pmuxd/src/conversation.rs:639-680 | what each refusal or failure of the pool makes of a turn: its code, or the fallback to a primer for a vanished cell |
| `LeaseReplies.FailureReachesCaller` | bin/pmuxd/src/conversation.rs:549-556 | over every run a failed turn keeps its code until its caller has it |
| `LeaseReplies.InvalidContinuationIsUndone` | bin/pmuxd/src/conversation.rs:606-621 | a continuation refused as InvalidConfig on a resting cell gives the row back, changes no cell and says InvalidConfig |
| `LeaseReplies.OtherRefusalClears` | bin/pmuxd/src/conversation.rs:606-621 | any other failure leaves no row, no reservation and no cell, and says its code |
| `LeaseReplies.BusyReply` | bin/pmuxd/src/conversation.rs:730-746 | a request refused by a turn under way or by the cap is told SessionBusy and changes no cell |
| `LeaseReplies.ReprimeClears` | bin/pmuxd/src/conversation.rs:670-679 | a reprime clears its own resting cell, and no other, before it claims |
| `LeaseReplies.ReleaseOutcome` | bin/pmuxd/src/conversation.rs:559-573 | a release is refused exactly while a turn is under way and then changes nothing; otherwise its row and its resting cell are gone and nothing else |
| `LeaseReplies.EvictOutcome` | crates/service/src/pool/mod.rs:532-568 | eviction clears a resting cell only; a cell taken meanwhile stays and a release says busy |
| `LeaseReplies.SweepOutcome` | bin/pmuxd/src/conversation.rs:575-601 | a sweep leaves exactly the rows in flight or named by its ids |
| `LeaseReplies.RequestIsPlanned` | bin/pmuxd/src/conversation.rs:406-547 | ask, snapshot and plan are one plan on the ids and the book found |
| `LeaseReplies.TurnIsAnswered` | bin/pmuxd/src/conversation.rs:623-705 | deliver and commit answer the caller and leave the idle row |
| `LeaseReplies.TurnIsRefused` | bin/pmuxd/src/conversation.rs:549-621 | judge, recover and evict refuse the caller and leave nothing |
| `LeaseReplies.IdleIsReleased` | bin/pmuxd/src/conversation.rs:559-573 | asking for the release of an idle conversation leaves neither row nor cell |
| `LeaseReplies.SweepLeavesLeased` | bin/pmuxd/src/conversation.rs:575-601 | a sweep on fresh ids leaves the rows in flight or with a cell |
| `LeaseReplies.SnapshotNames` | crates/service/src/pool/mod.rs:934-954 | the ids are those of cells in use or at rest, not of pending claims |
| `LeaseReplies.ExpiryTakesRestingCell` | crates/service/src/pool/mod.rs:532-568 | expiry takes a resting cell and nothing else |
| `Redaction.ReplaceAllAtFirst` | tools/evidence_common/portable_paths.py:244-246 | the text before the first occurrence stays, the occurrence becomes the placeholder, and the rest goes the same way |
| `Redaction.AbsentIsUntouched` | tools/evidence_common/portable_paths.py:244-246 | a text without the needle stays as it is |
| `Redaction.EmptyNeedleEverywhere` | tools/evidence_common/portable_paths.py:244-246 | an empty needle is met before every character and at the end |
| `Redaction.NoNewOccurrence` | tools/evidence_common/portable_paths.py:244-246 | a replacement never gives birth to an occurrence of any needle, across any seam |
| `Redaction.ReplacedIsGone` | tools/evidence_common/portable_paths.py:244-246 | a replaced needle is gone everywhere |
| `Redaction.PurgesIffNotInPlaceholder` | tools/evidence_common/portable_paths.py:244-246 | replacing removes a needle from every text if and only if it is not in its placeholder |
| `Redaction.IdempotentIffNotInPlaceholder` | tools/evidence_common/portable_paths.py:239-246 | replacing twice is replacing once, in every text, if and only if the needle is not in its placeholder |
| `Redaction.Render` | tools/evidence_common/portable_paths.py:239-246 | the loop is the sequential replacement, and leaves no needle of a safe map |
| `Redaction.RenderedIsClean` | tools/evidence_common/portable_paths.py:239-246 | no needle is left in any text, however needles contain or overlap each other, in any order |
| `Redaction.RenderIsIdempotent` | tools/evidence_common/portable_paths.py:239-246 | a second pass changes nothing |
| `Redaction.SubstitutionsLongestFirst` | tools/evidence_common/portable_paths.py:213-224 | the derived map is ordered longest needle first |
| `Redaction.SubstitutionsStable` | tools/evidence_common/portable_paths.py:213-224 | needles of one length keep the order they were found in |
| `Redaction.NeedleBecomesItsPlaceholder` | tools/evidence_common/portable_paths.py:213-224 | longest first, a text that is a needle becomes that needle's placeholder |
| `Redaction.ShortestFirstTearsNeedle` | tools/evidence_common/portable_paths.py:213-224 | shortest first, every checkout inside the home directory is half-substituted |
| `Redaction.LongestFirstKeepsNeedle` | tools/evidence_common/portable_paths.py:213-224 | the derived order renders it whole |
| `RedactionDocument.RenderedShape` | tools/evidence_common/portable_paths.py:261-273 | a scalar stays, a string is rendered, a list keeps its length and has each item rendered in place |
| `RedactionDocument.RenderedDictHas` | tools/evidence_common/portable_paths.py:264-270 | a rendered dictionary has each rendered key once, with the rendered value of the last entry whose key renders to it, and nothing else |
| `RedactionDocument.RenderDocumentIsClean` | tools/evidence_common/portable_paths.py:249-273 | every nested key and value of a rendered receipt is free of every needle |
| `RedactionDocument.RenderDocumentIsIdempotent` | tools/evidence_common/portable_paths.py:249-273 | rendering a receipt twice is rendering it once |
| `RedactionDocument.DictKeepsEntriesIffKeysApart` | tools/evidence_common/portable_paths.py:264-270 | a dictionary keeps all its entries if and only if its keys render apart |
| `RedactionDocument.CollidingKeysLoseEntry` | tools/evidence_common/portable_paths.py:264-270 | under every safe map a needle and its placeholder as keys become one entry, with the second value |
| `RedactionDocument.HomeKeyCollides` | tools/evidence_common/portable_paths.py:264-270 | such a dictionary |
| `RedactionDocument.LinesCoverText` | tools/evidence_common/portable_paths.py:227-236 | scanning line by line finds a one-line needle if and only if it is in the text |
| `RedactionDocument.LinesEndAt` | tools/evidence_common/portable_paths.py:230 | lines end at exactly ten characters |
| `RedactionDocument.LineThenRest` | tools/evidence_common/portable_paths.py:230 | a line and its break are followed by the lines of the rest; a carriage return with its newline is one break |
| `RedactionDocument.Offences` | tools/evidence_common/portable_paths.py:227-236 | exactly the (line, identifier) pairs that carry the needle, in line order |
| `RedactionDocument.Check` | tools/evidence_common/portable_paths.py:227-236 | for one-line needles, no offence if and only if the text is clean |
| `RedactionDocument.RenderedHasNoOffence` | tools/evidence_common/portable_paths.py:227-246 | nothing is ever reported of a rendered text |
| `RedactionDocument.BrokenNeedleIsNeverReported` | tools/evidence_common/portable_paths.py:227-236 | a needle with a line break is in the text and in no line |
| `OwnerCleanup.CollectOwnedTree` | bin/pmux-rmuxd/src/main.rs:637-675 | collection succeeds exactly on accepted trees, and then has appended the post-order listing |
| `OwnerCleanup.CollectEntry` | bin/pmux-rmuxd/src/main.rs:651-669 | one entry passes exactly when the count, its owner, device, mode and kind, and the directory below it do |
| `OwnerCleanup.AcceptedIffPrivate` | bin/pmux-rmuxd/src/main.rs:637-675 | accepted if and only if every node below has the root's owner and device, no group or other permission and a supported kind, no directory is more than 8 levels down, and the count is within 4,096 and the directories open around the last entry |
| `OwnerCleanup.AcceptsIff` | bin/pmux-rmuxd/src/main.rs:643-674 | accepted if and only if every node is private and shallow enough and the size is within the bound plus the directories open around the last entry |
| `OwnerCleanup.ListIsBounded` | bin/pmux-rmuxd/src/main.rs:643-674 | an accepted list has at most nodes + depth + 1 entries |
| `OwnerCleanup.BoundIsAttained` | bin/pmux-rmuxd/src/main.rs:643-674 | a tree with exactly that many entries is accepted |
| `OwnerCleanup.SmallTreesAccepted` | bin/pmux-rmuxd/src/main.rs:643-669 | every tree of private nodes within the bounds is accepted |
| `OwnerCleanup.AcceptedIsAllowed` | bin/pmux-rmuxd/src/main.rs:651-669 | nothing foreign, permissive, unsupported or too deep is accepted |
| `OwnerRemoval.PostOrderPaths` | bin/pmux-rmuxd/src/main.rs:637-675 | the list names exactly the nodes of the tree |
| `OwnerRemoval.PostOrderFits` | bin/pmux-rmuxd/src/main.rs:637-675 | on an unchanged tree each node is listed once, as it is, after everything below it |
| `OwnerRemoval.DeleteNodes` | bin/pmux-rmuxd/src/main.rs:615-627 | only listed nodes, each in its recorded identity, are removed; a list that fits is carried out to the end |
| `OwnerRemoval.RemoveAfterOwnerLoss` | bin/pmux-rmuxd/src/main.rs:566-629 | a refused cleanup deletes nothing; an accepted one removes the whole tree and nothing outside it |
| `ChildReaper.RunStart` | bin/pmux-rmuxd/src/main.rs:353-364 | the start of a child's unbroken run of untracked observations, and the earliest such |
| `ChildReaper.Reaper.Observe` | bin/pmux-rmuxd/src/main.rs:353-364 | one observation updates the map as specified and attempts exactly the children old enough |
| `ChildReaper.NextIsHistory` | bin/pmux-rmuxd/src/main.rs:353-364 | the remembered instants are the history function of all observations |
| `ChildReaper.SuccessesNext` | bin/pmux-rmuxd/src/main.rs:340-352 | a poll that saw counts once, in order, and a failed one not at all |
| `ChildReaper.ReapStaleUntrackedChildren` | bin/pmux-rmuxd/src/main.rs:331-366 | over any sequence of polls, failed ones included, each poll attempts exactly the due children |
| `ChildReaper.DueIffUntrackedForGrace` | bin/pmux-rmuxd/src/main.rs:313-318 | due if and only if untracked in every observation over at least the grace period |
| `ChildReaper.DueFromFirstReach` | bin/pmux-rmuxd/src/main.rs:361-364 | within a run: not before the grace period, and from the first observation that reaches it |
| `ChildReaper.TrackedOnceRestartsGrace` | bin/pmux-rmuxd/src/main.rs:353-364 | one advertised observation costs another full grace period |
| `OwnerExit.WaitForOwnerExit` | bin/pmux-rmuxd/src/main.rs:284-311 | however the stream is split, graceful if and only if its bytes are the frame |
| `OwnerExit.FrameIsText` | crates/rmux/src/lib.rs:32 | the frame is the goodbye line |
| `McpFraming.SplitJoin` | bin/pmux-mcp/src/main.rs:331-370 | the newline-split reference loses and invents nothing |
| `McpFraming.ReadMcpFrame` | bin/pmux-mcp/src/main.rs:331-370 | for every stream and every cut into buffers, one call yields the plain stream's next frame, leaves the reader behind it, and never holds more than the limit |
| `McpFraming.NextFrameStep` | bin/pmux-mcp/src/main.rs:331-370 | the next frame is the first frame of the newline-split stream, and reading resumes at the next line |
| `McpFraming.LineIsFrame` | bin/pmux-mcp/src/main.rs:331-370 | byte for byte: a line within 8 MiB without its LF or CR LF, a larger one refused, an unterminated end unstripped |
| `McpFraming.ReadAll` | bin/pmux-mcp/src/main.rs:110-140 | reading to the end gives exactly the frames of the newline-split stream |
| `McpFraming.RoundTrip` | bin/pmux-mcp/src/main.rs:316-322 | sent payloads are read back one by one |
| `McpFraming.RoundTripWithReturn` | bin/pmux-mcp/src/main.rs:331-370 | payloads sent with CR LF are read back one by one |
| `McpFraming.CarriageReturnCounts` | bin/pmux-mcp/src/main.rs:350-366 | a line of limit bytes and a carriage return is too large |
| `McpFraming.CarriageReturnRefusesIff` | bin/pmux-mcp/src/main.rs:331-370 | in every stream, a line is refused although its content fits if and only if it is terminated, one byte over the limit and ends in a carriage return |
| `McpResponse.PreflightIsExact` | bin/pmux-mcp/src/main.rs:247-266 | the preflight passes if and only if every number at every depth is harmless |
| `McpResponse.WriteResponse` | bin/pmux-mcp/src/main.rs:280-322 | a safe response within the limit leaves unchanged; otherwise the first error that fits leaves, for its id or else for none, and nothing leaves when none fits; whatever leaves is safe and within the limit |
| `McpResponse.ErrorIsSafe` | bin/pmux-mcp/src/main.rs:272-278 | an error echoes its id and passes the preflight |
| `McpResponse.ErrorShape` | bin/pmux-mcp/src/main.rs:272-278 | an error says its version, id, code and message, and nothing else |
| `McpResponse.IdIsEchoed` | bin/pmux-mcp/src/main.rs:226-245 | a string or a whole number that a double holds exactly is echoed; any other id is answered as null |
| `McpResponse.MissingIdIsNull` | bin/pmux-mcp/src/main.rs:280-285 | a missing id is answered as null |
| `McpResponse.ResponsesArriveWhole` | bin/pmux-mcp/src/main.rs:280-322 | written responses are read back as one frame each |
| `MutantKeys.Enumerated` | scripts/mutation_register.py:120-164 | sorting and counting files every row under the key its place in its group determines |
| `MutantKeys.OccurrenceFollowsPosition` | scripts/mutation_register.py:147-164 | occurrences number a group by line, then column, then input order |
| `MutantKeys.KeysDistinct` | scripts/mutation_register.py:157-164 | no two rows share a key |
| `MutantKeys.KeysDoNotMove` | scripts/mutation_register.py:120-164 | a move that keeps groups and the order inside each keeps every key |
| `MutantKeys.KeysSurviveMove` | scripts/mutation_register.py:120-164 | and so the whole set of keys |
| `MutantCensus.CensusOf` | scripts/mutation_register.py:455-471 | the nested counts are the group sizes |
| `MutantCensus.CensusPlace` | scripts/mutation_register.py:466-471 | a count stands at file, function, genre and replacement |
| `MutantCensus.OccurrencesAreExact` | scripts/mutation_register.py:157-164 | a group of n uses exactly the occurrences 1..n |
| `MutantCensus.CoversIsMembership` | scripts/mutation_register.py:474-479 | a key is covered if and only if it was enumerated, or its occurrence is not positive |
| `MutantCensus.CensusDeterminesKeys` | scripts/mutation_register.py:455-471 | the census forgets nothing about the keys |
| `MutantCensus.GrowthIsExposed` | scripts/mutation_register.py:474-479 | a group grown from m to n exposes exactly max(0, n - m) keys, those with the last occurrences |
| `TestRegions.CfgTestRegions` | scripts/register_currency.py:231-259 | increasing disjoint regions, each from an attribute to the first column-one brace after its opener; every module is in one |
| `TestRegions.ModuleEnd` | scripts/register_currency.py:247-257 | the end of the module of an attribute line, or that it has none |
| `TestRegions.OpenerIff` | scripts/register_currency.py:114 | an opener is a visibility, `mod`, a name and a brace, and nothing else |
| `TestRegions.BlankLines` | scripts/register_currency.py:249-250 | spaces and tabs are blank, anything printed is not |
| `TestRegions.ScanIsUnique` | scripts/register_currency.py:231-259 | those demands determine the regions |
| `HunkAttribution.OrderDoesNotMatter` | scripts/register_currency.py:521-550 | swapping the two tests changes the answer exactly for a hunk that is both; never on confirmed regions |
| `HunkAttribution.TestCodeTouchesNothing` | scripts/register_currency.py:539-542 | a hunk inside a confirmed region meets no item |
| `HunkAttribution.WithinSharesLine` | scripts/register_currency.py:262-263 | two ranges meet if and only if they share a line |
| `HunkAttribution.ContainsAllLines` | scripts/register_currency.py:548 | a range contains another if and only if it has all its lines |
| `HunkAttribution.GapOf` | scripts/register_currency.py:553-579 | the widest range around a line between the items that do not hold it, and the only one |
| `HunkAttribution.GapHoldsLine` | scripts/register_currency.py:558-566 | the gap holds its line and meets no other item |
| `HunkAttribution.ConfirmRegions` | scripts/register_currency.py:904-917 | exactly the regions that meet no item are believed, and each other one escalates |
| `HunkAttribution.AttributeHunk` | scripts/register_currency.py:918-937 | a hunk gives a reason for each function it touches, an escalation with its gap, or nothing inside a confirmed region |
| `HunkAttribution.AttributeFile` | scripts/register_currency.py:895-937 | exactly the reasons and escalations that the file's hunks and regions call for |
| `HunkAttribution.SilenceIsQuiet` | scripts/register_currency.py:918-937 | a silent file has only confirmed regions and only hunks inside them |
| `HunkAttribution.QuietGivesNothing` | scripts/register_currency.py:918-937 | and such a file is silent |
| `RegisterCurrency.ItemSpans` | scripts/register_currency.py:502-515 | each file's items, without repeats |
| `RegisterCurrency.CheckRows` | scripts/register_currency.py:938-951 | exactly the non-REMOVED rows whose function is no longer enumerated |
| `RegisterCurrency.CheckCensus` | scripts/register_currency.py:953-968 | exactly the uncovered mutants of functions that are not stale |
| `RegisterCurrency.Currency.AttributeHunks` | scripts/register_currency.py:878-968 | adds exactly those, and ends without reasons or escalations if and only if nothing that matters was touched |
| `RegisterCurrency.ReasonIff` | scripts/register_currency.py:918-928 | a function is named if and only if a changed hunk of its file meets one of its enumerated items |
| `RegisterCurrency.UnplacedIff` | scripts/register_currency.py:918-937 | a hunk escalates if and only if it meets no item and lies in no believed region |
| `RegisterCurrency.SilentIffUntouched` | scripts/register_currency.py:878-968 | silence if and only if every hunk is in a region that meets no item, every row is placed and every mutant is covered |
| `RegisterCurrency.SilentRegisterIsCurrent` | scripts/register_currency.py:878-968 | after silence no hunk meets an item, and every mutant enumerated now was enumerated by the recorded campaign |
| `RegisterCurrency.ProtectedIff` | scripts/register_currency.py:904-917 | silence protects a mutant from every hunk if and only if no region meets it, or a region meets an item |
| `RegisterCurrency.MutantsProtectedIff` | scripts/register_currency.py:904-917 | all mutants of a file are protected if and only if a region meets an item, or no region meets a mutant without one |
| `RegisterCurrency.ItemlessMutantIsExcused` | scripts/register_currency.py:904-917 | a product constant, enumerated and edited, that passes in silence inside a region the scanner got wrong |
| `DrainArrivals.TurnsCover` | tools/promotion/measure_transcript_drain.py:438-456 | every main row from the first prompt on is in exactly one turn, in order |
| `DrainArrivals.TurnHasOnePrompt` | tools/promotion/measure_transcript_drain.py:438-456 | a turn begins with its prompt and holds no other |
| `DrainArrivals.RowIsInTurn` | tools/promotion/measure_transcript_drain.py:446-456 | a row from the first prompt on is in some turn if and only if it is not a sidechain's |
| `DrainArrivals.MainLeavesOut` | tools/promotion/measure_transcript_drain.py:456 | exactly the sidechain rows are left out, however often a row occurs |
| `DrainArrivals.PostAnswerArrivals` | tools/promotion/measure_transcript_drain.py:459-490 | the arrivals after the last assistant row, with gap and offset |
| `DrainArrivals.TurnArrivalsAt` | tools/promotion/measure_transcript_drain.py:476-490 | each arrival's gap, kind and offset, in the rows' own times |
| `DrainArrivals.GapsAddUp` | tools/promotion/measure_transcript_drain.py:459-490 | gaps add up to the offset from the answer |
| `DrainArrivals.NoArrivalIsAnAnswer` | tools/promotion/measure_transcript_drain.py:473-478 | no arrival is an assistant row |
| `DrainState.VersionState.Accumulate` | tools/promotion/measure_transcript_drain.py:549-569 | a state that shows some turns shows them and the transcript's afterwards: counts, gaps by kind, both failure counters |
| `DrainState.CliTurnsAre` | tools/promotion/measure_transcript_drain.py:493-511 | the counters are the numbers of command-line turns with an answer, and of those without a marker |
| `DrainState.TallyIs` | tools/promotion/measure_transcript_drain.py:562-568 | the failure counters are the numbers of unclassified and of misplaced arrivals of each kind |
| `DrainState.GapIsKept` | tools/promotion/measure_transcript_drain.py:569 | every gap is kept as often as it arrived |
| `DrainState.RecommendIsLeast` | tools/promotion/measure_transcript_drain.py:572-585 | the recommendation is the least multiple of the step that covers every arrival with the margin |
| `DrainState.RecommendSame` | tools/promotion/measure_transcript_drain.py:572-585 | only which arrivals there were matters |
| `DrainState.MakeReport` | tools/promotion/measure_transcript_drain.py:588-632 | with every kind known, the two parts are the arrivals, each where it belongs, and the partition balances |
| `DrainMeasurement.TurnIsTakenIff` | tools/promotion/measure_transcript_drain.py:687-696 | turns are taken from exactly the files that name one of the versions |
| `DrainMeasurement.FilesAreCounted` | tools/promotion/measure_transcript_drain.py:687-696 | each such file is counted once |
| `DrainMeasurement.ReachableIff` | tools/promotion/measure_transcript_drain.py:588-597 | the recommendation is over the gaps of the admitted arrivals whose kind is reachable |
| `DrainMeasurement.PooledArrivals` | tools/promotion/measure_transcript_drain.py:681-696 | an arrival is pooled if and only if some version has it |
| `DrainMeasurement.PooledIsMaximum` | tools/promotion/measure_transcript_drain.py:681-696 | the pooled recommendation is the largest of the versions' and is absent only if all are |
| `DrainRun.AddFile` | tools/promotion/measure_transcript_drain.py:684-696 | a file reaches every version it names and the pool once |
| `DrainRun.FailsInSomeVersion` | tools/promotion/measure_transcript_drain.py:698-702 | the versions' counters together speak for the pool |
| `DrainRun.Measure` | tools/promotion/measure_transcript_drain.py:678-850 | which runs end without a receipt and why; every other one reports without a missing key, with every recommendation and exit code |
| `DrainRun.VerdictIs` | tools/promotion/measure_transcript_drain.py:823-850 | exit 5 with nothing to check, 4 above the bound, 0 otherwise |
| `DrainRun.ReportedAboveIff` | tools/promotion/measure_transcript_drain.py:840-848 | when an arrival above the bound is reported, exactly |
| `DrainRun.SmallExcessPasses` | tools/promotion/measure_transcript_drain.py:840-848 | an arrival above the bound that passes |
| `BoundedLog.OpenLog` | bin/pmuxd/src/bounded_log.rs:23-60 | opening refuses a maximum without room, rotates and truncates as specified |
| `BoundedLog.BoundedLogWriter.MarkCapped` | bin/pmuxd/src/bounded_log.rs:62-74 | the capacity record and the marker, once; an existing marker is an error |
| `BoundedLog.BoundedLogWriter.Write` | bin/pmuxd/src/bounded_log.rs:78-95 | the whole event or none of it |
| `BoundedLog.RunShows` | bin/pmuxd/src/bounded_log.rs:22-95 | over any opens, writes and drops the bytes on disk are the generations of whole events |
| `BoundedLog.WriteOutcome` | bin/pmuxd/src/bounded_log.rs:78-95 | over any run an event is appended whole if it leaves 33 bytes, otherwise only the record is, and a capped log takes nothing |
| `BoundedLog.OpenOutcome` | bin/pmuxd/src/bounded_log.rs:23-60 | from any directory: what becomes of the file, the backup, the marker and the writer |
| `BoundedLog.FilesNeverExceed` | bin/pmuxd/src/bounded_log.rs:22-95 | over any run both files stay within the maximum |
| `BoundedLog.MarkerIffCapped` | bin/pmuxd/src/bounded_log.rs:62-74 | the marker exists if and only if the current file was capped |
| `BoundedLog.FilesAreWholeEvents` | bin/pmuxd/src/bounded_log.rs:22-95 | each file is whole accepted events in order followed by at most one capacity record |
| `BoundedLog.MarkingNeverFails` | bin/pmuxd/src/bounded_log.rs:62-74 | the marker is never in the way |
| `BoundedLog.AcceptedWereOffered` | bin/pmuxd/src/bounded_log.rs:78-95 | accepted events are offered ones, in order, none repeated |
| `BoundedLog.RestartRotatesIffFull` | bin/pmuxd/src/bounded_log.rs:23-60 | a restart changes nothing unless the log is full, and then keeps its file as the only backup |
| `BoundedLog.CeilingHoldsIff` | bin/pmuxd/src/bounded_log.rs:23-95 | from which directories the ceiling holds for good |

## Left out

- Leases: hashing, prompt flattening and sanitising, the text of `continuation_prompt`, conversation id derivation and account headers; messages are opaque values with equality, and a pool class is taken as already resolved.
- Leases: cancellation of an in-flight request, `protect`/`unprotect` accounting, `last_used` instants and pool errors that mean a broken internal invariant; tasks run to completion.
- The pool's minting, health and eviction policy: a cell appears, runs a turn, rests, or is dropped, at any time.
- Redaction: how the identifiers are found on the machine; a map is any sequence of pairs, and placeholders are taken in the form `<...>` that the code gives them. Reports are modelled as (line, identifier), not as formatted text.
- Sidecar: process signals, `/bin/ps` parsing, sockets, and a file tree that changes while it is collected or deleted; a tree is its listing, and directory order plays no part.
- OwnerRemoval.RemoveAfterOwnerLoss: I/O errors other than a missing node are not modelled, because the model's file system has none.
- MCP: JSON parsing and printing are a parameter of the writer; request dispatch, tool schemas and version negotiation are table-like.
- `mutation_register.py`: `check`, `catchers`, `validate` and the report are set comprehensions and printing; only keys and the census are modelled.
- `register_currency.py`: rule 2 with its `test_span`, the frame, age and spend rules of `assess`, and git; hunks and files are inputs. Lists of items, reasons and escalations are specified by content, not by the order they are printed in.
- Drain: reading and pruning rows, quantiles and the other printed statistics; the table of row kinds is a parameter, the failure counters are kept per kind rather than per printed name, and times are real numbers without floating-point rounding.
- Log: a crash between the capacity record and the marker, permissions, and entries that are not regular files.
- Doctor, launcher, hook, CLI parsing, turn-latency and promotion tools: reporting and short I/O that would only add easy members.
