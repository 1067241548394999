# BIF: a verified model of the ledger

BIF keeps work items of several requesters and projects in one SQLite store. Captures and mutations are idempotent by
key, every effective write advances an item's revision, leaves audit events, a receipt and a row in a change journal,
and readers page through the store with cursors, cache single items by freshness validators, and are served by a
four-thread MCP adapter. This project models that behaviour in Dafny 4.11 and proves what it promises over whole runs.

The files, in the order a reader may want them:

- `Wrappers`, `Text`, `Bytes`, `Hex`, `Json`, `Encoding`: shared values, binary text order, UTF-8, hexadecimal, JSON
  string bodies and length-framed bytes.
- `Identifiers`, `Domain`: identifier normalisation, item identities, the mutable item and the events of a mutation.
- `Ledger`, `LedgerStore`, `LedgerInvariants`, `Runs`: one committed database state and what each storage operation
  does to it; the same operations on a connection whose tables change statement by statement; the invariant; runs that
  interleave captures, mutations, prunes, activations and restores.
- `Admission`, `Effects`, `Retries`, `JournalReads`, `History`, `ReplayCheck`, `ReadSessions`: when writes commit and
  what exactly they leave, and what retrying writers, journal readers, the replay oracle and pinned sessions get out of
  such runs.
- `Validators`, `ConditionalReads`: freshness validators and the soundness of a client's cache.
- `Payloads`, `Fingerprints`, `Cursors`, `Readers`: pre-hash bytes, query fingerprints, continuation tokens, and
  independent readers that spell those byte formats out.
- `Filters`, `Keys`, `PageQuery`, `Delivery`, `Traversal`, `TokenPages`, `ItemPages`, `HistoryPages`, `LegacyPages`:
  from a request's filters to the pages a client receives by following cursors or offsets.
- `McpControl`, `McpThreads`, `McpInvariants`, `McpProgress`, `McpReplies`, `McpWire`, `Frames`: the MCP adapter's
  shared state, its interleavings, what they keep, what becomes of every input, what reaches stdout, its output frames
  and its input frames.
- `Calendar`: the clock's timestamp text.

Modelling choices a reader needs:

- A `Db` is one committed SQLite state; a transaction is atomic, and a failed one returns the state it began with.
  `Store` is the connection that carries the statements out one by one; each of its methods is proved equal to the
  function on `Db`. Whatever SQLite may refuse for reasons outside the modelled columns (I/O, busy, CHECKs on the
  audit columns) is the flag `commits` of a call.
- `McpControl.SharedControl` is the object behind the MCP adapter's lock. Its methods carry out the lock sections in
  place, keep its invariant `Valid`, and equal the functions the threads step by; `McpInvariants.ReachableControl`
  proves that the threads enter each section as its method requires.
- The clock, operation and event ids, the fresh generation of a restore and the schema cookie are parameters. A restore
  takes a backup of any store that satisfies the ledger invariant, which every state of every run does
  (`Runs.EarlierStatesRestore`), and a generation no earlier state of the run had.
- Event rows keep the typed event that was written; their text columns are computed by `History.ColumnsOf` and read
  back by `History.Decoded`, so nothing is assumed about that round trip.
- SHA-256 is an injective abstract function of its input; the injectivity of the input bytes is proved. JSON is an
  invertible codec with measurable output; hexadecimal, size bounds, versions and binding around it are the code's own.
- A `string` is a sequence of Unicode scalar values. UTF-8 keeps their order, so comparing scalars is comparing bytes.

Findings, stated exactly where the code decides otherwise than a first guess would:

- Clearing an assignee and assigning the assignee named `clear` have the same payload bytes
  (`Payloads.MutationBytesExact`, `Payloads.ClearCollides`), so under one key the second is answered as a replay.
- An assignee named `null` is stored in the history like no assignee (`History.ValueRoundTrip`); the fold of the stored
  events reproduces the assignee exactly when it is not `null`, and the replay oracle also rejects every item with a
  mutation of several events (`ReplayCheck.OracleExact`).
- A generated validator is refused as malformed exactly beyond the request limit or for a negative schema cookie
  (`Validators.GeneratedMatches`).
- The writer thread's test for a cancelled reply can never be true (`McpInvariants.WriterNeverSkips`).
- Timestamp text puts an earlier time before a later one if and only if the earlier year is at most the later year
  without the digits it has more (`Calendar.TextOrderExact`): always for years of equally many digits, and for all
  times before a bound exactly when the bound is the year 10000 or less (`Calendar.OrderedThrough9999`).
- A title that begins with U+0000 is no empty title to the domain, but the schema's length check refuses it
  (`Ledger.HasLength` in `Admission.CaptureExact`).

## Model

| member | source | states |
|---|---|---|
| Identifiers.Normalize | src/domain.rs:25-52 | The character loop with its pending separator yields the maximal alphanumeric runs, case-folded and joined by single hyphens, or nothing when there is none |
| Identifiers.NormalizedIsCanonical | src/domain.rs:25-52 | Outputs are canonical, and an input is refused exactly when it has no ASCII letter or digit |
| Identifiers.CanonicalIffFixed | src/domain.rs:25-52 | The fixed points of normalisation are exactly the non-empty tokens of the right case between single hyphens |
| Identifiers.NormalizeIdempotent | src/domain.rs:62-64 | Normalising twice is normalising once |
| Identifiers.DisplayParses | src/domain.rs:138-177 | Display then parse is the identity for every valid identity, u64 sequences and zero padding included |
| Identifiers.DisplayInjective | src/domain.rs:169-177 | Two valid identities share a display form only if equal |
| Identifiers.CanonicalItemIdIff | src/application/conditional_reads.rs:154-167 | A text is accepted as a canonical item id exactly when some valid identity displays as it |
| Domain.ItemObject.Transition | src/domain.rs:962-980 | A status step happens exactly from its required status and touches nothing else |
| Domain.ItemObject.TransitionWithRequiredReason | src/domain.rs:944-960 | As Transition, and a blank reason is refused after the status check |
| Domain.ItemObject.ApplyTriage | src/domain.rs:800-846 | Field updates and reported changes of triage, its two refusals, and no change on refusal |
| Domain.ItemObject.ApplyMutation | src/domain.rs:848-937 | The compound mutation on the mutable item: planned on a copy, all components or none |
| Domain.AppliedReplays | src/domain.rs:848-937 | The events a mutation produces carry the item's old state to its new one, each legal after the one before |
| Domain.AppliedShape | src/domain.rs:848-937 | At most four events, all of the next revision; exactly one revision per effective mutation; terminal items keep everything but the revision |
| Domain.NoOpIff | src/domain.rs:848-937 | A mutation is a no-op exactly when it moves no status, adds no note and leaves both fields as they are |
| Domain.TriageDecided | src/domain.rs:800-846 | Status by status: a done or rejected item refuses every change of priority or assignee and takes any other nonempty triage; on every other item only an empty triage is refused |
| Domain.BlankExact | src/domain.rs:944-960 | A reason is blank exactly when it holds none but the 25 white-space code points |
| Domain.LifecycleDecided | src/domain.rs:944-980 | Action by action and status by status: which status each lifecycle action needs and leaves, which keep their reason, and that a reason of white space only is refused |
| Domain.CompoundDecided | src/domain.rs:848-937 | Nothing at all is refused, the lifecycle is refused before the triage, the triage is judged on the status the lifecycle leaves, and only an effective mutation exhausts the revisions |
| Domain.EventsDecided | src/domain.rs:848-937 | The events of a mutation, one by one: the lifecycle action, a changed priority, a changed assignee, the note, each with the next revision and both values |
| LedgerStore.Store.CaptureInner | src/storage.rs:573-703 | The statement-by-statement capture, with every early exit and rollback, equals its specification on committed states |
| LedgerStore.Store.InsertCapture | src/storage.rs:1492-1584 | Item, operation, event and receipt of a capture, in statement order, all or none |
| LedgerStore.Store.ApplyMutate | src/storage.rs:1021-1167 | The statement-by-statement mutation, with every early exit and rollback, equals its specification |
| LedgerStore.Store.InsertEvents | src/storage.rs:1117-1131 | The loop inserting one row per event leaves exactly the specified rows or fails as a whole |
| LedgerStore.Store.AppendChange | src/storage/journal.rs:167-182 | Row, allocator and high water move together or not at all, with each refusal in order |
| LedgerStore.Store.PruneOpened | src/storage/maintenance.rs:136-165 | Prune validates, binds, deletes, moves the floor, revalidates, and rolls back on any failure |
| LedgerStore.Store.ActivateOpened | src/storage/maintenance.rs:97-117 | Activation, with the same validation before and after |
| LedgerStore.Store.RestoreFrom | src/storage/maintenance.rs:194-246 | Restore publishes the backup under a fresh generation, inactive, only after every validation |
| LedgerInvariants.CaptureWrites | src/storage.rs:573-703 | A capture changes the store only by one complete write: item, counter, operation, event, receipt and journal row |
| LedgerInvariants.MutateWrites | src/storage.rs:1021-1167 | A mutation changes the store only by one complete write carrying the item's next revision |
| LedgerInvariants.CaptureKeeps | src/storage.rs:573-703 | A capture keeps the whole ledger invariant |
| LedgerInvariants.MutateKeeps | src/storage.rs:1021-1167 | A mutation keeps the whole ledger invariant |
| LedgerInvariants.PruneExact | src/storage/maintenance.rs:136-165 | On a reachable store prune succeeds exactly for the matching generation and F <= through <= H, names which of the two it misses otherwise, and removes exactly the rows up to it |
| LedgerInvariants.ActivateKeeps | src/storage/maintenance.rs:97-117 | Activation succeeds exactly for the matching generation, fails with a generation mismatch otherwise, and changes only the flag |
| LedgerInvariants.RestoreKeeps | src/storage/maintenance.rs:194-246 | Restoring a reachable backup always succeeds and keeps the invariant under the new generation |
| LedgerInvariants.RestoreExact | src/storage/maintenance.rs:194-246 | Over a reachable store a restore succeeds exactly for a backup that validates and a well-formed generation |
| LedgerInvariants.InvalidRefused | src/storage/maintenance.rs:97-165 | A store the validation refuses is neither pruned, activated, replaced nor restored |
| LedgerInvariants.InvValidates | src/storage/maintenance.rs:365-397 | The invariant implies the three queries of the journal validation |
| Runs.ReachableInv | src/storage/maintenance.rs:365-397 | Every state of every run satisfies the invariant: retained rows are exactly F+1..H, the allocator equals H, rows agree with operations and items; the store's own validation accepts it |
| Runs.GenerationEvolves | src/storage/maintenance.rs:194-223 | Two states of one generation: the later evolved from the earlier by writes and prunes only, whatever the run did between |
| Runs.RevisionDeterminesItem | src/storage.rs:1080-1167 | Generation, item and revision determine the whole item, in any two states of a run |
| Runs.TerminalFrozen | src/domain.rs:800-846 | Once an item is done or rejected, its status, reason, priority and assignee never change again in the generation |
| Runs.ReceiptSettles | src/storage.rs:1030-1062 | A key with a receipt is answered by restart, conflict or replay, and nothing changes; a replayed mutation answers with the item as it now is, a replayed capture with the item as first captured |
| Runs.EffectLeavesReceipt | src/storage.rs:1132-1167 | An effective write leaves a receipt of its key, digest and item |
| Runs.KeyCommitsOnce | src/storage.rs:1010-1079 | One idempotency key commits at most once per generation over any interleaving; every later use gets a settled answer |
| Runs.NoOpRetry | src/storage.rs:1074-1079 | A no-op leaves no receipt; the same request retried in its generation, with fresh clock, operation, event ids and actor, is the same no-op, a version conflict, or settled by a later receipt |
| Runs.PinnedBeforeRestore | src/storage.rs:1010-1029 | A handle pinned before a generation change neither commits nor replays, ever |
| Runs.EarlierStatesRestore | src/storage/maintenance.rs:194-246 | In every state of a run a backup of any of its states can be restored, and the restore succeeds |
| Admission.CaptureExact | src/storage.rs:573-703 | On a reachable store a capture commits exactly when the handle is current, the key unused, title and call pass the length checks and its identities are fresh, and neither counter nor journal is exhausted: no uniqueness rule ever stands in the way |
| Admission.MutateExact | src/storage.rs:1021-1167 | On a reachable store a mutation changes something exactly when it is current, its key unused, its revision expected, it applies with effect, and it brings one new id per event |
| Admission.AdmissibleWritesCommit | src/storage.rs:573-703 | In every reachable state an admissible write commits |
| Effects.CaptureDecided | src/storage.rs:573-703 | On every reachable store a capture under an unused key is refused in this order (stale handle, exhausted counter, rows that do not fit, exhausted journal, failed commit) and otherwise leaves exactly one complete write, every value of every table written out |
| Effects.MutateDecided | src/storage.rs:1021-1167 | The same for mutations: stale handle, unknown item, other revision, the domain's refusal, no effect, rows that do not fit, exhausted journal, failed commit, or one complete write with its event rows |
| Effects.RecordedExact | src/storage.rs:1170-1185 | A receipt names the only change of its mutation; a lone note and everything compound is recorded as triage |
| Effects.ReachableConsecutive | src/storage.rs:573-703 | In every state of every run the items of a requester and project are numbered 1, 2, 3, ... without gap or repetition, and the counter is the next number, provided restored backups have it |
| Retries.DigestDecides | src/application.rs:854-943 | Digests of two requests are equal exactly when the requests are the same, up to clear against assigning clear, and never across capture and mutation |
| Retries.RetryDecided | src/storage.rs:582-620 | After a key committed, any later use in the generation is decided by the requests alone; a repeated capture gets back exactly the item first returned, a repeated mutation the item as it then is |
| JournalReads.RestoreRevokesSource | src/storage/journal.rs:224-237 | After a restore every source bound earlier is refused, as a generation change or as another store's, and unbound scans as disabled |
| JournalReads.InRangeSelected | src/storage/journal.rs:186-189 | The range query returns the project's rows at positions C+1..H, in order |
| JournalReads.LaterPage | src/storage/journal.rs:242-283 | A page read in a later state of the run is a prefix of what the first state held, or a typed error |
| JournalReads.CollectComplete | src/storage/journal.rs:242-283 | Paging (C,H] with any limits while writes, prunes and restores happen between pages collects exactly the project's changes, each once, or reports a generation change or expired coverage |
| JournalReads.ServedRangeIsWhole | src/storage/journal.rs:256-262 | A range still served misses no change ever journaled in the generation |
| JournalReads.ValidatedHasNoGap | src/storage/maintenance.rs:365-397 | The validation's count suffices: with distinct positions no position of (F,H] can be missing |
| JournalReads.ValidationExact | src/storage/maintenance.rs:365-397 | On any store the three queries accept exactly the sound journals: sound metadata, every row true of its operation and item, no position of (F,H] missing, the allocator at H |
| History.ValueRoundTrip | src/storage.rs:937-968 | Writing and parsing an event value returns it, except exactly the assignee named null |
| History.NullIsAnAssignee | src/storage.rs:1402-1413 | The exception is a legitimate assignee whose stored form reads back as none |
| History.RowRoundTrip | src/storage.rs:857-917 | Every stored row decodes to the written event with that one exception |
| History.StoredHistoryReproducesItem | src/storage.rs:759-795 | Folding an item's stored events from capture reproduces status, priority, reason and revision, and the assignee exactly when it is not null |
| History.RevisionGroups | src/storage.rs:1117-1131 | Each revision has one to four events with indices from zero, all of one operation, in every reachable state |
| History.ReachableDecodes | src/storage.rs:857-917 | Every stored row of every reachable state decodes |
| ReplayCheck.VerifyReplay | src/bin/bif-benchmark-store.rs:834-890 | The replay loop on the mutable item equals the oracle's definition |
| ReplayCheck.AcceptedNumbers | src/bin/bif-benchmark-store.rs:848-889 | Any accepted history, stored or not, is one capture without values followed by other events, numbered 1, 2, 3, ... up to the stored revision |
| ReplayCheck.CheckedExact | src/bin/bif-benchmark-store.rs:892-937 | One stored event passes exactly when it opens a new revision and hides no change between none and null |
| ReplayCheck.OracleExact | src/bin/bif-benchmark-store.rs:834-937 | The oracle accepts exactly histories with one event per revision, no hidden change, and a present assignee other than null |
| ReplayCheck.ReachableOracle | src/bin/bif-benchmark-store.rs:834-937 | The same for every item of every reachable state |
| ReadSessions.ReadSession.Execute | src/read_session.rs:150-191 | A delivery succeeds exactly when authorised and both boundary checks pass; otherwise the earliest failure is the one reported; the first restart failure is latched |
| ReadSessions.BoundaryDecided | src/read_session.rs:202-224 | One boundary check by name: a latched reason is repeated, a replaced file is reported before what was read, an interrupted or busy read is an error of its own, and only the pinned identity and generation pass |
| ReadSessions.DeliveredWithinGeneration | src/read_session.rs:193-224 | Two passed checks enclose no restore: the store only evolved between them |
| ReadSessions.RestartIsForever | src/read_session.rs:161-167 | After a restore the boundary check fails in every later state, so latching loses nothing |
| Validators.ValidatorInjective | src/application/conditional_reads.rs:87-106 | Two bindings share a validator text only if all six components are equal |
| Validators.GeneratedMatches | src/application/conditional_reads.rs:114-145 | A generated validator is malformed exactly beyond the limit or for a negative cookie; otherwise it matches exactly when all six components are equal |
| Validators.AcceptedExactly | src/application/conditional_reads.rs:114-145 | The parser accepts exactly the texts the generator can produce within the limit |
| Validators.MissingExactly | src/application/conditional_reads.rs:114-145 | A missing generation is reported for exactly the texts issued before generations existed, alone or with a null generation |
| Validators.ValidatorLayout | src/application/conditional_reads.rs:87-106 | The text is version, store, item, projection, schema, revision and generation between dots, in that order |
| Hex.HexTextRoundTrip | src/application/conditional_reads.rs:169-198 | Hexadecimal text decodes to the text it was made from |
| Hex.TextHexRoundTrip | src/application/conditional_reads.rs:182-198 | Whatever decodes is the encoding of its text |
| ConditionalReads.KnownVersionOutcome | src/storage/projection_reads.rs:107-168 | Presenting an earlier version in any state: malformed exactly beyond the limit or under a negative cookie; NotModified exactly when store, cookie, generation, item, projection and revision are as they were; otherwise the current projection |
| ConditionalReads.CacheSound | src/storage/projection_reads.rs:107-168 | Over every run, NotModified means the client's retained projection equals the current one of exactly the item and kind it asked for |
| ConditionalReads.RestoreInvalidatesVersions | src/storage/maintenance.rs:215-223 | A restored store never confirms a version issued before the restore |
| ConditionalReads.ProjectionShows | src/v2_response.rs:720-762 | Which field of the item each field of each projection is |
| ConditionalReads.ProjectionTells | src/v2_response.rs:720-762 | Two items have equal projections exactly when they agree in what the kind shows; the audit projection determines the item |
| Encoding.ByteBuffer.AppendField | src/application.rs:1093-1102 | The buffer grows by the presence tag, the big-endian length and the bytes |
| Encoding.FieldsPrefix | src/application.rs:1093-1102 | Equal framed bytes split into equal fields and equal remainders |
| Payloads.CapturePayload | src/application.rs:1051-1091 | The appends of a capture digest its specified bytes |
| Payloads.CaptureBytesInjective | src/application.rs:1051-1091 | Capture payloads share bytes only when they are the same request |
| Payloads.MutationPayload | src/application.rs:854-921 | The appends of a mutation digest its specified bytes |
| Payloads.MutationBytesExact | src/application.rs:854-943 | Mutation payloads share bytes exactly when equal up to clearing against assigning clear |
| Payloads.ClearCollides | src/application.rs:937-943 | The collision is real: the two requests do different things on an assigned item |
| Payloads.CaptureIsNoMutation | src/application.rs:854-868 | No capture payload equals a mutation payload |
| Readers.CaptureReadsBack | src/application.rs:1051-1102 | A reader that spells out every marker, length and field order gives a capture back from its bytes |
| Readers.MutationReadsBack | src/application.rs:854-943 | The same for mutations, up to clearing against assigning clear |
| Fingerprints.QueryFingerprint | src/application/read_semantics.rs:359-409 | The pushes of the canonical query and the cursor's extra field digest their specified bytes |
| Fingerprints.QueryBytesInjective | src/application/read_semantics.rs:359-425 | Fingerprint bytes determine the whole normalised query and the mine scope |
| Fingerprints.FingerprintExact | src/application/cursors.rs:272-305 | Two page requests share fingerprint bytes exactly when they address the same store, select the same items in the same order and projection, and, where that is no item at all, are mine views of one requester or no mine views |
| Readers.QueryReadsBack | src/application/read_semantics.rs:359-425 | A reader of the magic text, tags, words and fields gives the query and its mine scope back from the fingerprint bytes |
| Cursors.BoundedEnvelope.Write | src/application/cursors.rs:585-596 | Bytes are kept only within the bound while the total stays exact, until it would overflow |
| Cursors.EncodeChunks | src/application/cursors.rs:396-426 | Token or exact oversize, however the serializer splits its output |
| Cursors.EncodeSize | src/application/cursors.rs:412-417 | A token is refused exactly when the complete token exceeds the limit, with its exact size |
| Cursors.EncodeDecided | src/application/cursors.rs:378-426 | The kind of token each boundary may go into, and the exact sizes at which serialisation and length are refused |
| Cursors.TokenParses | src/application/cursors.rs:171-236 | Every issued token parses back to what was encoded |
| Cursors.ParseDecided | src/application/cursors.rs:171-186 | A supplied token is oversized by its bytes, malformed unless it is the prefix and the lowercase hexadecimal of some JSON, and otherwise whatever the envelope yields |
| Cursors.CheckedDecided | src/application/cursors.rs:187-236 | An envelope yields its own fields, or the first refusal by name: version, missing or malformed generation, noncanonical identity or zero, wrong kind |
| Cursors.TokenBindsExactly | src/application/cursors.rs:428-441 | A page token is accepted exactly by requests that select the same items in the same order on the same store and generation (and, where no item is selected, with the same mine view); otherwise the first mismatch is named |
| Cursors.HistoryTokenBindsExactly | src/application/cursors.rs:307-327 | A history token is accepted exactly for the same item of the same store and generation |
| Readers.HistoryReadsBack | src/application/cursors.rs:307-327 | A reader of the history binding gives the store and the item back |
| Filters.MineIsLower | src/application/read_semantics.rs:83-86 | A canonical requester always folds to the assignee of the same name, so the expectation there never fails |
| Filters.New | src/application/read_semantics.rs:50-112 | The constructor's retained, cleared and narrowed values equal their specification |
| Filters.SameMembership | src/application/read_semantics.rs:155-180 | For every item the normalised filters decide as the v1 view and filters do; a refused combination selects nothing in v1 |
| Filters.TextFilterExact | src/storage.rs:423-433 | A text filter keeps exactly the items whose title, description or some criterion shows the text somewhere, in any ASCII case |
| Filters.NormalFormUnique | src/application/read_semantics.rs:38-48 | Normal forms matching the same items are the same value |
| Filters.NormalisationExact | src/storage.rs:383-440 | Requests normalise to the same value exactly when v1 selects the same items for them |
| Filters.ContradictionExact | src/application/read_semantics.rs:96-105 | A request normalises to the empty predicate exactly when v1 selects nothing at all for it |
| Keys.CompareTransitive | src/application/read_semantics.rs:277-299 | The comparison is a total preorder for any list of terms |
| Keys.OrderExact | src/application/read_semantics.rs:184-265 | The sort terms mean exactly the order spelled out: P0 to P4 before no priority and earlier captures first, or newest captures first, then requester, project and number |
| Keys.IncreasingIsInOrder | src/application/read_semantics.rs:267-275 | A listing follows the sort terms exactly when every item stands before all later ones in that order |
| Text.CompareTextExact | src/application/read_semantics.rs:203-205 | Text comparison is lexicographic: after a common prefix the shorter text or the smaller character comes first |
| Keys.OrderingSeparates | src/application/read_semantics.rs:233-265 | Both orderings place two items equally only if they have the same identity |
| Keys.IncreasingUnique | src/application/read_semantics.rs:267-275 | The order leaves exactly one listing of a set of items |
| PageQuery.PushBoundary | src/storage/projection_reads.rs:266-324 | The boundary loop with its equal prefix, alternatives, leading range and early break builds the specified clauses |
| PageQuery.BranchesExact | src/storage/projection_reads.rs:266-324 | For any terms, the alternatives hold exactly for rows equal on the prefix and after the boundary, u64 boundaries above i64 included |
| PageQuery.BoundaryExact | src/storage/projection_reads.rs:266-324 | Leading range and alternatives together are exactly the strict continuation order |
| PageQuery.BuildClauses | src/storage/projection_reads.rs:213-327 | The whole clause list is built as specified |
| PageQuery.WhereExact | src/storage/projection_reads.rs:213-351 | The WHERE clause selects exactly the matching items after the boundary |
| PageQuery.PrimaryPage | src/storage/projection_reads.rs:540-561 | The page holds the first rows up to the limit and reports exactly whether another row exists |
| PageQuery.HistorySeekExact | src/storage/history_pages.rs:21-52 | The history seek is the lexicographic order of revision and index, both overflow cases included |
| Delivery.CountCandidates | src/v2_response.rs:519-541 | The first loop's sizes are the prefix sizes, and it stops only at a prefix that cannot fit |
| Delivery.SearchDown | src/v2_response.rs:546-589 | The second loop finds the longest fitting candidate, with its incremental size equal to the emitted length |
| Delivery.WritePage | src/v2_response.rs:499-591 | All outcomes of a page write; what it sends is the records in order, byte by byte, with the last one's token exactly when there are more; nothing longer than its starting candidate fits |
| Delivery.LongestPrefix | src/v2_response.rs:519-590 | The page sent holds the longest prefix whose complete envelope with its own cursor fits; otherwise nothing fits and the reported minimum is the first record's exact size |
| Delivery.EnvelopeLaid | src/v2_response.rs:477-497 | The envelope byte by byte: head, every record at the place its predecessors give it, one comma between neighbours, middle, null or the quoted token, tail |
| Delivery.BudgetMonotone | src/v2_response.rs:519-590 | A larger budget never sends fewer records |
| Traversal.DeliverExact | src/v2_response.rs:499-591 | One page from any position: at least one row, within limit and budget, continued exactly when rows remain, and its only failures |
| Traversal.WalkComplete | src/v2_response.rs:499-591 | Pages of any sizes visit a fixed list once, in order, and end within one page more than its rows |
| TokenPages.ServeRows | src/storage/projection_reads.rs:540-561 | Stepping the rows, dropping the sentinel and writing within the budget gives the page of the whole selection |
| TokenPages.AnswerAt | src/read_session.rs:279-310 | A token issued after k rows makes the next answer start exactly at row k |
| TokenPages.RespondLaid | src/v2_response.rs:577-589 | The bytes of an answer are its rows, a prefix of the selection in order, and behind them null or the escaped next token, which is there exactly when rows remain |
| TokenPages.TokenPlain | src/application/cursors.rs:396-426 | A token needs no escape, so its size in the response is the one its encoder counted |
| Json.EscapedRoundTrip | src/v2_response.rs:658-682 | Reading an escaped JSON string body gives back what was escaped |
| TokenPages.FollowVisitsAll | src/read_session.rs:279-335 | Following next_cursor on an unchanged selection yields every row once, in order, and terminates, unless a record exceeds its budget |
| ItemPages.RowsExact | src/storage/projection_reads.rs:213-351 | The selected rows are exactly the matching items behind the boundary in the order spelled out, and stand in that order |
| ItemPages.RowsSeek | src/storage/projection_reads.rs:266-324 | After the key of the k-th row the query returns exactly the rest of the listing |
| ItemPages.PagesVisitEveryMatch | src/read_session.rs:279-310 | On an unchanged store the traversal returns exactly the items v1 selects for the request, each once and in order |
| ItemPages.ReachableStorables | src/storage.rs:634-660 | The items of every reachable store meet what the traversal asks of them |
| ItemPages.ReachableItemPages | src/read_session.rs:279-310 | In every reachable state the traversal returns exactly the stored items v1 selects, each once and in order |
| ItemPages.ServeItemPage | src/read_session.rs:279-310 | Through the decoded token, the built clauses, the stepped rows and the written page, the client gets the page of the whole selection |
| HistoryPages.SeekSuffix | src/storage/history_pages.rs:21-52 | Seeking after the k-th event gives exactly the later events |
| HistoryPages.ReachableHistoryPages | src/storage/history_pages.rs:76-112 | In every reachable state the history traversal returns every event of the item once, in order |
| LegacyPages.PartsOfDisplay | src/storage/projection_reads.rs:610-624 | The substring coordinates of an item id are its canonical requester and project |
| LegacyPages.LegacyCompareExact | src/storage/projection_reads.rs:610-624 | Ordering by those substrings equals ordering by the decoded identity |
| LegacyPages.CompareItemsExact | src/application.rs:435-464 | The v1 comparator, the sort terms and the order spelled out put any two items alike |
| LegacyPages.PushLegacyFilters | src/storage/projection_reads.rs:629-708 | The view predicate and the loop over the column filters build the specified clauses |
| LegacyPages.LegacyWhereExact | src/storage/projection_reads.rs:629-708 | On the raw columns the SQL page's clauses select exactly what `select_items` selects |
| LegacyPages.LegacyPageRefines | src/storage/projection_reads.rs:727-772 | For every request the SQL page equals select, sort, skip, take and its next offset, for every offset, those above i64 included: up to the limit from the offset on, and a next offset exactly when items remain; strict order and equal selection follow from distinct item ids |
| LegacyPages.OffsetsCover | src/application.rs:333-351 | Chaining next offsets, with any limits, receives what the first offset leaves of the sorted list, once and in order, within one page more than its items |
| LegacyPages.LoadCriteria | src/storage/projection_reads.rs:582-606 | One pass groups the child rows by item and keeps their order |
| LegacyPages.HydrationExact | src/storage/projection_reads.rs:563-580 | Every item of a page is hydrated with exactly its own criteria |
| McpControl.StopKeeps | src/mcp.rs:97-104 | Stopping keeps the shared invariant, touches no call, interrupts the active one, and leaves a wake token |
| McpControl.CancelKeeps | src/mcp.rs:300-310 | Cancelling keeps the invariant, every outstanding id, every stage and the active call; it marks exactly a named call that waits or runs, and interrupts exactly if that call is active |
| McpControl.RegisterKeeps | src/mcp.rs:374-402 | Registration keeps the invariant and the bound; it succeeds exactly for a new id below the limit, and a refusal changes nothing |
| McpControl.BeginKeeps | src/mcp.rs:609-622 | A queued job either becomes the only active call, uncancelled, or is retired because it was cancelled, or is kept back by the stop; afterwards nothing needs an interrupt |
| McpControl.EndKeeps | src/mcp.rs:624-634 | A finished call is discarded and retired exactly if it had to be interrupted; otherwise it is finished and uncancelled; no other call changes |
| McpControl.InspectKeeps | src/mcp.rs:553-573 | The interrupter interrupts exactly an active call that has to be, and leaves for good only when none can follow |
| McpInvariants.Reachable | src/mcp.rs:511-657 | The invariant holds after every interleaving of the four threads |
| McpInvariants.NeverPanics | src/mcp.rs:470-494 | Whenever a thread is about to look a call up the call is there, and at most 32 requests are outstanding |
| McpInvariants.OneOwner | src/mcp.rs:285-311 | Every outstanding id is in exactly one place, and no other id is anywhere |
| McpInvariants.WriterNeverSkips | src/mcp.rs:524-546 | No id awaiting output is ever cancelled |
| McpInvariants.RetiredAtMostOnce | src/mcp.rs:542-544 | Each registration is retired at most once, and no removal finds its id missing |
| McpInvariants.InterruptsJustified | src/mcp.rs:553-576 | Every interrupt of every interleaving was issued while the worker executed the very call it hit, which still ran after that step and was cancelled or ran in a stopped adapter |
| McpInvariants.ReachableControl | src/mcp.rs:85-104 | In every interleaving the shared state keeps its invariant, and each lock section is entered as its method requires |
| McpInvariants.InterruptedIsDiscarded | src/mcp.rs:624-637 | An interrupted call's result is never sent |
| McpInvariants.NoLostWakeup | src/mcp.rs:548-576 | Whenever the running call must be interrupted, a wake token is pending or the interrupter is in its loop |
| McpInvariants.DropsOnlyAfterStop | src/mcp.rs:147-157 | Nothing is dropped while the adapter runs, except by a thread about to stop it |
| McpProgress.CancelActs | src/mcp.rs:285-311 | Whatever happens meanwhile, a cancel request read is acted on at the reader's next step: a call that then waits or runs is cancelled, one that runs is interrupted |
| McpProgress.RequestServed | src/mcp.rs:374-494 | A request is answered as duplicate or too many, or registered and then queued as a job or answered, within the reader's next five steps |
| McpProgress.BadFrameAnswered | src/mcp.rs:322-357 | A frame too long or invalid is answered without an id, or the adapter stops |
| McpProgress.EndOfInputStops | src/mcp.rs:333-334 | The end of input stops the adapter and the reader is gone |
| McpProgress.NotificationIgnored | src/mcp.rs:358-372 | Any other notification changes nothing |
| McpProgress.ReaderLoops | src/mcp.rs:317-321 | Back at its loop the reader waits for the next frame, or after a stop is gone |
| McpProgress.JobBegins | src/mcp.rs:600-622 | Jobs are taken in order, and one taken is dropped by a stop, discarded as cancelled, or run |
| McpProgress.RunEnds | src/mcp.rs:623-657 | A run ends in a reply, unless its call had to be interrupted: then it is discarded and nothing is sent |
| McpProgress.WorkerLoops | src/mcp.rs:600-604 | Back at its loop the worker looks for the next job, or after a stop is gone |
| McpProgress.ReplyWritten | src/mcp.rs:524-546 | Replies are fetched in order and written, and their ids retired; a stop drops them, and a failing write stops the adapter |
| McpProgress.InterruptFollows | src/mcp.rs:548-576 | While a call has to be interrupted, one of the interrupter's next two steps interrupts it |
| McpProgress.WakeSpent | src/mcp.rs:548-576 | A wake-up is used once, and only an inspection that finds a call to interrupt interrupts |
| McpReplies.WrittenInOrder | src/mcp.rs:524-546 | What stands on stdout is always a beginning of the replies queued, in order, without repetition or loss |
| McpReplies.AnsweredOnce | src/mcp.rs:524-546 | Every registration has been answered exactly once, or discarded, or is the one still outstanding |
| McpReplies.CancelledIsDiscarded | src/mcp.rs:600-637 | A cancelled call is never answered, whatever follows: it stays cancelled until the worker discards it |
| McpWire.FrameFits | src/mcp.rs:118-141 | Every output frame is one line within the wire limit, also when replaced by an error with or without an id |
| McpWire.ToolResultFits | src/mcp.rs:502-509 | A tool response within its budget always fits the wire in both representations |
| Frames.LinesExact | src/mcp.rs:253-254 | The lines make up the input, each whole, only the last unterminated |
| Frames.ReadFrame | src/mcp.rs:255-283 | Whatever the chunking, exactly the next line is consumed, and it is accepted exactly when it fits with its newline |
| Frames.ReadAll | src/mcp.rs:255-283 | Repeated calls yield exactly the newline-split frames |
| Calendar.YearOfEraExact | src/cli.rs:478-481 | The closed-form year of an era contains the day |
| Calendar.CivilIsGregorian | src/cli.rs:476-487 | For every day from the epoch on, the closed form is the date reached by stepping the Gregorian calendar day by day |
| Calendar.TimestampExact | src/cli.rs:472-495 | Fields are in range, and the year has four digits exactly before the year 10000 |
| Calendar.TimestampReads | src/cli.rs:488-494 | Before the year 10000 the text is YYYY-MM-DDThh:mm:ssZ, and its numbers are the date of the day and a time of day that adds up to the seconds of the day |
| Calendar.TextOrderExact | src/application/read_semantics.rs:203-205 | For all times s before t, the text of s is less than that of t if and only if the year of s is at most the year of t without its additional digits; otherwise it is greater |
| Calendar.TextOrderIsTimeOrder | src/application/read_semantics.rs:203-205 | Through the year 9999 text order of timestamps is time order |
| Calendar.OrderedThrough9999 | src/cli.rs:488-494 | Text order is time order on all times before a bound if and only if the bound is at most the first second of the year 10000 |

## Left out

- SQLite itself: WAL, file handles, path aliasing, backup copying, integrity and foreign-key checks, and everything the
  store's validation reads outside the modelled tables; a transaction is atomic and a snapshot is a frozen state.
- The rounds of SHA-256 and the JSON grammar: an injective function and an invertible codec stand for them.
- Command-line, RPC and MCP argument parsing, rendering, and the tables from errors to exit codes.
- Entropy: operation ids, event ids and generations are parameters, generations of restores are fresh by assumption.
- Project registration, path and remote resolution, Git, and configuration loading.
- Authorisation: it stands as a flag before a session's delivery; its own table of cases is settled by reading it.
- Writes outside their own connection: two connections interleave only at whole transactions.
- Event actor, execution and timestamp columns: carried with each row, not decoded.
- The benchmark's measurements and fixtures, apart from its replay oracle.
- Fairness of the MCP threads: what each does with its next steps is proved, not that a scheduler grants them; decoding
  of messages and the initialize handshake only decide which input a frame is.
- The newline a response ends with, behind the counted envelope.
- Delivery.WritePage: lengths that overflow a machine word give the internal error the source gives; which of its
  checked additions is the one to fail is not told apart.
- ReadSessions.ReadSession.Execute: the delivery itself is a parameter; the page and history branches are modelled in
  TokenPages.
