# Verified models of the migration, parity, backfill and mail code

A Dafny project beside the repository. It models the parts whose correctness spans whole runs or
whole inputs, and proves what their documentation promises, or the exact condition under which the
code keeps that promise. `dafny verify dfyconfig.toml` checks everything.

- **Mail** (`Utf8`, `Base64`, `Wire`, `EncodedWord`, `Rfc2047`, `Mime`, `MimeReader`): the MIME builder of the
  email worker, and an independent reader of the wire format (RFC 5322 section 2.2, RFC 2045 section
  6.8, RFC 2046 section 5.1.1, RFC 2047 sections 2, 4 and 6.2) that recovers what was sent.
- **Parity runner** (`Json`, `JsonNormalize`, `JsonDiff`, `JsonPaths`, `JsonDiffPlaces`, `JsonDiffSwap`,
  `JsonEnums`, `JsonEnumPlaces`, `ParityCase`, `JsonAgreement`, `OriginPacer`, `PacedPosts`, `ParityPool`, `ParitySchedules`):
  normalisation, the capped diff and the enum walk over JSON trees; the pacer over every history of
  acquires, and the calls that sleep, send and re-send behind it, interleaved; the worker pool over
  every order of arrival.
- **Postgres to D1** (`SqlValues`, `SqlReader`, `InsertStatements`, `EtlRows`, `SessionRotation`,
  `SessionImport`): literals and statements with a SQL reader that undoes them, the session ordering,
  and the import of the ordered batch.
- **Watermark backfill** (`IsoWeek`, `Aggregation`, `WatermarkBackfill`): the lower / tick / restore
  protocol as a state machine, with the aggregation job's own tick, its 300-product chunks and its
  cursor included.
- **Name quality** (`AnnotationStripping`, `NameQuality`, `CatalogPaging`): the annotation stripper,
  the write plan and its convergence, the count verification, the cursor paging.
- **Hold audit** (`HoldAudit`): guarded updates interleaved with an ingester.
- **Page walk and probe arithmetic** (`CatalogSweep`, `CheckDigit`, `StrideSample`).
- `Wrappers`, `Chunking`, `Extremes` hold what several of these share.

Loops over mutable state are methods and classes, each proved against a specification function; the
theorems are lemmas about those functions. Clocks, random tokens, servers, the event loop's choices
and the transports are parameters, so every statement holds for all of them.

## Where the code and its documentation part

The model follows the code. What this showed:

- A mail subject of printable ASCII is sent as it stands, even when it reads as an encoded-word;
  a receiver then shows another text. Which subjects arrive is exact for every receiver
  (`EncodedWord.SubjectRoundTrip`), and for receivers after RFC 2047, which take any charset name
  and both encodings in any case, spelled out (`Rfc2047.SurvivesIff`, `Rfc2047.LookalikeIsLost`).
  A strict receiver also refuses the builder's words for the empty subject and for texts of more than
  45 UTF-8 bytes, which exceed the 75 characters of RFC 2047 section 2. A message without a body
  arrives as an empty plain text (`MimeReader.RoundTrip`).
- The backfill promises that one aggregation tick closes the lowered gap. The tick handles 300
  products and resumes from a cursor, so one tick suffices exactly when every missing product is
  active, above the cursor, and at most 300 active ones stand from there to the last missing one
  (`WatermarkBackfill.LowerThenTick`; `Aggregation.OneTickMisses` are databases where it does not).
  A pass of ticks leaves the missing products at or below the cursor of a pass already in flight,
  and those it overtakes: observations appended between its ticks behind its cursor, or before the
  watermark (`WatermarkBackfill.LowerThenPass`). A second lower and a second pass close everything
  missing at that second lower, and leave only what the second pass itself overtakes
  (`WatermarkBackfill.SecondRoundCloses`).
- The job by itself loses what a pass overtakes: the completing tick moves the watermark past the
  observation, and no later pass comes back to it before its product is observed again
  (`Aggregation.AppendBehindIsSkipped`, `Aggregation.SkippedForGood`).
- `--lower` writes the watermark before the state file. Which systems are unsafe when it is cut off
  in between is exact (`WatermarkBackfill.CutShortIsSafeIff`): those with a stale lowered state file
  of the same target, recorded above the new Monday (`WatermarkBackfill.CutShortOverStaleState`).
- `--restore --force` moves the watermark backwards exactly as
  `WatermarkBackfill.ForcedRestoreRegressesIff` says; `WatermarkBackfill.ForcedRestoreRegresses` is a case.
- The parity report depends on the order of arrival exactly when two workers or more run two cases
  of one name with different results, be it in their inputs only (`ParitySchedules.ScheduleShowsIff`).
- The name-quality paging stops early behind a page-sized run of malformed rows
  (`CatalogPaging.ScanIsFullIff`; 5000 of them in `CatalogPaging.BlockedByScript`) and lists a
  malformed row twice unless every full page it goes on behind ends in a well-formed row
  (`CatalogPaging.ListedOnceIff`, `CatalogPaging.MalformedListedTwiceByScript`).
- The hold audit's guard re-checks the hold and not the ABV: a row corrected after the enumeration is
  held all the same (`HoldAudit.CorrectedRowIsHeld`); and an ingester that rewrites a row lifts its
  hold (`HoldAudit.RewriteLiftsHold`).
- The check-digit test looks at the first fourteen digits of a longer text only (`CheckDigit.TailIgnored`).
- The parity normalisation clones through JSON, which turns -0 into 0 and an infinity into null:
  payloads agree exactly when they are the same but for the volatile keys and such numbers
  (`JsonAgreement.AgreeIff`), so some that differ agree (`JsonAgreement.AgreeThoughDifferent`).

## Assumptions

- Session ids need not be distinct for the ordering theorem; the import takes token hashes as
  distinct, as the table's unique index demands.
- The watermark safety theorem starts from any state that satisfies its invariant, in particular
  from one without a state file whose watermark is not above every observation, and observations
  are only appended during a run.
- In the rate bounds a timer fires no earlier than its slot, and at most 15 s late where the bound
  of ten is stated; clock readings may go backwards.
- A receiver's decoded words are shorter than the words; for `Rfc2047` this follows when no charset
  makes more characters than there are bytes, as of UTF-8, US-ASCII and ISO-8859-1.
- SQL text is read by the lexer of `SqlReader`; a number literal is compared by its numeral.

## Model

| member | source | states |
|---|---|---|
| `Mime.Refusal` | apps/email-worker/src/mime.ts:63-99 | a message is refused iff some guarded field holds a CR or LF, and the field named does |
| `Mime.Base64Utf8` | apps/email-worker/src/mime.ts:69-74 | the byte-by-byte loop yields the base64 of the UTF-8 bytes |
| `Mime.WrappedIsLines` | apps/email-worker/src/mime.ts:77-79 | the wrapped code and its CRLF are exactly the body lines on the wire, one empty line for an empty body |
| `Mime.BuildMimeMessage` | apps/email-worker/src/mime.ts:91-151 | the message is refused, or is exactly its header, part and delimiter lines, each ended by CRLF; read back, the binding payload is the very email |
| `Utf8.DecodeEncode` | apps/email-worker/src/mime.ts:70 | UTF-8 decoding undoes encoding for every text |
| `Base64.DecodeIffEncode` | apps/email-worker/src/mime.ts:69-74 | a text decodes to some bytes iff it is their encoding: both directions, padding bits included |
| `Base64.EncodedAlphabet` | apps/email-worker/src/mime.ts:69-79 | only base64 letters and `=` reach the wire, four characters per three bytes |
| `Wire.SplitTerminated` | apps/email-worker/src/mime.ts:104-138 | cutting at CRLF gives back exactly the lines written |
| `Wire.ParseRenderedHead` | apps/email-worker/src/mime.ts:104-128 | an unfolding header parser recovers every field in order and leaves the body lines alone |
| `EncodedWord.SubjectRoundTrip` | apps/email-worker/src/mime.ts:82-85 | at any receiver a subject decodes back iff it passed through and no space-separated piece of it is an encoded-word there, or it was encoded and the receiver reads that word |
| `EncodedWord.SentAsItIs` | apps/email-worker/src/mime.ts:82-85 | exactly the non-empty printable ASCII subjects are sent as they stand |
| `EncodedWord.AdjacentWords` | apps/email-worker/src/mime.ts:82-85 | the receiver drops the spaces between two adjacent words |
| `Rfc2047.ReadsBuiltWord` | apps/email-worker/src/mime.ts:82-85 | an RFC 2047 receiver reads the encoded subject, a strict one iff its text has 1 to 45 UTF-8 bytes |
| `Rfc2047.SurvivesIff` | apps/email-worker/src/mime.ts:82-85 | exactly which subjects arrive at such a receiver |
| `Rfc2047.UnmarkedSubjectRoundTrip` | apps/email-worker/src/mime.ts:82-85 | every subject without `=?` decodes back at a lenient receiver, and every printable one at any |
| `Rfc2047.LookalikeIsLost` | apps/email-worker/src/mime.ts:82-85 | a subject that is a word in any charset, encoding and case is sent as it stands and read back as that word's text |
| `Rfc2047.WordsForA` | apps/email-worker/src/mime.ts:82-85 | `=?utf-8?b?QQ==?=`, `=?UTF-8?Q?A?=` and their like are read back as "A" |
| `Rfc2047.CommonReceiverIsLawful` | apps/email-worker/src/mime.ts:70 | a receiver of UTF-8, US-ASCII and ISO-8859-1 meets the charset laws |
| `MimeReader.BodyLinesAreSafe` | apps/email-worker/src/mime.ts:76-79 | body lines have at most 76 characters, no CR or LF, and none starts with the delimiter, whatever the token |
| `MimeReader.ReadBuilt` | apps/email-worker/src/mime.ts:104-138 | reading a built message gives every header field and exactly the one or two bodies with their media types, for all texts |
| `MimeReader.HeadersAre` | apps/email-worker/src/mime.ts:101-138 | the Date, Message-ID, MIME-Version and content headers of a built message, literally |
| `MimeReader.RecoverDelivered` | apps/email-worker/src/mime.ts:91-138 | what any message is reconstructed to at any receiver, absent bodies and lookalike subjects included |
| `MimeReader.RoundTrip` | apps/email-worker/src/mime.ts:91-138 | the very email that was sent is reconstructed iff it has a body and its subject survives that receiver |
| `MimeReader.FormsAgree` | apps/email-worker/src/mime.ts:141-150 | the MIME text and the binding payload of one built message carry the same email, under the round trip's condition |
| `JsonNormalize.StripVolatile` | scripts/dual-run-parity.ts:238-251 | the deleting walk leaves the tree without its volatile fields |
| `JsonNormalize.NormalizePayload` | scripts/dual-run-parity.ts:258-267 | clone, then strip |
| `JsonNormalize.StripAt` | scripts/dual-run-parity.ts:231-251 | paths through one of the four keys lead nowhere afterwards; every other path leads to what it led to, stripped |
| `JsonNormalize.NormalizeAt` | scripts/dual-run-parity.ts:231-267 | the same for the whole normalisation, over every path |
| `JsonNormalize.NormalizeTwice` | scripts/dual-run-parity.ts:258-267 | normalisation is idempotent |
| `JsonNormalize.AddVolatile` | scripts/dual-run-parity.ts:231-262 | a volatile field added to any object anywhere does not show |
| `JsonNormalize.AlterVolatile` | scripts/dual-run-parity.ts:231-262 | nor does altering the value under one |
| `JsonDiff.DiffWalk.Walk` | scripts/dual-run-parity.ts:349-398 | one visit adds the full difference of the pair as far as the cap leaves room |
| `JsonDiff.DiffNormalized` | scripts/dual-run-parity.ts:343-401 | with cap n, exactly the first n entries of the uncapped difference; for n >= 1 empty iff structurally equal |
| `JsonDiff.EmptyIffSame` | scripts/dual-run-parity.ts:343-401 | the uncapped difference is empty iff the trees are equal up to key order |
| `JsonDiffPlaces.DifferenceIsExact` | scripts/dual-run-parity.ts:343-401 | the uncapped difference lists every place where the payloads part, once, and nothing else: its printed path, its kind, and what either side has there |
| `JsonDiffPlaces.PathsReadBack` | scripts/dual-run-parity.ts:279-282 | for keys without dots and brackets an independent reader recovers the places from the printed paths, and no two entries print one path |
| `JsonPaths.ReadFormatted` | scripts/dual-run-parity.ts:279-282 | every printed path of such keys reads back |
| `JsonPaths.ReadNatText` | scripts/dual-run-parity.ts:364-372 | every printed index, length and status reads back as its number |
| `JsonDiffSwap.DiffSwapped` | scripts/dual-run-parity.ts:343-401 | swapping the arguments gives the same differences as a multiset, sides and missing-kinds exchanged |
| `JsonEnums.EnumWalk.Walk` | scripts/dual-run-parity.ts:292-311 | the walk appends exactly the violations below a node, in order |
| `JsonEnums.ValidateEnums` | scripts/dual-run-parity.ts:290-314 | the violations of the whole payload |
| `JsonEnums.EmptyReport` | scripts/dual-run-parity.ts:290-314 | no violation iff every string under confidence, reliability or status, at any depth, is in its set |
| `JsonEnumPlaces.ReportIsExact` | scripts/dual-run-parity.ts:290-314 | the report lists every enum string outside its set, once, and nothing else: its printed path, the string and the set |
| `ParityCase.RunParityCase` | scripts/dual-run-parity.ts:458-523 | the verdict is ok iff both answered with one status, the payloads agree modulo the volatile keys and all enums hold; the exact diffs, violations and error rows otherwise |
| `ParityCase.IgnoredKeys` | scripts/dual-run-parity.ts:231-236 | payloads that differ under one key agree iff it is one of the four |
| `ParityCase.TimestampIgnored` | scripts/dual-run-parity.ts:225-236 | payloads agree whatever their `metadata.calculationTimestamp` |
| `ParityCase.EnumVerdict` | scripts/dual-run-parity.ts:290-314 | which values pass under `confidence`, `reliability` and `status`, and that no other key matters |
| `ParityCase.Verdicts` | scripts/dual-run-parity.ts:484-522 | equal amounts pass; another amount, another status or one bogus enum on both sides does not |
| `ParityCase.StatusDiffReads` | scripts/dual-run-parity.ts:484-502 | the status entry names both statuses |
| `JsonAgreement.AgreeIff` | scripts/dual-run-parity.ts:253-267 | payloads agree iff, stripped of the volatile keys, they are the same up to key order and the numbers that JSON writes alike |
| `JsonAgreement.AgreeIsSameStripped` | scripts/dual-run-parity.ts:253-267 | without -0 and infinities: iff they are the same once stripped |
| `JsonAgreement.AgreeThoughDifferent` | scripts/dual-run-parity.ts:253-267 | -0 and 0 agree though different, and so do null and an infinity |
| `ParityCase.AgreeIsEquivalence` | scripts/dual-run-parity.ts:258-262 | agreement modulo the volatile keys is an equivalence relation |
| `ParityCase.AddedVolatileKeepsVerdict` | scripts/dual-run-parity.ts:484-522 | adding a volatile key on either side never changes the verdict |
| `ParityCase.AlteredVolatileKeepsVerdict` | scripts/dual-run-parity.ts:484-522 | nor does altering one |
| `OriginPacer.Pacer.Reserve` | scripts/dual-run-parity.ts:203-208 | the slot is the one the whole history of acquires leads to, never before now |
| `OriginPacer.SlotsAreSpaced` | scripts/dual-run-parity.ts:198-209 | slots of one origin are at least the interval apart, for any interleaving and any clock |
| `OriginPacer.FirstSlot` | scripts/dual-run-parity.ts:203-208 | the first caller of an origin does not wait |
| `OriginPacer.NextSlot` | scripts/dual-run-parity.ts:203-208 | any other waits exactly until an interval after the last slot, or not at all |
| `OriginPacer.EightFit` | scripts/dual-run-parity.ts:172-174 | and eight callers at once get slots 7.5 s apart |
| `OriginPacer.SlotsAreIndependent` | scripts/dual-run-parity.ts:198-209 | a slot is the one the origin's own acquires alone would have given |
| `OriginPacer.WindowBound` | scripts/dual-run-parity.ts:198-209 | at most k slots of an origin fall in a window of at most k intervals |
| `OriginPacer.EightSlotsAMinute` | scripts/dual-run-parity.ts:172-174 | at the default pace any half-open 60 s window holds at most 8 slots |
| `OriginPacer.BackoffMs` | scripts/dual-run-parity.ts:178-190 | the backoff is positive and at most 20 s, whatever the 429 body says |
| `OriginPacer.BackoffFollows` | scripts/dual-run-parity.ts:176-190 | so many seconds asked are that long a wait up to 20 s, anything else is 5 s |
| `OriginPacer.PostCalculation` | scripts/dual-run-parity.ts:141-166 | one send, or two when the first answer is a 429, each behind an acquire of its own, and the slots those reserved |
| `PacedPosts.RunKeepsInv` | scripts/dual-run-parity.ts:142-209 | over every interleaving of calls, wakes and re-sends, each request is sent from its own acquire of its origin, not before its slot |
| `PacedPosts.TenSendsAMinute` | scripts/dual-run-parity.ts:153-174 | of the requests such a run sends at the default pace, re-sends included, at most 10 reach one origin in a half-open 60 s window with timers up to 15 s late |
| `PacedPosts.OneResend` | scripts/dual-run-parity.ts:153-164 | a call that has finished sent two requests if its first answer was a 429 and one otherwise, and none ever more |
| `PacedPosts.Traffic.Begin` | scripts/dual-run-parity.ts:153 | up to the first await a call reserves its slot, never before now |
| `PacedPosts.Traffic.Send` | scripts/dual-run-parity.ts:154-160 | the request after the sleep, and the backoff a 429 brings |
| `PacedPosts.Traffic.Resend` | scripts/dual-run-parity.ts:161-162 | the slot of the one re-send |
| `ParityPool.RunInv` | scripts/dual-run-parity.ts:532-541 | over every schedule each claimed index is awaited or finished exactly once, and k arrivals leave k fewer to come |
| `ParityPool.WorkersAre` | scripts/dual-run-parity.ts:534 | at least one worker, no more than asked for or than there are cases |
| `ParityPool.EveryInterleavingIsComplete` | scripts/dual-run-parity.ts:532-541 | every schedule can be continued until the pool is done, which is after exactly one arrival per case, each index run once |
| `ParityPool.ScheduleIndependence` | scripts/dual-run-parity.ts:526-556 | under every interleaving and any concurrency the report is the sequential one |
| `ParityPool.SequentialReport` | scripts/dual-run-parity.ts:543-555 | with distinct names it lists the cases in their given order, with the numbers of those that pass and fail |
| `ParitySchedules.ScheduleShowsIff` | scripts/dual-run-parity.ts:526-556 | some two schedules give different reports iff there are two workers or more and two cases of one name with different results |
| `ParitySchedules.SortKeepsLast` | scripts/dual-run-parity.ts:543-545 | the sort is stable: the last result of a name stays its last |
| `ParitySchedules.TwoOfOneName` | scripts/dual-run-parity.ts:526-556 | the smallest such run: any two different results of one name, two workers |
| `ParityPool.ParityRun.Arrive` | scripts/dual-run-parity.ts:535-540 | one arrival is one step of the pool and pushes that case's result |
| `ParityPool.RunParity` | scripts/dual-run-parity.ts:526-556 | whichever arrival comes next, the run ends with each case reported once and sorted, `failed` the number of failing cases, 0 iff all pass; the cases in their given order when names are distinct, the sequential report when names decide the results |
| `SqlReader.TransformIsExact` | scripts/etl-pg-to-d1.ts:391-460 | a literal is emitted iff the value has a D1 counterpart, and it reads back as that value; NULL never meets the text 'NULL' |
| `SqlReader.JsonbIsInjective` | scripts/etl-pg-to-d1.ts:441-458 | two jsonb values get one literal iff they mean the same JSON text |
| `SqlValues.PlainDecimalIs` | scripts/etl-pg-to-d1.ts:364 | a numeric is taken as it stands iff it is an optional minus, digits, and optionally a point and digits |
| `SqlValues.PlainDateIs` | scripts/etl-pg-to-d1.ts:365 | a date text is taken iff it is four, two and two digits with hyphens |
| `InsertStatements.BuildInsertStatements` | scripts/etl-pg-to-d1.ts:631-647 | one statement per slice of batchSize tuples |
| `InsertStatements.ReadStatement` | scripts/etl-pg-to-d1.ts:626-647 | one emitted statement in front of any script reads as one INSERT of its rows in front of the rest |
| `InsertStatements.ScriptRoundTrip` | scripts/etl-pg-to-d1.ts:626-647 | a whole artifact reads back as the original rows, batch by batch, for all texts and every batch size |
| `Chunking.ChunkIds` | scripts/classify-product-name-quality.ts:603-609 | the slicing loop yields the chunks |
| `Chunking.ChunksPartition` | scripts/classify-product-name-quality.ts:603-609 | no element is lost, repeated or moved |
| `Chunking.ChunksAreFull` | scripts/etl-pg-to-d1.ts:640-645 | every chunk but the last is full, none is empty |
| `EtlRows.CheckRow` | scripts/etl-pg-to-d1.ts:466-542 | the CHECK offenders of a row, in order |
| `EtlRows.TransformRow` | scripts/etl-pg-to-d1.ts:544-566 | the literals and the offenders of a row, or a column without a kind |
| `EtlRows.TransformRows` | scripts/etl-pg-to-d1.ts:506-573 | drift and missing kinds are told apart; all offenders of all rows are reported, or all tuples are returned |
| `EtlRows.NoOffender` | scripts/etl-pg-to-d1.ts:498-573 | nothing is reported iff every value has an exact counterpart and every CHECK column an allowed value |
| `EtlRows.ReportIsExact` | scripts/etl-pg-to-d1.ts:498-573 | an offender is reported iff it names a row and a column that a CHECK set or the transform refuses there |
| `EtlRows.ArtifactRoundTrip` | scripts/etl-pg-to-d1.ts:506-647 | an unreported table's artifact reads back as exactly the rows the Postgres rows mean, in full batches |
| `SessionRotation.OrderSessions` | scripts/etl-pg-to-d1.ts:581-619 | succeeds iff ids are distinct and every chain reaches a root in the batch; a permutation, roots first, parents strictly first; one sweep and the exact order for ascending batches; the exact stuck ids on failure |
| `SessionRotation.Sweep` | scripts/etl-pg-to-d1.ts:602-610 | a sweep only appends, progresses iff it places a row, and without progress every row is settled |
| `SessionRotation.StuckExactly` | scripts/etl-pg-to-d1.ts:612-617 | the stuck ids are those of the rows whose chain reaches no root inside the batch |
| `SessionRotation.UnrootedIff` | scripts/etl-pg-to-d1.ts:612-617 | with distinct ids a row reaches no root iff its chain repeats an id or ends on a parent outside the batch |
| `SessionRotation.StuckIff` | scripts/etl-pg-to-d1.ts:612-617 | so the error lists exactly the ids of the rows with a cyclic or dangling chain |
| `SessionRotation.StuckInOrder` | scripts/etl-pg-to-d1.ts:612-617 | the ids stand in row order |
| `SessionImport.ForeignKeyAfterEveryRow` | scripts/etl-pg-to-d1.ts:868-885 | importing the ordered rows keeps the rotation key valid after every row |
| `SessionImport.InsertKeepsKeys` | scripts/etl-pg-to-d1.ts:640-645 | a statement keeps both keys unique and every stored row, and stores its row when both keys are free |
| `SessionImport.ImportConverges` | scripts/etl-pg-to-d1.ts:640-645 | from any part of the batch already stored, importing the batch gives the table of one import |
| `SessionImport.PrefixThenAll` | scripts/etl-pg-to-d1.ts:640-645 | a prefix and then everything, or everything twice, is importing once |
| `SessionImport.ImportSessions` | scripts/etl-pg-to-d1.ts:581-647 | ordering and importing stores every row under its id, a permutation of the batch with the key valid after every row, or fails with exactly the stuck ids of the ordering |
| `IsoWeek.AnchorLaws` | packages/data-platform/src/d1/summary-aggregation.ts:44-56 | the anchor is a Monday midnight less than seven days back, idempotent, monotone, and shared exactly within the week |
| `IsoWeek.KnownMonday` | packages/data-platform/src/d1/summary-aggregation.ts:44-56 | the instants anchored at 2024-01-01T00:00Z are exactly those of that week |
| `Aggregation.Earliest` | scripts/backfill-history-summaries.ts:167-181 | the instant of some in-window observation of a missing product, and none of those is older |
| `Aggregation.TickMonotone` | apps/api-worker/src/cron/time-series-aggregation.ts:205-330 | a tick never moves the watermark back and never drops a bucket |
| `Aggregation.SliceSize` | apps/api-worker/src/cron/time-series-aggregation.ts:262-285 | a tick processes the three hundred least pending products, or all |
| `Aggregation.TickBuckets` | apps/api-worker/src/cron/time-series-aggregation.ts:205-330 | the buckets a tick adds: every day of a processed product from the watermark's Monday on, and no other |
| `Aggregation.TickCloses` | apps/api-worker/src/cron/time-series-aggregation.ts:205-330 | a tick closes exactly the gaps of the products it processes, wherever the watermark stands |
| `Aggregation.OneTickClosesIff` | apps/api-worker/src/cron/time-series-aggregation.ts:205-330 | one tick closes every gap iff all missing products are active and above the cursor and at most 300 active ones stand from there to the last of them |
| `Aggregation.OneTickMisses` | apps/api-worker/src/cron/time-series-aggregation.ts:205-330 | whatever the cursor, a tick leaves a missing product at or below it missing |
| `Aggregation.SmallCatalogSuffices` | apps/api-worker/src/cron/time-series-aggregation.ts:205-330 | with no pass in flight and at most 300 active products one tick suffices |
| `Aggregation.PassLeaves` | apps/api-worker/src/cron/time-series-aggregation.ts:205-330 | with any appends between its ticks, a pass leaves missing exactly what one of its ticks found missing at or below its cursor, and what is missing but not active at the last one |
| `Aggregation.PassCloses` | apps/api-worker/src/cron/time-series-aggregation.ts:205-330 | from a watermark that reaches the gaps: exactly the missing products at or below the starting cursor and the appended ones it overtakes |
| `Aggregation.PassAdvances` | apps/api-worker/src/cron/time-series-aggregation.ts:302-330 | a pass over some activity ends without a cursor, its watermark at or above all of that activity, what was appended meanwhile included |
| `Aggregation.AppendBehindIsSkipped` | apps/api-worker/src/cron/time-series-aggregation.ts:205-330 | from complete coverage, one observation appended behind the cursor is missing when the pass ends |
| `Aggregation.SkippedForGood` | apps/api-worker/src/cron/time-series-aggregation.ts:302-330 | and, when a newer one was active, after any further pass in which its product is not observed |
| `WatermarkBackfill.Backfill.RunLower` | scripts/backfill-history-summaries.ts:621-733 | the phase's exit code, watermark and state file, in all branches |
| `WatermarkBackfill.Backfill.RunRestore` | scripts/backfill-history-summaries.ts:735-817 | the same for restore, forced or not |
| `WatermarkBackfill.Backfill.RunVerify` | scripts/backfill-history-summaries.ts:819-837 | 0 iff every product observed in the window has a daily bucket in it |
| `WatermarkBackfill.RunKeepsInv` | scripts/backfill-history-summaries.ts:446-456 | over every run of lowers, ticks, appends and restores on any targets: an open lowered backfill's watermark is at the lowered value or at or above the recorded one |
| `WatermarkBackfill.RepeatedLower` | scripts/backfill-history-summaries.ts:630-656 | while the recorded lowering is in effect, any sequence of lowers at any instants and windows changes nothing, each with code 0 |
| `WatermarkBackfill.LowerTwice` | scripts/backfill-history-summaries.ts:621-733 | a lower right after one that lowered is such a no-op |
| `WatermarkBackfill.RestoreNeverRegresses` | scripts/backfill-history-summaries.ts:735-817 | a restore without force decreases no watermark of any target |
| `WatermarkBackfill.RestoreWatermark` | scripts/backfill-history-summaries.ts:735-817 | where an unforced restore leaves the watermark, and that it changes nothing else of the database |
| `WatermarkBackfill.ForcedRestoreRegressesIff` | scripts/backfill-history-summaries.ts:800-810 | exactly when a forced restore does |
| `WatermarkBackfill.ForcedRestoreRegresses` | scripts/backfill-history-summaries.ts:800-810 | a safe system whose forced restore moves the watermark back to the recorded one |
| `WatermarkBackfill.CompletedRestore` | scripts/backfill-history-summaries.ts:760-790 | a lowered backfill's restore that returns 0 leaves coverage complete and the watermark at or above the recorded one |
| `WatermarkBackfill.LowerRecords` | scripts/backfill-history-summaries.ts:680-728 | a lower that finds a gap records its target, the watermark before, the lowered one if any, its window and its instant; any other changes nothing |
| `WatermarkBackfill.LowerThenRestore` | scripts/backfill-history-summaries.ts:735-817 | after it and any ticks and appends, a restore returns 0 and closes the backfill iff nothing is missing in the lower's own window |
| `WatermarkBackfill.LowerReaches` | scripts/backfill-history-summaries.ts:658-733 | after a fresh lower, over a stale state file of its target too and in all branches, only the watermark has moved, to the exact value, and every gap is reached by the scan |
| `WatermarkBackfill.LowerThenPass` | scripts/backfill-history-summaries.ts:28-36 | lower and a pass of ticks with any appends between them: exactly what stays missing, and when nothing does |
| `WatermarkBackfill.LowerThenTick` | scripts/backfill-history-summaries.ts:28-36 | lower and a single tick close every gap iff one tick suffices on the database as it was, but for the lowered watermark and what was appended until the tick |
| `WatermarkBackfill.SecondRoundCloses` | scripts/backfill-history-summaries.ts:643-650 | when a lower found a gap, then after lower, pass, lower, pass, with any appends at any point and whatever pass was in flight, only what the second pass overtakes is missing at the second cutoff: nothing of what was missing at the second lower |
| `WatermarkBackfill.CutShortIsSafeIff` | scripts/backfill-history-summaries.ts:710-728 | a lower cut off between its two writes is safe iff it has not lowered over a stale lowered state file of its target to another Monday, below the recorded watermark |
| `WatermarkBackfill.CutShortOverStaleState` | scripts/backfill-history-summaries.ts:710-728 | a safe system that such a lower makes unsafe |
| `WatermarkBackfill.CutShortRestoreResumes` | scripts/backfill-history-summaries.ts:760-790 | a restore cut off between its two writes and run again at any instant ends where the uninterrupted one would have, iff coverage holds at its own cutoff |
| `AnnotationStripping.StripTwice` | packages/data-acquisition/src/services/name-quality.ts:51-99 | stripping a stripped name finds no annotation and changes nothing, for every name |
| `AnnotationStripping.AnnotatedIff` | packages/data-acquisition/src/services/name-quality.ts:83-135 | a name yields an annotation iff an annotated parenthetical is in it; otherwise only white space changes |
| `AnnotationStripping.NotesAreKept` | packages/data-acquisition/src/services/name-quality.ts:83-100 | names with one or two notes: the text without them, and their trimmed contents joined by `; ` |
| `AnnotationStripping.CommentaryCounts` | packages/data-acquisition/src/services/name-quality.ts:51-59 | each commentary word makes a note, in capitals or not, wherever it stands |
| `AnnotationStripping.PairsCount` | packages/data-acquisition/src/services/name-quality.ts:51-59 | and so do the two-word phrases |
| `AnnotationStripping.PackNotationStays` | packages/data-acquisition/src/services/name-quality.ts:43-59 | pack notation such as `24 x 0,33 l` never does |
| `AnnotationStripping.GateIsSound` | packages/data-acquisition/src/services/name-quality.ts:109-135 | what the write plan and the statistics assume of the gate holds of the real stripper |
| `AnnotationStripping.BackfillConverges` | scripts/classify-product-name-quality.ts:620-647 | with the real stripper, re-planning after an apply yields no statement |
| `NameQuality.StatsAre` | scripts/classify-product-name-quality.ts:483-496 | the figures are the numbers of blank names, of names the gate rejects and of annotated names |
| `NameQuality.StatsSplit` | scripts/classify-product-name-quality.ts:483-496 | the two differences count what they claim to: quarantined rows that are not empty, and accepted rows |
| `NameQuality.PlanEffect` | scripts/classify-product-name-quality.ts:625-652 | each row ends with the name and annotation the stripper gives, and quarantined iff the gate rejects it |
| `NameQuality.PlanIsMinimal` | scripts/classify-product-name-quality.ts:612-652 | a row has a statement iff that changes it |
| `NameQuality.Backend.ApplyPlan` | scripts/classify-product-name-quality.ts:815-831 | executing in batches of at most fifty is executing the whole plan |
| `NameQuality.ReplanEmptyIff` | scripts/classify-product-name-quality.ts:620-647 | re-planning after an apply yields no statement iff every rewritten name settles |
| `NameQuality.ApplyConverges` | scripts/classify-product-name-quality.ts:620-647 | with a stable stripper a second apply writes nothing |
| `NameQuality.PlannedIdsOnce` | scripts/classify-product-name-quality.ts:603-639 | the quarantine IN-lists hold exactly the ids to quarantine, and with distinct ids each stands at exactly one place of one IN-list of at most a hundred |
| `NameQuality.VerificationExact` | scripts/classify-product-name-quality.ts:833-858 | the count verification passes iff every accepted row was stored ok; for two-valued tables iff no stored-quarantined row classifies ok |
| `NameQuality.VerifiedIs` | scripts/classify-product-name-quality.ts:833-858 | the check compares the numbers of rows stored ok and quarantined, and that there is no third value |
| `CatalogPaging.ReadCatalog` | scripts/classify-product-name-quality.ts:671-710 | the paging loop, with its cursor and its early exits, against a recursion over the remaining rows |
| `CatalogPaging.ScanIsFullIff` | scripts/classify-product-name-quality.ts:671-710 | the pages equal a full scan iff no page-sized run of malformed rows stands before a well-formed one; else a proper prefix |
| `CatalogPaging.WellFormedCatalog` | scripts/classify-product-name-quality.ts:671-710 | a catalog of string names: every positive id is classified once, in id order |
| `CatalogPaging.NeverTwice` | scripts/classify-product-name-quality.ts:671-710 | no row is ever classified twice, malformed rows or not |
| `CatalogPaging.BlockedByScript` | scripts/classify-product-name-quality.ts:671-710 | at the page size of 5000 (line 160) a catalog of 5000 malformed rows and a well-formed one has nothing classified |
| `CatalogPaging.ListedOnceIff` | scripts/classify-product-name-quality.ts:671-710 | each malformed row is listed at most once iff every full page the walk goes on behind ends in a well-formed row |
| `CatalogPaging.MalformedListedTwice` | scripts/classify-product-name-quality.ts:671-710 | at every page size from two on, a page with a malformed last row has it listed twice |
| `CatalogPaging.MalformedListedTwiceByScript` | scripts/classify-product-name-quality.ts:671-710 | in particular at the page size of 5000 (line 160) |
| `HoldAudit.AffectedIsTheRest` | scripts/nonalcoholic-catalog-audit.ts:95-103 | each row is held, listed or affected, and only one of them; a missing ABV is affected |
| `HoldAudit.Attribution` | scripts/nonalcoholic-catalog-audit.ts:144-156 | after any interleaving the table is what the ingester alone would have left, but for unheld rows an update named after their last write |
| `HoldAudit.OnlyEnumeratedRowsChange` | scripts/nonalcoholic-catalog-audit.ts:138-156 | no hold is overwritten, no ABV touched, and only enumerated rows differ |
| `HoldAudit.HoldIsGuarded` | scripts/nonalcoholic-catalog-audit.ts:144-156 | one update leaves held and unnamed rows alone and is idempotent |
| `HoldAudit.StatementsAreSmall` | scripts/nonalcoholic-catalog-audit.ts:129-156 | every update of a run names one to five hundred rows |
| `HoldAudit.HeldExactly` | scripts/nonalcoholic-catalog-audit.ts:507-531 | the held and the remaining rows after any interleaving |
| `HoldAudit.UntouchedIsMarkedIff` | scripts/nonalcoholic-catalog-audit.ts:502-506 | a row the ingester stays out of is held by the run iff it was enumerated |
| `HoldAudit.QuietRun` | scripts/nonalcoholic-catalog-audit.ts:481-533 | alone, the run holds every affected row, leaves none, and its held-row delta is the number enumerated |
| `HoldAudit.CorrectedRowIsHeld` | scripts/nonalcoholic-catalog-audit.ts:149-153 | a row whose ABV was corrected in between is held all the same |
| `HoldAudit.RewriteLiftsHold` | apps/api-worker/src/adapters/d1-upsert.repository.ts:85-92 | a held row that the ingester rewrites without a reason is unheld and affected again |
| `HoldAudit.Database.CollectReport` | scripts/nonalcoholic-catalog-audit.ts:105-123 | the affected ids in ascending order, and the held count |
| `HoldAudit.Database.RunAudit` | scripts/nonalcoholic-catalog-audit.ts:481-533 | nothing to apply, a dry run that writes nothing, or the whole interleaved history with its two counts |
| `HoldAudit.ApplyTwice` | scripts/nonalcoholic-catalog-audit.ts:39-43 | a second apply enumerates nothing and writes nothing |
| `CatalogSweep.FetchPage` | scripts/bottleofitaly-catalog-sweep.ts:267-311 | the outcome read off the one or two replies, and exactly those requests |
| `CatalogSweep.SecondChance` | scripts/bottleofitaly-catalog-sweep.ts:267-311 | a page served at once or after one throw, 429 or non-JSON answer is collected; what every other pair of replies ends in |
| `CatalogSweep.SweepCatalog` | scripts/bottleofitaly-catalog-sweep.ts:325-387 | the summary and the requests of the walk, against any server |
| `CatalogSweep.NoHole` | scripts/bottleofitaly-catalog-sweep.ts:325-387 | at most 120 pages of at most two requests; the products are those of pages 1 to pagesOk; no failure iff the last page was short |
| `CatalogSweep.FiguresAre` | scripts/bottleofitaly-catalog-sweep.ts:325-387 | the summary's figures: distinct ids, pages throttled, babbled at, retried, and recovered by the retry |
| `CatalogSweep.RetryBalance` | scripts/bottleofitaly-catalog-sweep.ts:342-355 | retried minus recovered pages is 1 exactly when the walk died on a retried page, else 0 |
| `CatalogSweep.CensusIsComplete` | scripts/bottleofitaly-catalog-sweep.ts:325-387 | against a server paging through a catalog: always a prefix of it, and no failure iff the catalog is under the cap and every page came through, in which case all of it |
| `CheckDigit.CheckDigitMatches` | scripts/lmdw-crawl-probe.ts:749-755 | the index loop against the right-aligned sum of the standard |
| `CheckDigit.AgreesWithStandard` | scripts/lmdw-crawl-probe.ts:749-755 | up to fourteen digits the verdict is that of the GS1 General Specifications, section 7.9 |
| `CheckDigit.PaddingIsNeutral` | scripts/lmdw-crawl-probe.ts:748-751 | zero padding up to fourteen digits never changes the verdict |
| `CheckDigit.OneCheckDigit` | scripts/lmdw-crawl-probe.ts:749-755 | each body has exactly one accepted last digit |
| `CheckDigit.KnownCode` | scripts/lmdw-crawl-probe.ts:749-755 | 96385074 is accepted, 96385075 is not |
| `CheckDigit.OneDigitChanged` | scripts/lmdw-crawl-probe.ts:749-755 | every change of one digit is caught |
| `CheckDigit.NeighboursSwapped` | scripts/lmdw-crawl-probe.ts:749-755 | a swap of unequal neighbours passes iff they differ by five |
| `CheckDigit.TailIgnored` | scripts/lmdw-crawl-probe.ts:751-754 | digits after the fourteenth are never looked at |
| `StrideSample.Sample` | scripts/lmdw-crawl-probe.ts:980-985 | the sampled entries and how many there are, empty lists and non-positive counts included |
| `StrideSample.EvenlySpread` | scripts/lmdw-crawl-probe.ts:980-985 | over any number of places the sample advances by its exact share, rounded down or up |
| `StrideSample.StrictlyIncreasing` | scripts/lmdw-crawl-probe.ts:980-985 | with at most as many samples as entries the indices start at 0 and strictly increase |
| `StrideSample.RepeatsIff` | scripts/lmdw-crawl-probe.ts:980-985 | some entry is sampled twice in a row iff more samples are asked for than there are entries |

## Left out

- Network, wrangler, node:sqlite, file and console output, sleeping, argument parsing, manifests and checksums: they are parameters or not part of the model.
- The Date header's text, the Message-ID's local part and the boundary token are inputs of the message builder; the builder does not check the local part for CR or LF, and the theorems take all three as free of them.
- Lone surrogates in texts are not representable, and header names are looked up case-sensitively.
- Rfc2047.SurvivesIff: charsets that make more characters than bytes, and words outside the Subject header.
- RFC line-length limits that the builder does not enforce are not claimed.
- JsonNormalize.StripVolatile: trees are values, so the deletion is in place on the walk's own list of fields and no aliasing between subtrees is modelled.
- The JSON text layer: payloads are trees of finite depth with distinct keys, and the printed values in a diff are a parameter.
- OriginPacer.PostCalculation: runs without a pacer are not modelled, and a transport that throws is in `PacedPosts` and `ParityCase.RunParityCase` only.
- PacedPosts.TenSendsAMinute: a request counts when it is sent; what the server counts between sending and arrival is outside.
- ParityPool.RunParity: a case's result depends on its case only, not on the time it is fetched.
- SqlReader.TransformIsExact: `Number`, `Date` and `JSON.parse` are parameters; binary rounding of a REAL literal by the database is not modelled.
- EtlRows.TransformRows: the JSONL rows and the texts of the offender report.
- SessionImport.ImportSessions: the foreign keys of sessions to other tables and triggers.
- The grouping of observation records into date partitions, a filter by key in reading order.
- Aggregation.Tick: the statistics inside a bucket, weekly and monthly granularities, and retention; a tick that fails half-way, and observations appended while a tick reads.
- NameQuality.VerificationExact: tables of well-formed rows without concurrent writers; the annotation count printed beside it is display only.
- AnnotationStripping.GateIsSound: the informativeness test after stripping (ABV, volume, pack and number patterns, Unicode letters) is a parameter, of which it only assumes that an empty name fails it.
- CatalogPaging.ReadCatalog: ids are integers, so a fractional or textual id is not representable.
- HoldAudit.Database.CollectReport: one instant per report; the category counts, the sample listing and the SQL text of the updates.
- HoldAudit.Attribution: rows are inserted or rewritten by the ingester, never deleted.
- CatalogSweep.SweepCatalog: pacing sleeps, and what the report extracts from the products.
- StrideSample.Sample: integer arithmetic; list lengths for which a double loses integers are out of scope.
- Sitemap discovery, the other sweeps, the report printers, the sample comparison, request validation, templates and the HTTP wiring: duplicates of the above or shallow branching.
