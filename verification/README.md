# ko-ls, modelled

ko-ls is a chat client with no server. Members write signed records; every reader
collects the records of a channel from wherever they can be had, in any order, and
must show what every other reader shows. Nothing arbitrates, so agreement has to
come out of the rules: a total order on records, rate ceilings every reader computes
alike, one encoding of every object, and permissions read off a replayed log.

The project models the parts of it that carry that burden and proves what they are
for.

* **What a reader refuses** - `Limits` (the whole-set rate pass), `Pacing` (what its
  ceilings bound), `Stability` (what its verdicts depend on), `Projection`,
  `Refinement` and `Index` (the stored, one-record-at-a-time form of the pass, and
  exactly when it is the pass).
* **What a reader shows** - `Records` (records, their order, collections of them),
  `Render` (what a rendered message means), `View` (the view that merges and renders
  in two passes), `Convergence` (readers agree; a page is the channel cut down), `Shown`
  (what is held, refused and shown, of the records' own fields and nothing else),
  `Screening` (the index folds what is stored, the view what passes its check).
* **What a writer publishes** - `Logs` (an author's log object), `LogRuns` (whole
  runs of one), `Stamps` (the readings it is stamped with), `Chain` (the pass that
  cuts a history into segments), `Publication` (what of it is put out, and the index
  naming its head), `Overfull` (a history that pass leaves unreadable), `Fetch`
  (getting a segment back), `Delivery` (from what members wrote to what any reader
  shows).
* **Exact bytes** - `Wire` (the primitives), `RecordCodec`, `Segments`,
  `ChannelCodec`, `Cursors`, `Base32`, and `Layouts` (each format field by field).
* **Who may do what** - `Capabilities` (scopes and their names), `ChannelGate` and
  `MessageGate` (the writer's gate against the reader's), `Redactions` (authority as
  of a cited log head), `Names` (first claim wins).
* **The sidebar** - `Sidebar` (its normative order) and `Drag` (the arithmetic that
  feeds it).

`Prelude` holds machine integers and the generic vocabulary.

Loops and objects of the source are loops and objects here: `WithheldOf`,
`ChannelView`, `AuthorLog`, `ChannelIndex`, `LogAuthority`, `NameRegistry`, the
base32 loops, `ordering_is_valid`, `chain_to`, `sidebar_order`, `moveChannelTo`,
`fetch_segment`. Each is proved against a function of its inputs or of its old
state, and the properties are lemmas about that function.

## What it assumes

* Identifiers are thirty-two bytes, held as the number they spell; comparing the
  numbers is comparing the bytes (`Wire.BigEndianOrder`).
* The hash and the signature check are parameters, as is which identifiers are
  verifying keys. That the hash does not collide is asked of the records at hand and no
  others (`RecordCodec.NoCollision`): over all byte strings no hash is like that.
* The canonical encoder writes a domain tag, fixed-width big-endian integers, and
  text and bytes behind an eight-byte length; options and booleans are one byte, and a
  decoder refuses what it does not consume.
* Chunking and sealing are deterministic in the plaintext and the key, so an encoded
  object is its plaintext and key; a mutable pointer is a counter that starts at zero.
* What an identity holds, whether governance lets it publish, and how a log replays
  are parameters. The body of `admitted_since` is not part of this model: it is taken
  to answer with the admitted rows of one channel, author and class strictly after a
  time.

## What is not as documented

Each of these is proved, with the exact condition under which the code does what its
documentation says and, where the failure needs an input to be seen, that input.

* A ceiling bounds every sixty-second span but the one that starts at the earliest
  instant an `i64` can name, where readings are never counted. There it holds only of
  messages, and only where slowmode alone lets no more than the ceiling through, which
  is where the two multiply to sixty seconds (`Pacing.CeilingBoundsEverySpan`).
* Slowmode is called the stricter of the two bounds whenever it is set; with the
  message ceiling off it is never looked at (`Pacing.SlowmodeNeedsACeiling`), while the
  stored form does look at it (`Refinement.CoveringIsExact`).
* The stored form reaches the pass's verdicts on every page of a channel exactly when
  no author repeats a reading within a class, the earliest instant aside, where even
  distinct readings part them (`Refinement.SpacingIsExact`).
* The index folds every stored record, the view only those its check passes. They
  refuse the same of what is accepted, on every selection and at all rates, exactly
  when nothing turned away comes before an accepted record of its author and class
  within the window or the longest slowmode (`Screening.AgreementIsQuiet`,
  `Screening.IndexAgreementIsQuiet`). Otherwise a page can hide a message that the
  whole channel shows (`Screening.StoredRejectsCanHideAMessage`).
* With a negative skew, records enter the hold as time passes (`Pacing.HoldExpires`).
* A redaction is judged as of the head it cites, so that nothing done later reaches
  back; but where its channel sits is read off the log as it stands now. Moving the
  channel to another category shows the message again, unless its moderator held wide
  authority at that head, or authority at the new category
  (`Redactions.RedactionsStand`, `Redactions.RedactionsStandEverywhere`, and
  `Redactions.MovingAChannelUnhides` for the input).
* A push compares a record with its own device's last one, and its comment says that
  this keeps an author from publishing what readers will refuse. After a rebase it
  admits records in an order that `ordering_is_valid` rejects
  (`LogRuns.PushAfterRebaseCanBreakOrder`, `LogRuns.PushOrderIsExact`). Nothing that
  reads a segment asks that check, so such a segment is read all the same
  (`Segments.SegmentsRoundTrip`).
* A rebase that governance stops at its publish keeps the merged records under the
  winner's pointer, which does not name them unless there was nothing to merge
  (`LogRuns.AStoppedRebaseIsUnpublished`, `LogRuns.ARebaseCanBeStopped`).
* Segments are cut by bytes and by age, never by count. At the sizes the program ships
  with, 4097 withdrawals a millisecond apart are published as one segment and no reader
  takes it (`Overfull.OneTooMany`); a published segment is read exactly when it has no
  more than 4096 records (`Chain.LinksReadBack`).
* The gate never bounds an attachment's name, which readers do; `record.rs` says so too
  (`MessageGate.GateAgreesUpToNames`, `MessageGate.LongNamesPassTheGate`).
* A name is said never to unbind, including after its holder leaves. The right to be
  named is asked of the present, so it moves when its holder loses that right or an
  earlier claimant gains it, and only then (`Names.KeysStayWithTheRight`,
  `Names.LeavingGivesUpTheName`).
* Text that decodes as base32 may carry one more `A` than the encoding of what it
  decodes to (`Base32.AcceptedTextIsTheEncoding`, `Base32.ALoneLetterIsNothing`).
* An invite is said to survive case-insensitive handling. Its symbols do; its scheme does
  not, so an invite put in upper case whole is refused
  (`Base32.UpperCasedInvitesAreRefused`). It is read exactly where what precedes the
  symbols is nothing or a scheme in the case it is spelled in
  (`Base32.InvitesSurvivePasting`).
* A drag that has to space its siblings out lands after the channel it was dropped
  before (`Drag.RespacedDragLandsAfter`).

## Model

| member | source | states |
|---|---|---|
| Records.InsertAllIsASetUnion | crates/kols-core/src/view.rs:129-143 | A collection keyed by cursor depends only on which records went in: not on order, repeats or batches |
| Records.InsertAllMembers | crates/kols-core/src/view.rs:129-143 | With ids that name records nothing is displaced: it holds exactly what was ever put in |
| Limits.WithheldOf | crates/kols-core/src/limits.rs:176-251 | One walk with its two tables refuses exactly the records judged against the admitted readings of their author and class, and holds exactly the ids of those dated past the clock and the skew together, where that sum is an `i64` |
| Limits.CrowdedByTheLast | crates/kols-core/src/limits.rs:225-233 | In merge order, being too close to any admitted message is being too close to the last one |
| Pacing.VerdictMeans | crates/kols-core/src/limits.rs:164-170 | A record is refused if and only if its author has a standing message too near before it, or a ceiling's worth of standing records of its class in the minute before it |
| Pacing.CeilingBoundsEverySpan | crates/kols-core/src/limits.rs:190-247 | In every record set at most `ceiling` records of one author and class stand in a sixty-second span, if and only if the span does not start at the earliest instant or, of messages, the ceiling times the slowmode seconds is at least sixty |
| Pacing.CeilingBounds | crates/kols-core/src/limits.rs:190-247 | A span after the earliest instant is bounded record set by record set, whatever slowmode says besides |
| Pacing.ClaimedPacingIsThePacing | crates/kols-core/src/limits.rs:190-247 | At any local time no more than ceiling x ceil((W + skew) / 60000) records neither refused nor held claim a time after now - W |
| Pacing.SlowmodeNeedsACeiling | crates/kols-core/src/limits.rs:208-233 | Standing messages of one author are at least the interval apart, for every record set, if and only if a message ceiling is set or slowmode is off |
| Pacing.HoldExpires | crates/kols-core/src/limits.rs:195-207 | As local time grows records only leave the hold, for every record, if and only if the skew is not negative |
| Stability.FairThinningChangesNoVerdict | crates/kols-core/src/limits.rs:164-170 | Taking away refused records, or whole authors and classes, leaves every other verdict as it was |
| Stability.KeptVerdictsAreKeptRefusals | crates/kols-core/src/limits.rs:164-170 | Any selection that leaves each kept record its verdict leaves the refusals of what it keeps, and adds none |
| Stability.DroppingRefusedRecords | crates/kols-core/src/limits.rs:164-170 | A refused record occupies no slot: deleting any of them refuses and un-refuses nobody |
| Stability.SurvivorsStand | crates/kols-core/src/limits.rs:164-170 | Run again over what stands, the pass refuses nothing |
| Stability.AuthorsAreIndependent | crates/kols-core/src/limits.rs:186-247 | An author's verdicts in a class are decided by that author's records of that class alone |
| Stability.RefusalsByRecord | crates/kols-core/src/limits.rs:190-250 | The map of refusals says of each record what its own verdict says, and of nothing else |
| Projection.DecisionsReadOnlyEarlierRows | crates/kols-store/src/verdict.rs:89-134 | A decision is settled by the strictly earlier rows of the record's channel, author and class, in any order |
| Projection.RefoldFromAnywhere | crates/kols-store/src/verdict.rs:127-130 | Rows at or after a record, its own included, do not disturb its verdict, so a re-fold may start anywhere |
| Projection.StoringReplaces | crates/kols-store/src/schema.rs:100-140 | Storing a verdict replaces whatever was stored of that record and touches no other row |
| Projection.DecisionsMean | crates/kols-store/src/verdict.rs:89-134 | A record is too soon if and only if an admitted row of its channel, author and class lies before it within the slowmode, and over the rate if and only if not that and at least the rate of them lie within the minute |
| Refinement.IndexAgrees | crates/kols-store/src/verdict.rs:89-134 | Deciding and storing a spaced channel record by record reaches the whole-set pass's verdicts |
| Refinement.SpacingIsExact | crates/kols-store/src/verdict.rs:107-130 | It does so on every selection of a channel and under all limits with slowmode covered, if and only if the channel is spaced |
| Refinement.CoveringIsExact | crates/kols-store/src/verdict.rs:107-125 | It does so on every spaced channel, if and only if slowmode is off or a message ceiling is set |
| Refinement.AgreementIsOfRefusals | crates/kols-node/src/executor.rs:826-867 | Where the verdicts agree the refusals a page is rendered with are the pass's refusals |
| Index.ChannelIndex.FoldInto | crates/kols-node/src/store.rs:1196-1290 | Whatever arrived before, in whatever order and under whatever limits, the stored verdicts become the fold of the whole channel |
| Index.ChannelIndex.Arrive | crates/kols-node/src/store.rs:1221-1245 | A stored record is in the files and named in the arrival log; no verdict moves until a fold |
| Index.MissingCompletes | crates/kols-node/src/store.rs:1239-1256 | Arrivals past the newest row are exactly what the fold lacks, in merge order |
| Index.FoldReadsOnlyUnder | crates/kols-node/src/store.rs:1202-1211 | Stored verdicts depend on the limits only through the three numbers a change is noticed by |
| Render.RenderingDepicts | crates/kols-core/src/view.rs:298-389 | Each rendered message is its author's last edit, withdrawn or redacted if such a record exists, pinned by the last pin, each reactor present by their last reaction, and no reaction is empty |
| Render.DepictionIsUnique | crates/kols-core/src/view.rs:298-389 | And that description leaves no field open |
| Render.BodyIsTheLastEdit | crates/kols-core/src/view.rs:342-349 | The body is the last edit in merge order by the message's own author, or the original |
| Render.ReactionsByTheLast | crates/kols-core/src/view.rs:357-373 | Somebody stands under a key exactly when their last reaction with it was an addition |
| Render.RenderingIsInOrder | crates/kols-core/src/view.rs:391-394 | Messages come out strictly ascending by reading and id |
| Render.PagesAreLocal | crates/kols-core/src/view.rs:255-395 | A page holding every record that acts on its messages renders as the channel does, cut down to the page, in the same order |
| View.ChannelView.constructor | crates/kols-core/src/view.rs:110-118 | A view starts empty |
| View.ChannelView.Admit | crates/kols-core/src/view.rs:129-204 | The view then holds what it held and every delivered record that is of the channel, verifies, is a member's, keeps each bound and is of a kind its author may write, in merge order; each other is listed once, with the first of those it fails |
| View.CheckMeans | crates/kols-core/src/view.rs:145-204 | A record passes if and only if all five are so, and is otherwise refused for the first that is not |
| View.RefusedInOrder | crates/kols-core/src/view.rs:129-143 | What is listed stands in the order delivered |
| View.ChannelView.RenderExcluding | crates/kols-core/src/view.rs:274-395 | Two passes over the records give the declarative rendering without the refused given and the held recomputed |
| View.ChannelView.Render | crates/kols-core/src/view.rs:246-252 | The rendering without what the rate pass refuses or holds |
| View.FirstPass | crates/kols-core/src/view.rs:297-326 | The messages shown, each as its record started it, and their order |
| View.SecondPass | crates/kols-core/src/view.rs:328-389 | Applying every other record in merge order leaves each message as all that acts on it leaves it |
| Convergence.ReadersConverge | crates/kols-core/src/view.rs:235-252 | Two readers delivered the same records, in any order, repeated or batched, hold the same records and render the same at every clock reading |
| Convergence.AnIndexedPageIsTheChannel | crates/kols-core/src/view.rs:255-292 | A page rendered with the index's refusals is the channel's rendering cut down to the page |
| Shown.HoldsTheAdmissible | crates/kols-core/src/view.rs:129-204 | After any deliveries a reader holds a delivered record if and only if its channel, signature, author, bounds and right are in order, the right being moderation at the cited head for a redaction, moderation now for a pin and posting for all else |
| Shown.ClassesMean | crates/kols-core/src/record.rs:36-52 | Messages, edits and withdrawals and unknown kinds 1 to 63 count as messages, reactions and pins and unknown kinds 64 to 127 as reactions, redactions and 128 to 191 as control, and the rest is reserved |
| Shown.RefusedExactly | crates/kols-core/src/limits.rs:190-247 | The verdict on every record of every set, by the numbers the network sets and the standing records of its author in the minute, or the slowmode, before it |
| Shown.ShowsWhatStands | crates/kols-core/src/view.rs:235-252 | A message is in what a reader shows if and only if no rate refuses it and it is dated no later than the clock and the skew together |
| Screening.AgreementIsQuiet | crates/kols-node/src/executor.rs:801-867 | Folding what is stored and folding what is accepted refuse the same accepted records, on every selection and at all rates, if and only if nothing turned away precedes, within the window or the longest slowmode, an accepted record of its author and class |
| Screening.IndexAgreementIsQuiet | crates/kols-node/src/store.rs:1264-1290 | The same of the index, in a spaced channel and at all rates that cover slowmode |
| Screening.QuietAgrees | crates/kols-node/src/executor.rs:801-867 | Where that holds the refusals of accepted records are the same, reasons included |
| Screening.ThePageIsTheChannel | crates/kols-node/src/executor.rs:801-867 | A page of such a channel, admitted by the view and rendered with the refusals of an index that folded everything stored, is the whole channel as the view shows it, cut down to the page |
| Screening.AWindowIsTheChannel | crates/kols-node/src/store.rs:1123-1150 | So it is of every page `Store::load` draws: the records a window names, whichever they are, and those acting on them |
| Screening.StoredRejectsAreHarmless | crates/kols-node/src/executor.rs:801-867 | At given rates it is enough that what was turned away is refused in any case, or is all its author has in its class |
| Screening.StoredRejectsCanHideAMessage | crates/kols-node/src/store.rs:1264-1290 | Otherwise: of any two messages of one author less than a minute apart, the first too long to be accepted, a page can hide the second where the whole channel shows it |
| Wire.BigEndianOrder | crates/kols-core/src/cursor.rs:30-35 | Comparing identifiers as numbers is comparing their bytes |
| Wire.Utf8IsExact | crates/kols-core/src/record.rs:344-431 | Text is accepted if and only if it is the UTF-8 of Unicode scalar values |
| Layouts.RecordsAreSpelled | crates/kols-core/src/record.rs:224-308 | A record's canonical bytes are its fields one after another: tag of the format, channel, author, device, reading, discriminant, body, signature |
| Layouts.SegmentsAreSpelled | crates/kols-core/src/segment.rs:60-108 | A segment's are its header's and then each record behind its length |
| Layouts.EntriesAreSpelled | crates/kols-core/src/channel.rs:300-556 | A channel entry's payload is its fields one after another, each variant by its number, and it travels under its kind's name |
| Layouts.TokensAreSpelled | crates/kols-core/src/cursor.rs:49-76 | A token's bytes are the wall, the counter and the id |
| RecordCodec.RecordsRoundTrip | crates/kols-core/src/record.rs:224-431 | Decoding a record's canonical bytes gives the record, unknown kinds included |
| RecordCodec.AcceptedBytesReEmit | crates/kols-core/src/record.rs:344-431 | Re-encoding accepted bytes is byte-identical, with the same id and the rate class its tag names, unknown kinds included |
| RecordCodec.HeadersDecide | crates/kols-core/src/record.rs:344-431 | Decoding refuses an author or device that is no key, and then a number of no class; a number of a class but of no known kind is kept unread if a signature follows it |
| RecordCodec.IdentifiersNameRecords | crates/kols-core/src/record.rs:310-325 | Among records no two of which collide under the hash an id names one record |
| RecordCodec.CollisionsShareAnIdentifier | crates/kols-core/src/record.rs:310-325 | And two records have distinct ids, or are one, if and only if they do not collide |
| Segments.AppendExtends | crates/kols-core/src/segment.rs:79-108 | Appending a record appends its frame to the segment's bytes and disturbs none before it |
| Segments.CanonicalBytes | crates/kols-core/src/segment.rs:79-85 | The loop builds the header and every frame, in order |
| Segments.Decode | crates/kols-core/src/segment.rs:114-144 | The loop reads what the format says, or refuses at the first thing wrong |
| Segments.SegmentsRoundTrip | crates/kols-core/src/segment.rs:79-144 | A segment's bytes decode to it if and only if it holds no more than 4096 records; past that the refusal says so |
| Segments.AcceptedSegmentsReEmit | crates/kols-core/src/segment.rs:114-144 | The count-free record list parses back uniquely: accepted bytes are the one encoding of their segment |
| Segments.SegmentsAreRefused | crates/kols-core/src/segment.rs:114-144 | A segment whose author is no key is refused as that and no other is, and a frame that is no record is refused with what is wrong with it |
| Segments.BytesNameSegments | crates/kols-core/src/segment.rs:79-108 | Different segments have different bytes, however long |
| Segments.NeighboursSuffice | crates/kols-core/src/segment.rs:181-184 | Comparing neighbours by reading and id compares every pair |
| Segments.StrictMeans | crates/kols-core/src/segment.rs:186-194 | Checking each record against its device's last one checks every pair of a device |
| Segments.OrderingIsValid | crates/kols-core/src/segment.rs:180-197 | The two checks hold exactly when records ascend and readings strictly increase per device |
| Logs.AuthorLog.constructor | crates/kols-core/src/log.rs:201-223 | An open log has given its encoder the whole encoding of an empty segment |
| Logs.AuthorLog.LastReading | crates/kols-core/src/log.rs:277-282 | The search from the end finds the device's last reading |
| Logs.AuthorLog.Push | crates/kols-core/src/log.rs:270-295 | A push is refused for channel, author or reading and changes nothing; accepted, it adds one frame to the bytes and one record to the segment |
| Logs.AuthorLog.PublishCurrent | crates/kols-core/src/log.rs:354-397 | The pointer walks one version for each record pushed and at least one, naming the whole segment; refused part-way, the log is as it was |
| Logs.AuthorLog.Append | crates/kols-core/src/log.rs:241-249 | A refused push publishes nothing; a refused publish keeps the push |
| Logs.AuthorLog.Seal | crates/kols-core/src/log.rs:318-345 | The next segment starts empty under the next sequence, pointer and key, naming the sealed manifest |
| Logs.AuthorLog.Rebase | crates/kols-core/src/log.rs:427-471 | Another log's version is refused; otherwise both sides' records are merged and published above the adopted version |
| Logs.ObjectionMeans | crates/kols-core/src/log.rs:270-295 | A push is refused if and only if the record is of another channel or author, or is not past the last one its device wrote in the segment; and says which |
| Logs.AllowsMeans | crates/kols-core/src/log.rs:354-397 | A publish goes through if and only if governance lets the author create the pointer where there is none, and update it for every version after the first |
| LogRuns.Perform | crates/kols-core/src/log.rs:201-471 | Through every run of push, append, publish, seal and rebase the bytes given to the encoder are the segment's canonical bytes |
| LogRuns.RunsStaySound | crates/kols-core/src/log.rs:201-471 | And the log keeps to one channel and pointer, which names the segment whenever nothing is left to publish |
| LogRuns.RunsHoldOnlyTheirOwn | crates/kols-core/src/log.rs:201-471 | No run brings a record of another channel or author into the segment |
| LogRuns.AStoppedRebaseIsUnpublished | crates/kols-core/src/log.rs:427-471 | After a rebase stopped at its publish the log's pointer names its segment if and only if there was nothing to merge |
| LogRuns.ARebaseCanBeStopped | crates/kols-core/src/log.rs:427-471 | One record on each of two devices, and governance refusing updates, leave a log under a pointer that does not name it |
| LogRuns.BatchingDoesNotShow | crates/kols-core/src/log.rs:251-269 | However pushes, appends and publishes are grouped, the last leaves the segment, object and pointer version that pushing all and publishing once leaves |
| LogRuns.VersionsCountRecords | crates/kols-core/src/log.rs:366-386 | A pointer's version counts the records published and the publishes that had none, and nothing else |
| LogRuns.MergingIsUnion | crates/kols-core/src/log.rs:442-452 | A rebase loses nothing and invents nothing: it holds both sides' records, strictly ascending |
| LogRuns.MergingConverges | crates/kols-core/src/log.rs:442-452 | Merging does not depend on the side, the grouping of three or doing it twice |
| LogRuns.RebasesAgree | crates/kols-core/src/log.rs:427-471 | Whichever of two devices rebases, the segment and object are the same, and the new pointer version is the adopted one and one more for each record it had unpublished, or one |
| LogRuns.MergedOrderIsExact | crates/kols-core/src/segment.rs:165-197 | `ordering_is_valid` holds of a merge if and only if no device has two distinct records with one reading |
| LogRuns.PushOrderIsExact | crates/kols-core/src/log.rs:274-295 | An accepted push keeps `ordering_is_valid` if and only if the record falls after the segment's last |
| LogRuns.PushAfterRebaseCanBreakOrder | crates/kols-core/src/log.rs:274-295 | After a rebase an accepted push can leave an order that `ordering_is_valid` rejects, which nothing on the read path asks |
| LogRuns.OneDeviceStaysInOrder | crates/kols-core/src/segment.rs:165-180 | One device alone keeps `ordering_is_valid` through every run without a rebase |
| LogRuns.PublishHeadIndex | crates/kols-core/src/log.rs:159-197 | The head index is an empty segment naming the head, at a version equal to the head's sequence |
| Stamps.ReadingsAdvance | crates/kols-core/src/hlc.rs:42-53 | The next reading is past what was observed unless the counter is saturated, where `next_hlc` has no answer; otherwise both give the least such reading not before the clock |
| Stamps.StampsIncrease | crates/kols-node/src/chat.rs:38-43 | Whatever the clock does every stamp is past the one before, and 2^32 of them never run out of counter |
| Stamps.StampsFollowTheClock | crates/kols-node/src/chat.rs:38-43 | And each claims the highest time the clock had shown by then |
| Stamps.StampedRecordsAreAccepted | crates/kols-core/src/log.rs:270-295 | A record a device stamps is accepted by its log after any run of writes, publishes, seals and rebases, the clock stepping back included |
| Stamps.ObservedStampsKeepOrder | crates/kols-core/src/hlc.rs:35-53 | A push stamped past the highest reading in the segment keeps `ordering_is_valid` after a rebase as well |
| Stamps.ObservantRunsStayInOrder | crates/kols-core/src/log.rs:241-471 | Over whole runs: if every record is stamped past the segment and no rebase brings a device two records at one reading, `ordering_is_valid` holds throughout |
| Chain.TakeNext | crates/kols-node/src/serve.rs:2157-2197 | One record of the pass: a seal first where one is due, then a push; a refused push leaves what the seal closed |
| Publication.PublishOwnLog | crates/kols-node/src/serve.rs:2148-2228 | The pass through a log object, governance letting it publish, puts out the segments of the chain its walk defines that retention covers and an index of its head; or stops at a record the log refuses, having put out the segments it had closed and no index |
| Publication.AStoppedPassClosedAChain | crates/kols-node/src/serve.rs:2157-2197 | What a stopped pass had closed is the chain of the records before the refused one, whole or short of its open end |
| Publication.AStoppedPassClosedWhatWasDue | crates/kols-node/src/serve.rs:2157-2197 | It is whole if and only if the open end, with the refused record, spans a day, has reached the target or would pass the ceiling |
| Publication.IndexNamesTheHead | crates/kols-node/src/serve.rs:2215-2228 | The index is at the last segment's sequence |
| Publication.IndexReadsBack | crates/kols-core/src/log.rs:159-197 | An index reads back as an empty segment of its sequence, at that version, under the index pointer and its key |
| Publication.LaterIndexSupersedes | crates/kols-core/src/log.rs:150-158 | A later pass's index supersedes an earlier one if and only if the chain has gained a segment, and otherwise is the same |
| Publication.RetentionForgetsTheOldest | crates/kols-node/src/serve.rs:2281-2326 | Of an ordered history what is carried is always the latest segments, and as time passes none once dropped comes back |
| Publication.CarriedByAge | crates/kols-node/src/serve.rs:2281-2326 | A segment is put out if and only if messages are kept for good, or its newest record is less than a day more than the window old |
| Chain.PublishedChainIsTheHistory | crates/kols-node/src/serve.rs:2148-2213 | The chain holds the history record for record: consecutive sequences, each linked to the last by its manifest under its own pointer and key, none past the ceiling but a single record, none kept open past where it was due to be closed |
| Chain.SegmentsCloseWhereDue | crates/kols-node/src/serve.rs:2157-2193 | Every closed segment was closed because the next record was due a new one; with none due earlier within a segment, that fixes every cut |
| Chain.SegmentsStayShort | crates/kols-node/src/serve.rs:2264-2279 | Until its last record a published segment spans less than 86,400,000 ms, is short of the byte target and, with the next record, within the ceiling |
| Chain.ClosedSegmentsAreFull | crates/kols-node/src/serve.rs:2264-2279 | And with the record after it every closed segment fails one of the three |
| Chain.LaterPassesExtend | crates/kols-node/src/serve.rs:2157-2213 | A pass over a longer history republishes every closed segment as it was and only adds to the head |
| Chain.RepublishedLinkSupersedes | crates/kols-node/src/serve.rs:2157-2213 | A republished segment keeps its pointer and key, and its version is higher if and only if it has more records |
| Chain.OrderedHistoryIsAccepted | crates/kols-node/src/serve.rs:2157-2197 | A stored history in order is published whole, no record refused |
| Chain.LinksReadBack | crates/kols-node/src/serve.rs:2157-2213 | Each published segment of an ordered history is in order and reads back if and only if it has no more records than a reader takes |
| Chain.OnlySizeAndAgeCut | crates/kols-node/src/serve.rs:2264-2279 | A history short of the byte and age thresholds is one segment however many records it has |
| Overfull.ARunOfWithdrawals | crates/kols-node/src/serve.rs:2264-2279 | At the shipped sizes any run of up to 17000 withdrawals a millisecond apart is one segment, read if and only if there are no more than 4096 |
| Overfull.OneTooMany | crates/kols-node/src/serve.rs:2264-2279 | 4097 of them are published as a segment no reader takes |
| Overfull.WithdrawalsReachReaders | crates/kols-node/src/serve.rs:2148-2228 | Such a history reaches readers whole if and only if it is within the bound |
| Fetch.FetchSegment | crates/kols-net/src/publish.rs:61-94 | The fetch gives what is held as a segment, or the first reason it cannot |
| Fetch.Collect | crates/kols-net/src/publish.rs:77-89 | The loop finds every chunk held and, in order, every one missing |
| Fetch.MissingMeansWanted | crates/kols-net/src/publish.rs:61-159 | A fetch says chunks are missing exactly where some are wanted, the same ones; every other answer wants no more |
| Fetch.FetchRefuses | crates/kols-net/src/publish.rs:61-94 | What a fetch refuses and as what: an object that overran, a manifest that does not read, more chunks than bytes, more bytes than the ceiling |
| Fetch.TwoRoundsSuffice | crates/kols-net/src/publish.rs:136-159 | Delivering what is wanted twice leaves nothing wanted, whatever overran meanwhile |
| Fetch.WantedIsBounded | crates/kols-net/src/publish.rs:116-159 | No manifest has a reader ask for more chunks than the ceiling has bytes |
| Fetch.PublishedSegmentsArrive | crates/kols-net/src/publish.rs:31-94 | A node holding nothing gets a published segment in two rounds if and only if it is within the ceiling and the record bound, and is told which it is not |
| Delivery.WhatIsWrittenIsShown | crates/kols-core/src/view.rs:235-252 | Where every history is in order and none is cut into a segment past 4096 records, and the records written do not collide under the hash, a reader that read every segment of every member's chain, in any order or twice, holds and shows what the histories themselves give |
| Base32.Encode | crates/kols-node/src/invite.rs:62-77 | The loop over an unmasked 32-bit buffer spells the bytes as one number, five bits a symbol, zero-filled |
| Base32.Decode | crates/kols-node/src/invite.rs:79-101 | The loop reads that number back, refusing a foreign character or a non-zero remainder |
| Base32.BytesSurvive | crates/kols-node/src/invite.rs:62-101 | Decoding an encoding gives the bytes back, for all bytes and in either case |
| Base32.AcceptedTextIsTheEncoding | crates/kols-node/src/invite.rs:79-101 | Accepted text upper-cases to the encoding of what it decodes to, or to that and one `A`, exactly at lengths 1, 3 and 6 modulo 8 |
| Base32.DecodingIsExact | crates/kols-node/src/invite.rs:79-101 | A text decodes to given bytes if and only if it upper-cases to their encoding, or at those lengths to that and one `A` |
| Base32.ALoneLetterIsNothing | crates/kols-node/src/invite.rs:79-101 | `A` alone is accepted, as the encoding of nothing |
| Base32.TheAlphabet | crates/kols-node/src/invite.rs:56-77 | The symbols are the letters and then 2 to 7, and bytes of RFC 4648 section 10 are spelled as there |
| Base32.InvitesSurvivePasting | crates/kols-node/src/invite.rs:44-54 | With whitespace anywhere and its symbols in either case, an invite is read if and only if what precedes the symbols is nothing, the scheme or the scheme short of one slash, in the case it is spelled in (bytes that are all zero also with one `A` more) |
| Base32.InvitesAreRead | crates/kols-node/src/invite.rs:26-54 | Every invite is read as it is given out |
| Base32.WhitespaceIsDropped | crates/kols-node/src/invite.rs:44-50 | A character is dropped from a pasted text, wherever it is, if and only if it is Unicode whitespace |
| Base32.UpperCasedInvitesAreRefused | crates/kols-node/src/invite.rs:15-54 | An invite put in upper case whole is refused, whatever follows its scheme |
| Cursors.CursorsAreTotallyOrdered | crates/kols-core/src/cursor.rs:24-35 | Places are totally ordered, readings first |
| Cursors.TokensRoundTrip | crates/kols-core/src/cursor.rs:49-76 | The 44 bytes of a place's token read back as that place, negative readings included; their hexadecimal form is not modelled |
| Cursors.TokensAreUnique | crates/kols-core/src/cursor.rs:63-76 | Bytes read as a place exactly when there are 44, and are then the only bytes of it; of the hexadecimal string, whose case the hexadecimal reader decides, nothing is claimed |
| ChannelCodec.EntriesRoundTrip | crates/kols-core/src/channel.rs:455-633 | An entry's payload decodes to it if and only if its subject is of the kind its body is about |
| ChannelCodec.AcceptedEntriesReEmit | crates/kols-core/src/channel.rs:557-633 | An accepted payload is the one encoding of its entry, which agrees with itself |
| Capabilities.NamesAreInjective | crates/kols-core/src/permissions.rs:75-92 | A capability's name is one verb at one scope |
| Capabilities.HexReadsBack | crates/kols-core/src/permissions.rs:75-92 | An identifier in a name is 64 lower-case hexadecimal digits that read back as it |
| ChannelGate.SpellingsAgree | crates/kols-core/src/channel.rs:415-451 | The names an entry accepts are those grants are written and resolved by at its scopes |
| ChannelGate.DeclarationMeans | crates/kols-core/src/channel.rs:783-792 | A declaration exists if and only if the author holds one of the entry's scopes |
| ChannelGate.TheNarrowestIsDeclared | crates/kols-core/src/channel.rs:783-792 | What a change is declared at is the channel's own grant if held, else its category's, else the network's |
| ChannelGate.RequiredIsAcceptable | crates/kols-core/src/channel.rs:387-451 | What a refusal says was needed is the first of what would have done, or for a channel made in a category the category's |
| ChannelGate.PermittedMeansDeclarable | crates/kols-api/src/authorize.rs:359-452 | The gate's capability check passes if and only if a declaration exists, but for a new channel's own id granted beforehand |
| ChannelGate.GateAgreesWithReaders | crates/kols-api/src/authorize.rs:359-452 | Whatever the gate passes becomes an entry that readers of the same placement read back as that entry |
| ChannelGate.GateIsTheReadersBounds | crates/kols-api/src/authorize.rs:359-452 | The gate passes if and only if the capability check does and the entry is within the readers' bounds, besides a known channel, a name that is not blank and the network's slowmode |
| ChannelGate.BoundsMean | crates/kols-core/src/channel.rs:640-680 | Readers hold names to 256 bytes, topics to 1024 and reasons to 256, and a subject to the kind of its body |
| ChannelGate.GateRefusalsMean | crates/kols-api/src/authorize.rs:359-452 | What the gate answers, by the first thing wrong |
| ChannelGate.EntriesSayWhatWasAsked | crates/kols-node/src/executor.rs:940-1030 | A command is read back off the entry it becomes |
| ChannelGate.OnlyItsOwnScopesAuthorize | crates/kols-core/src/channel.rs:742-763 | Readers accept a declaration if and only if it is the entry's verb at one of its scopes |
| ChannelGate.MovedChannelsKeepOtherGrants | crates/kols-core/src/channel.rs:826-866 | A change read after its channel moved is refused if and only if it was declared at the category it left |
| ChannelGate.ReadEntriesAreCanonical | crates/kols-core/src/channel.rs:837-866 | An entry read is in a server network, within bounds, properly declared, and the only entry of its payload |
| ChannelGate.ReadRefusalsMean | crates/kols-core/src/channel.rs:742-866 | Why a body is not read as an entry, by the first thing wrong |
| MessageGate.GateAgreesUpToNames | crates/kols-api/src/authorize.rs:276-357 | What the gate passes, by its own test of rights and sizes, readers of the same state admit if and only if its author is a member and every attachment name fits |
| MessageGate.GateIsTheReadersCheck | crates/kols-api/src/authorize.rs:276-357 | Of a member, the gate passes what fits the attachment names if and only if readers admit it and it is not blank, its files are within the network's number and size, and its reaction is something |
| MessageGate.RefusalsMean | crates/kols-api/src/authorize.rs:276-357 | What the gate answers, by the first thing wrong |
| MessageGate.BodiesSayWhatWasAsked | crates/kols-node/src/executor.rs:150-260 | A body is a command's if and only if that command is read back off it |
| MessageGate.LongNamesPassTheGate | crates/kols-api/src/authorize.rs:276-306 | A message with one file under a name of 256 bytes passes the gate and is refused by every reader |
| MessageGate.UnpermittedIsRefused | crates/kols-api/src/authorize.rs:276-357 | What the gate refuses for want of a right, its test of who may pin spelled apart from theirs, no reader of the same state admits |
| Redactions.ChainTo | crates/kols-core/src/permissions.rs:255-264 | The walk ends on any acyclic log with the exact ancestry of the head, oldest first, or nothing where some is not held |
| Redactions.AncestryIsExact | crates/kols-core/src/permissions.rs:249-264 | There is one parent-linked chain from a first entry to a head, and that is the ancestry |
| Redactions.LogAuthority.MayModerateAt | crates/kols-core/src/permissions.rs:272-325 | The remembered answer is the unremembered one |
| Redactions.LogAuthority.Answers | crates/kols-core/src/permissions.rs:272-325 | For every sequence of questions, in any order |
| Redactions.HeldAncestryStands | crates/kols-core/src/permissions.rs:249-264 | A chain already held is the same chain in every longer log |
| Redactions.VerdictsStand | crates/kols-core/src/permissions.rs:213-226 | At a given placement and head, appending entries changes a verdict only where some of the chain was missing, and then only from refusal |
| Redactions.RedactionsStand | crates/kols-node/src/executor.rs:784-801 | Under every longer log a redaction once admitted is admitted while its author is a member, demoted or not, if and only if the channel sits where it did, or the author held wide authority at the cited head, or authority at the category it has moved to |
| Redactions.RedactionsStandEverywhere | crates/kols-core/src/permissions.rs:213-226 | It stands wherever the channel is moved if and only if its author is a member and held the right at large, network-wide or at the channel |
| Redactions.MovingAChannelUnhides | crates/kols-node/src/executor.rs:784-801 | Whatever the message and its redaction: a moderator of one category hides it, the channel moves to another, and readers show it again |
| Names.NameRegistry.Apply | crates/kols-core/src/names.rs:248-260 | A claim binds its key and becomes the name shown, unless its key is unusable or another's; and says whether |
| Names.NameRegistry.Claimable | crates/kols-core/src/names.rs:273-279 | A name is claimable if and only if applying the claim would bind; otherwise who holds it |
| Names.ReplayNames | crates/kols-core/src/names.rs:296-315 | Replay folds the claims of those who hold the right to be named |
| Names.FirstClaimHolds | crates/kols-core/src/names.rs:225-260 | A key is held if and only if some counted claim is on it, by the author of the first |
| Names.ShownIsTheLastWin | crates/kols-core/src/names.rs:248-265 | Somebody is shown a name if and only if a counted claim of theirs is on a usable key nobody else counted claimed first, and it is the name of the last such claim |
| Names.ShownNamesAreHeld | crates/kols-core/src/names.rs:230-260 | Everyone shown a name holds its key, through every log |
| Names.KeysNeverMove | crates/kols-core/src/names.rs:225-260 | No later claim unbinds a key or gives it to another |
| Names.KeysStayWithTheRight | crates/kols-core/src/names.rs:296-315 | When who holds the right to be named changes, a key stays with its holder if and only if the holder keeps it and no earlier claimant gains it |
| Names.LeavingGivesUpTheName | crates/kols-core/src/names.rs:296-315 | Two members claim a name, the first leaves, and the second holds it |
| Sidebar.SiblingsAreTotallyOrdered | crates/kols-core/src/channel.rs:910-915 | The comparison is a strict total order with unpositioned last |
| Sidebar.SortForgetsOrder | crates/kols-core/src/channel.rs:955-972 | Sorting by it gives one list for every arrangement of the same siblings |
| Sidebar.SidebarOrder | crates/kols-core/src/channel.rs:935-977 | Grouping, collecting and sorting give the sidebar: loose channels, then each category shown, each with its own channels |
| Sidebar.SidebarsAgree | crates/kols-core/src/channel.rs:917-977 | Every reader draws the same rows whatever order channels and categories reach it in |
| Sidebar.EveryChannelHasItsPlace | crates/kols-core/src/channel.rs:935-977 | Each channel is in its own group and no other; a category has one row if it is defined or named by a channel, and otherwise none; loose channels are above all |
| Sidebar.NoChannelTwice | crates/kols-core/src/channel.rs:935-977 | With distinct ids no channel is drawn twice |
| Sidebar.SidebarIsInOrder | crates/kols-core/src/channel.rs:910-977 | Of two loose channels, two of one category or two categories the one of lower position is above, the unpositioned and undefined below those, ties by id |
| Drag.MoveChannelTo | crates/kols-ui/app.js:1089-1136 | The branches and the spacing loop make the moves the arithmetic defines |
| Drag.SlotsAreInTheMiddle | crates/kols-ui/app.js:1101-1115 | A slot is the middle of its two neighbours rounded down, half the first's, or 1024 past the last |
| Drag.RespacingIsBySteps | crates/kols-ui/app.js:1117-1129 | Where there is none the siblings go to 0, 1024, 2048 and on, and the channel to half a step past the one it was dropped before |
| Drag.SlottedDragInserts | crates/kols-ui/app.js:1104-1115 | Where there is room one move is made, which within a category is one entry, and the sorted list is the old one with the channel inserted where it was dropped |
| Drag.RespacedDragLandsAfter | crates/kols-ui/app.js:1117-1129 | Spaced out first, the channel lands after the one it was dropped before |
| Drag.DragLandsWhereDropped | crates/kols-ui/app.js:1089-1136 | A drag ends where it was dropped if and only if there was room or it was dropped at the end |
| Drag.NoRoomMeans | crates/kols-ui/app.js:1101-1115 | There is no room if and only if a sibling has no position, the first is at zero, or two neighbours are at most one apart |

## Left out

- Cryptography: signatures, key agreement, sealing and the chunker are parameters or
  idealised, so `new_chunks` and the bytes a reader refetches are not measured.
- Unicode: normalisation and graphemes of names, and which texts trim to nothing, are
  parameters; whitespace in a pasted invite is Unicode's White_Space.
- The encoders and decoders of records, segments' headers and channel entries are
  functions rather than objects that move a cursor; the loops over records are loops.
- Machine overflow that would stop the program is a precondition or an answer of
  `None`: a sequence number past 2^64 - 1, a stamp's counter past 2^32 - 1, a span of
  more than 2^63 milliseconds within a segment or since one, more than 2^64 records
  unpublished.
- A standard-library sort is modelled by a stable insertion sort; that any sort gives
  the same list is proved.
- Verdict codes as stored, announcing to peers, wrapping keys, and concurrency between a node's own threads.
- Reading a page: which records a window names is a parameter; what acts on them is not.
- The authorize arms and settings that are one capability test or one constant, command
  classification, the shell and its windows.
- Cursors.TokensRoundTrip: stops at the token's bytes, because the hexadecimal reader is
  not part of this model.
- Cursors.TokensAreUnique: likewise.
- Publication.PublishOwnLog: a pass that governance refuses part-way, which puts out what
  it had and reports the failure, and one that finds nothing new since the last.
- Drag.MoveChannelTo: the change of category that a move into another category writes ahead
  of its position.
- Drag.SlottedDragInserts: a position past what a `u32` holds, which the backend refuses
  without moving anything.
