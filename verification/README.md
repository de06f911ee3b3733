# TenantWatch: a verified model of its stateful engines

TenantWatch watches Microsoft 365 and Google Workspace tenants. A scheduler scans each tenant, a
reconcile engine turns the findings of a scan into records with a lifecycle, a dispatcher turns the
changes into digests, and an evidence sanitiser bounds what leaves for the language model. This
project models those engines in Dafny and proves what they guarantee over all inputs, all runs and all
interleavings. `dafny verify dfyconfig.toml` checks everything.

## How the model is laid out

| file | models |
|---|---|
| `Core.dfy`, `Fingerprints.dfy` | findings, severities, ingest validation, the fingerprint's pre-image |
| `Stores.dfy` | the findings table with its two upserts: whole-record replace (memory) and the conflict column list (SQLite) |
| `Reconcile.dfy` | `Engine.Reconcile` as written: snapshot, first pass, second pass, record-by-record upserts that can be refused |
| `Pointwise.dfy`, `Announce.dfy` | what one call does to one record, and what it announces about it |
| `Lifecycle.dfy`, `RunProperties.dfy` | runs of scans, failed scans and user edits, and the theorems about every run |
| `StatusHistory.dfy` | status, streak and resolution time of a record, told from its history alone |
| `Divergence.dfy` | when the two stores part: for any writes, any scan and any run |
| `Aborts.dfy` | a scan whose reconcile stops half-way, and what is then never announced |
| `Ulid.dfy` | record identifiers: the two-word shift loop in 64-bit arithmetic |
| `Detectors.dfy`, `CountryHop.dfy` | the password-spray and country-hop loops against order-free definitions |
| `SeveritySort.dfy`, `Notify.dfy`, `Dispatching.dfy` | the in-place severity sort, the batching queue, the dispatcher object and its bridge |
| `DigestWord.dfy` | what a digest says about one finding, and when that is the stored status |
| `Scheduling.dfy` | backoff in wrapping 64-bit arithmetic, the per-target gate, the worker semaphore |
| `Sanitizer.dfy`, `SanitizerLoops.dfy` | the evidence transformation and its loops |
| `Registry.dfy` | target validation, the target handlers, restart |
| `Seqs.dfy` | sequence facts shared by the above |

A run (`Lifecycle.Run`) is a sequence of states related step by step, so every theorem about runs covers
both stores and every order in which a store may list its records. The theorems ask of a run only what
the collector contract promises: a scan's accepted findings are about the scanned target, a scan does not
repeat a fingerprint, and a fingerprint belongs to one target (`Lifecycle.Disciplined`). The last promise
rests on the fingerprint's pre-image: `Fingerprints.TargetsShareText` says exactly which targets can share
one. `Divergence.ScanKeepsStoresEqualIff` asks for none of the three and says exactly what a scan needs.

Time is an integer number of nanoseconds. The clock, the random bytes of an identifier, the answer of a
channel to a send attempt, the outcome of a collection, case mapping, white space and evidence capping are
parameters. The hash of a fingerprint is not computed. A pluggable interface becomes a parameter (the
collector's validator) or a tag (the store's backend).

## Where the code does less than its documentation says

- A user edit of a resolved record revives it without an announcement, so announcements and status part.
  `RunProperties.AnnouncementsAlternate` proves that this is the only way they can. The streak stays at the
  threshold, so for every threshold the next scan either resolves the record a second time in a row or
  sees it and says nothing (`RunProperties.RevivalIsMisreported`).
- The two stores keep different identities when a key ends up written with another one than it started
  from, and only then (`Divergence.StoresEqualIff`). For a scan with fresh ids that means: an accepted
  fingerprint is stored under another target, or one that is new is accepted twice
  (`Divergence.ScanKeepsStoresEqualIff`). The manual-review findings of `tenant/checks.go` are fingerprinted
  by their text, so two equal notes are such a repeat. Each accepted report of a new or resolved finding is
  announced separately (`Divergence.AnnouncedPerReport`).
- A scan whose reconcile stops at a store error keeps what it stored and announces nothing. A new or
  reopened finding among that is open, and its opening is never announced afterwards, however the run goes
  on (`Aborts.AbortedSightingIsNeverAnnounced`).
- The comment in `store/targets.go` promises that a restart restores targets exactly. It always restores the
  same tenants. It restores the registry exactly at every point of its history if and only if no accepted
  add ever names a present target by another raw input (`Registry.ExactlyRestoredIff`), and such a respelling
  is undone by the next restart (`Registry.RestartUndoesRespelling`). For tenants, another raw input is one with
  the same letters in other case (`Registry.TenantRespellsIff`); outer white space is trimmed before saving.
- A retry configuration whose cap lies above the last safely doubled delay overflows to a negative delay,
  that is, to no backoff (`Scheduling.BackoffIsCappedDoubling`). The defaults are far from it.
- A second sanitising pass changes the result exactly when a typed string slice survives at the third
  level (`Sanitizer.IdempotentUnlessDeepSlice`).
- The gap shown in a country-hop finding depends on how the sort orders simultaneous events, exactly when
  two sign-ins from different countries tie at the instant the first hop completes and the hour before
  holds one from the country of either (`CountryHop.GapDependsOnTies`); whether a user is reported never
  depends on it.
- A password-spray finding names one user as compromised. Which one depends on how the sort orders
  simultaneous events, exactly when another user signed in from that address at the instant of the landing
  (`Detectors.CompromisedUserIsDeterminedIff`); times and counts never depend on it.
- A domain may contain a vertical bar (`Registry.BarIsAccepted`). Two targets can then share a fingerprint:
  exactly those of which one is the other, a bar, and text whose part before the next bar is the id of a
  check that has a discriminator (`Fingerprints.TargetsShareText`; the discriminator may be any text, as it
  comes from the provider). Every target has such a partner (`Registry.EveryTargetCanCollide`).
- A digest does not show in which order opened and resolved events came (`Dispatching.DigestsHideOrder`). It
  fixes the last word on a finding exactly when its window does not hold both kinds for it
  (`DigestWord.ToldUnlessBoth`). The severity filter drops openings and lets every resolution pass, so that
  word can be wrong: a resolved finding that comes back below the filter is told as resolved while it is
  open (`DigestWord.FilteredReopeningMisleads`). The digests are right exactly when nothing was announced about
  the finding, or the last announcement passes the filter, or both kinds are listed
  (`DigestWord.DigestTellsStatus`). An event of an unlisted kind is accepted but sent to nobody
  (`Dispatching.DigestIffListedKind`).

## Model

| member | source | states |
|---|---|---|
| Core.AcceptedFindings | core/finding.go:102-118 | ingest accepts a finding iff five fields are not empty and its severity is one of the five |
| Core.RejectedField | core/finding.go:102-118 | a rejection names the first field that is wrong |
| Stores.Store.ListByTarget | store/memory.go:20-30 | returns exactly the records of one module and target, each once, in some order |
| Stores.Store.Upsert | store/sqlite.go:112-142 | the new table is the backend's upsert; SQLite refuses a new row with a used id and then changes nothing |
| Stores.MemKeyInjective | store/memory.go:18-18 | joining module and fingerprint with a NUL loses nothing while module ids hold none |
| Stores.SqliteKeepsIdentity | store/sqlite.go:125-137 | under any writes whatever, a stored row keeps its id, target, check and first sighting |
| Stores.AppliedOverwrites | store/sqlite.go:125-141 | for distinct keys and kept identities both backends perform the same overwrite, and SQLite refuses iff a new id is reused |
| Reconcile.Engine.Ingest | store/reconcile.go:39-85 | one arrival is rejected, inserted or merged as planned from the snapshot, and announced iff new or reopened |
| Reconcile.Engine.UpsertReported | store/reconcile.go:36-86 | the first pass applies the planned sightings in order and fails iff one of them is refused |
| Reconcile.Engine.AgeOne | store/reconcile.go:89-108 | one listed record is skipped, aged or resolved as planned |
| Reconcile.Engine.AgeAbsent | store/reconcile.go:89-108 | the second pass applies the planned ageings in order and fails iff one of them is refused |
| Reconcile.Engine.Reconcile | store/reconcile.go:23-111 | the table and the report are those of the whole plan for some listing order; the call fails iff an upsert of the plan is refused, and then exactly the upserts before it are in place |
| Reconcile.SnapshotIsPrevious | store/reconcile.go:31-34 | the map built from the listing answers exactly as the table does for this module and target |
| Pointwise.ReconcileIsPointwise | store/reconcile.go:27-110 | on either store and for every listing order one call moves each record of its module by one transition function and leaves all others alone |
| Announce.AnnouncementsArePointwise | notify/bridge.go:12-25 | what a call announces about a record is what that record's transition announces, at most once |
| Announce.AnnouncementsCarryStored | store/reconcile.go:62-84 | every announcement of a call carries the finding exactly as the call stores it |
| Announce.RejectedChangeNothing | store/reconcile.go:39-42 | malformed findings are rejected with their reason and influence neither the upserts nor the announcements of any scan |
| Announce.OrderIsIrrelevant | store/reconcile.go:27-110 | reordering findings or listed records, or changing the store, changes neither the table nor the multisets newly open, resolved and rejected |
| Lifecycle.HandleFindingStatus | web/server.go:255-282 | the edit stores the status its text names and changes nothing else; answers 200, 400 for any other text, or 404 for an unknown finding, and never 500 |
| Lifecycle.ScanOne | sched/scheduler.go:319-335 | a failed collection changes nothing; a successful one is a reconcile step that hands on its announcements iff no upsert of the plan is refused, and otherwise announces nothing and keeps the upserts before the refusal |
| Lifecycle.RunFollowsLives | store/reconcile.go:23-111 | in every run, on either store, each record and its announcements are those that record's own history determines |
| RunProperties.OpenIffSeenRecently | store/reconcile.go:38-108 | a record no user edit went through for is open iff the finding appeared in one of the last N successful scans of its target, resolved otherwise, with streak min(N, scans missed); failed scans never count |
| RunProperties.RecordsRecountTheirHistory | store/reconcile.go:47-85 | a record exists iff ever sighted; its identity is that of the first sighting and its description that of the latest, whatever the user does |
| RunProperties.AnnouncementsAlternate | store/reconcile.go:47-108 | announcements of a fingerprint strictly alternate from opened and end on the stored status throughout a run iff no edit touches the record while it is resolved |
| RunProperties.AnnouncedAsStored | store/reconcile.go:62-104 | whatever a step of a run announces is the finding as the table holds it after the step, an opening with status open and a resolution with status resolved |
| StatusHistory.StreakIsAbsences | store/reconcile.go:71-99 | the stored streak is the number of scans of its target that missed the record since it was last seen, not counting those that met it resolved or suppressed, whatever the user did |
| StatusHistory.StatusMoves | store/reconcile.go:64-105 | a sighting opens a new or resolved record and leaves any other status as it is; a miss resolves once the absences reach the threshold; an accepted edit sets what it says; nothing else changes a status |
| StatusHistory.EditHoldsUntilLapse | web/server.go:264-277 | after an accepted edit to open or acknowledged and no later one, the status is what the edit said until N scans in a row have missed the finding, resolved once they have, and open from the next sighting on |
| StatusHistory.ResolvedAtIsLastResolution | store/reconcile.go:75-104 | the stored resolution time is that of the scan that last resolved the record, and none after a scan reopened it |
| RunProperties.RevivalIsMisreported | web/server.go:276-277 | in every run and for every threshold, a resolved record set to open or acknowledged by hand is resolved and announced a second time in a row by the next scan of its target if that misses the finding, and is back without an announcement if it sees it |
| RunProperties.ResolvedRecordsAreAnnounced | store/reconcile.go:97-105 | whatever the edits, a resolved record has missed as many scans as its threshold and its last announcement is the resolution |
| RunProperties.IdentityIsPermanent | store/reconcile.go:67-82 | once stored a record stays, with its id, module, target, check and first sighting unchanged |
| RunProperties.TimesStayInOrder | store/reconcile.go:53-107 | with a clock that never runs back, first seen, last seen, resolved and now are in order, and resolved records carry their time |
| RunProperties.SuppressedStaysSilent | store/reconcile.go:93-97 | until a user edit goes through a suppressed record stays suppressed and is never announced |
| RunProperties.IdsSortByFirstSighting | store/ulid.go:18-32 | across a run, a record first seen in an earlier millisecond has the smaller id for all random bytes |
| RunProperties.StoresAgree | store/memory.go:32-37 | the same scans and edits leave both stores equal after every step and announce the same multiset of events |
| Divergence.StoresEqualIff | store/sqlite.go:125-141 | writes SQLite accepts leave both stores equal iff the last write of every key has the identity of the stored row, or of the first write when none is stored |
| Divergence.FreshNeverRefused | store/sqlite.go:125-141 | SQLite accepts any writes, repeated keys included, whose new ids are unused and distinct |
| Divergence.ScanKeepsStoresEqualIff | store/reconcile.go:46-85 | a scan with fresh ids is never refused and leaves both stores equal iff no accepted fingerprint is stored under another target and none that is new is accepted twice |
| Divergence.AnnouncedPerReport | store/reconcile.go:46-84 | a new or resolved finding is announced as opened once per accepted report of it, any other never |
| Divergence.SqliteFollowsIff | store/store.go:23-43 | SQLite can go through what the in-memory store goes through iff no scan of the run mints an id twice or one already stored |
| Aborts.AbortIsPointwise | store/reconcile.go:56-106 | wherever a reconcile stops, each record is as before or as the whole scan would have left it |
| Aborts.AbortedSightingIsNeverAnnounced | sched/scheduler.go:326-334 | a new or reopened finding stored before the stop is open, and in every continuation nothing is announced about it until it is resolved |
| Fingerprints.PreimageInjective | core/finding.go:135-138 | bar-free modules, targets and checks make distinct findings hash distinct text |
| Fingerprints.TargetsShareText | core/finding.go:135-138 | for bar-free modules and checks, two targets have findings with the same hashed text iff the modules are equal and one target is the other, a bar, and text whose first segment is a check that has a discriminator |
| Fingerprints.TenantChecksAreBarFree | tenant/checks.go:60-341 | the check ids of the product's collector hold no bar |
| Ulid.EncodeCrockford | store/ulid.go:35-49 | the two-word shift loop emits exactly the 26 base-32 digits of the 128-bit value |
| Ulid.ShiftAcrossWords | store/ulid.go:43-46 | one turn, with its 64-bit overflow and bitwise or, divides the 128-bit value by 32 |
| Ulid.EncodingPreservesOrder | store/ulid.go:35-49 | encoded strings sort exactly as the sixteen bytes and distinct bytes never collide |
| Ulid.TimestampEval | store/ulid.go:20-27 | the six shifted bytes denote the millisecond count modulo 2^48 |
| Ulid.EarlierSortsFirst | store/ulid.go:18-32 | an id of an earlier millisecond sorts first whatever the random bytes |
| Ulid.IdsCompareByTimeThenEntropy | store/ulid.go:18-32 | two ids are equal iff their 48-bit milliseconds and all ten random bytes are, and sort by milliseconds first and random bytes within |
| Ulid.AlphabetIsCrockford | store/ulid.go:15-15 | the alphabet is the digits and the capitals without I, L, O and U, in increasing order |
| Detectors.SortByTime | tenant/signin.go:313-313 | some time-ordered permutation, so callers hold for every order of ties |
| Detectors.CountBurst | tenant/signin.go:320-328 | the window loop counts the failures and accounts of the hour from its first event |
| Detectors.FirstLanding | tenant/signin.go:333-340 | the earliest success not before the start, if there is one |
| Detectors.SprayFromAddress | tenant/signin.go:312-361 | reports iff some ten failures over five accounts span at most an hour and a success is not before the earliest; the report is the earliest qualifying burst with the first success in some time order |
| Detectors.NeverLanded | tenant/signin.go:341-343 | giving up on the first burst that never landed loses nothing |
| Detectors.SprayReportIsDetermined | tenant/signin.go:344-359 | start, failure count, account count and landing time do not depend on the order of ties |
| Detectors.DescribedIsShown | tenant/signin.go:333-340 | every success at the landing instant is the one named for some order of ties |
| Detectors.CompromisedUserIsDeterminedIff | tenant/signin.go:344-356 | the user named as compromised is the same for every order of ties iff no other user signed in at that instant |
| Detectors.CheckSprayLanded | tenant/signin.go:302-365 | one report per address with a landed spray and no other; events without an address are not judged |
| Detectors.AddressGroup | tenant/signin.go:303-309 | an address's group holds exactly its events, as often as the log does |
| CountryHop.NeighbourSuffices | tenant/signin.go:238-252 | comparing with the previous country-bearing event alone misses no hop |
| CountryHop.HopOfUser | tenant/signin.go:235-252 | reports iff any two events differ in country less than an hour apart; the pair shown is the first hop between neighbours in some time order, and completes no later than any other |
| CountryHop.FlaggedOfUser | tenant/signin.go:255-273 | reports iff an event without a country was flagged, and shows the earliest |
| CountryHop.CheckCountryHop | tenant/signin.go:223-277 | per folded user, over the successful sign-ins of the whole log, both reports iff their order-free conditions hold; the hop and the flagged event shown are those of that user |
| CountryHop.UserGroup | tenant/signin.go:226-232 | a user's group holds exactly their successful sign-ins, case folded, as often as the log does |
| CountryHop.GapDependsOnTies | tenant/signin.go:235-252 | every order of simultaneous events shows the same gap iff there is no tie of two countries at the completion of the first hop with a compatriot of either in the hour before |
| SeveritySort.SwapIntoPlace | notify/notify.go:246-248 | the inner loop extends the descending prefix and does not change the stable sort of the whole |
| SeveritySort.SortBySeverity | notify/notify.go:243-250 | the array becomes its findings rank by rank, each rank in arrival order |
| SeveritySort.StableSort | notify/notify.go:243-250 | that order is a permutation, descending, and stable for every rank |
| Notify.RunsStayBounded | notify/notify.go:117-139 | over every run fewer than MaxBatch events wait, no flush is empty or larger than MaxBatch, no window repeats a key, nothing waits after Close |
| Notify.EventsAreConserved | notify/notify.go:113-157 | every accepted event is in exactly one flushed window or still waiting, in arrival order |
| Notify.OfferedOnce | notify/notify.go:122-127 | an event offered to an open queue has its key in the current window exactly once |
| Notify.ClosedForGood | notify/notify.go:151-157 | after Close no operation changes anything |
| Notify.FlushLeavesNothing | notify/notify.go:144-157 | after any operations, a flush or a close leaves no event waiting and everything accepted is in the windows sent |
| Notify.SentWhen | notify/notify.go:133-157 | a window is sent by a flush or close that finds it not empty or by the offer that makes MaxBatch, by nothing else, and whole |
| Notify.OfferMeaning | notify/notify.go:113-140 | an event is taken iff it passes the filter, the queue is open and its key is not waiting, and then waits at the end or goes out with the full window |
| Notify.AdmitsIff | notify/notify.go:159-164 | the filter drops exactly the openings whose severity is below the configured one |
| Notify.KeysAreInjective | notify/notify.go:122-122 | a key stands for one kind, module and fingerprint while kinds and module ids hold no bar |
| Dispatching.Dispatcher.Enqueue | notify/notify.go:113-140 | filter, dedup, early flush and timer follow the queue machine; the timer is armed iff something waits and `seen` is the waiting keys |
| Dispatching.Dispatcher.FlushLocked | notify/notify.go:168-206 | a window that is not empty becomes one set of digests, and window, keys and timer are cleared |
| Dispatching.Dispatcher.Flush | notify/notify.go:144-148 | sends the digests of a window that is not empty, clears window, keys and timer, and is a flush step of the machine |
| Dispatching.Dispatcher.Close | notify/notify.go:151-157 | the same, and the queue is closed |
| Dispatching.PendingTotal | notify/notify.go:129-132 | the sum over modules is the length of the window |
| Dispatching.BuildDigest | notify/notify.go:179-189 | opened findings in stable severity order, resolved ones in arrival order |
| Dispatching.DigestsConserve | notify/notify.go:168-206 | per module and kind, over every run, what was accepted is what the digests carried plus what still waits |
| Dispatching.DigestsAreOrdered | notify/notify.go:179-189 | in every digest the opened findings are most severe first and otherwise as they came, the resolved ones as they came |
| Dispatching.DigestIffListedKind | notify/notify.go:180-197 | a module gets a digest iff its window holds an opened or resolved event |
| Dispatching.DigestsHideOrder | notify/notify.go:178-190 | windows with the same opened and the same resolved events, each in the same order, give the same digests however interleaved |
| DigestWord.ToldUnlessBoth | notify/notify.go:178-190 | a window's digests fix the last word on a finding iff the window does not hold both an opened and a resolved event about it |
| DigestWord.DigestTellsStatus | notify/bridge.go:12-25 | what a run announces between two states, sent from one window: while edits spare the resolved record, the digests are right about its status iff nothing was announced about it, or its last announcement passes the severity filter, or they list it under both kinds |
| DigestWord.FilteredReopeningMisleads | notify/notify.go:113-116 | a finding that was resolved and came back below the configured severity is listed as resolved only while it is open |
| Dispatching.OnResult | notify/bridge.go:12-25 | every announcement of a reconcile is offered, opened ones first |
| Dispatching.SendWithRetry | notify/notify.go:208-224 | stops at the first successful attempt, and reports failure iff all attempts failed |
| Scheduling.BackoffFor | sched/scheduler.go:339-351 | the loop computes the wrapping capped doubling for every failure count |
| Scheduling.BackoffIsCappedDoubling | sched/scheduler.go:339-351 | the delay is min(base * 2^n, max) for all n iff base < 2^62 and max is at most the last safely doubled delay; otherwise some count gives a negative delay |
| Scheduling.BackoffGrows | sched/scheduler.go:339-351 | more failures never shorten the delay, and it never exceeds the cap |
| Scheduling.ModuleLoop.Complete | sched/scheduler.go:271-287 | the reported attempt is the failures since the last success or cancellation, the delay their capped doubling, and the gate moves with them |
| Scheduling.ModuleLoop.Sweep | sched/scheduler.go:261-269 | launches, in order and once per listed target, exactly those whose gate is not in the future |
| Scheduling.ReadyIff | sched/scheduler.go:261-277 | that is, those that are not failing or whose last failure is at least the delay of their streak ago |
| Scheduling.StreakMeaning | sched/scheduler.go:274-286 | the streak counts a target's failures behind its last success or cancellation |
| Scheduling.GateBounds | sched/scheduler.go:274-287 | for every configuration a target has a gate iff it is on a failing streak, at its last failure plus the delay of that streak; with a safe one that is the capped doubling, between the base and the cap unless the base is above it |
| Scheduling.AtMostWorkersAtOnce | sched/scheduler.go:308-336 | under every interleaving tokens equal the scans between acquire and return, at most the worker count, and a release always finds its token |
| Scheduling.WhoCanMove | sched/scheduler.go:308-313 | in every reachable pool a waiting scan can start iff fewer than the workers hold a slot, and exactly the holders can return |
| Scheduling.AbandonIff | sched/scheduler.go:311-313 | a waiting scan can give up iff the context it was launched under is cancelled |
| Sanitizer.SmallestBounded | internal/aiclient/evidence.go:61-64 | at most 24 keys of a map survive |
| Sanitizer.FixedIffClean | internal/aiclient/evidence.go:75-126 | a value is left unchanged iff it is within every limit and free of marked keys and typed slices |
| Sanitizer.TextKeepsHead | internal/aiclient/evidence.go:138-146 | a text keeps its first 400 runes, with an ellipsis when there were more |
| Sanitizer.ListKeepsHead | internal/aiclient/evidence.go:87-99 | item i of the result comes from item i of the first twelve, one level deeper; at level three a list is omitted |
| Sanitizer.SliceKeepsHead | internal/aiclient/evidence.go:100-109 | a typed slice becomes the list of its first twelve texts at any level |
| Sanitizer.MapKeepsSmallest | internal/aiclient/evidence.go:50-73 | a key survives iff it is unmarked with fewer than 24 unmarked ones before it, and its value is its own, sanitised |
| Sanitizer.MarkedIff | internal/aiclient/evidence.go:128-136 | a key is marked iff its lower-case form has a marker anywhere in it |
| Sanitizer.IdempotentUnlessDeepSlice | internal/aiclient/evidence.go:46-48 | sanitising twice is sanitising once iff no typed string slice survives at depth three |
| Sanitizer.NestedSliceIsDeep | internal/aiclient/evidence.go:100-109 | a typed slice inside two maps is such evidence, under every unmarked key |
| Sanitizer.JsonEvidenceIsBounded | internal/aiclient/evidence.go:33-48 | JSON evidence comes out within 24 keys, 12 items, 401 runes, three levels and 24^3 leaves, without marked keys, and is a fixed point |
| Sanitizer.SecretsAreDropped | internal/aiclient/evidence.go:55-60 | for every value no marked key survives at any level |
| SanitizerLoops.SortStrings | internal/aiclient/evidence.go:61-61 | the same distinct keys in strictly increasing order |
| SanitizerLoops.HeadIsSmallest | internal/aiclient/evidence.go:61-64 | cutting the sorted keys selects exactly those with fewer than 24 harmless keys before them |
| SanitizerLoops.SanitizeMap | internal/aiclient/evidence.go:50-73 | the loops over a map compute the transformation |
| SanitizerLoops.SanitizeValue | internal/aiclient/evidence.go:75-109 | every case computes the transformation |
| SanitizerLoops.SanitizeEvidence | internal/aiclient/evidence.go:46-48 | the result has at most 24 keys and no key with one of the product's markers at any level |
| Registry.SavedRawReplays | tenant/collector.go:55-75 | validating the saved raw input gives the same target again |
| Registry.AcceptedInputs | tenant/collector.go:55-75 | an input is accepted iff, trimmed and in lower case, it is m365 or gws, a colon, and a domain with a dot |
| Registry.ValidatedAs | tenant/collector.go:70-74 | it is kept trimmed, under its trimmed lower-case form |
| Registry.TrimMeaning | tenant/collector.go:56-56 | trimming takes all white space off both ends and nothing else |
| Registry.CanonicalRoundTrip | tenant/checks.go:377-388 | a canonical name is the trimmed input in lower case and splits back into the parts it was built from |
| Registry.TenantTargetsReplay | tenant/collector.go:55-75 | the tenant validator meets what the restart theorems ask of a validator |
| Registry.BarIsAccepted | tenant/collector.go:55-75 | behind any accepted input, a bar and anything not ending in white space is accepted and names the first target with that text behind it in lower case |
| Registry.EveryTargetCanCollide | tenant/collector.go:55-75 | so every accepted target shares text with the accepted target that has a bar and the id of a check with a discriminator behind it |
| Registry.SpellingsOfOneTarget | tenant/collector.go:55-75 | two inputs name one tenant iff they agree up to case and outer white space |
| Registry.CompactInPlace | store/memory.go:89-101 | filtering over the front of the same slice keeps exactly the other targets in order |
| Registry.Server.SaveTarget | store/memory.go:74-87 | appends unless the canonical name is there, so the first raw input stays |
| Registry.Server.HandleAddTarget | web/server.go:302-321 | answers 402 iff the limit is reached, else 400 iff the input is invalid, else 200; then the validated target is scheduled and its row appended unless saved; otherwise nothing changes |
| Registry.Server.HandleRemoveTarget | web/server.go:324-335 | answers 400 iff the name is empty; otherwise the target leaves the scheduler and the saved rows, and nothing else does |
| Registry.Server.RestoreTargets | cmd/tenantwatch/main.go:80-86 | start-up replays every saved raw input into an empty scheduler |
| Registry.RegistryAgrees | sched/scheduler.go:147-175 | after any adds, removals and restarts the scheduler's targets are the persisted ones without duplicates, and a non-zero limit is never exceeded |
| Registry.PresentIffAddedLast | web/server.go:290-335 | after any operations a target is monitored, and is saved, iff the last accepted operation that names it was an add |
| Registry.AddMeaning | web/server.go:302-321 | an accepted add puts the validated target under its name, leaves all others, and appends its row unless saved; any other add changes nothing |
| Registry.RemoveMeaning | store/memory.go:89-101 | an accepted removal takes a present target out of both views and leaves every other entry, and every other row in order; any other removal changes nothing |
| Registry.RestartRestores | store/targets.go:3-16 | after any operations a restart restores the same names, and the same entries iff every target still carries its saved spelling |
| Registry.StepSpells | web/server.go:302-321 | a step keeps every target in its saved spelling iff it is not an accepted add of a present target under another raw input |
| Registry.ExactlyRestoredIff | store/targets.go:3-16 | a restart would restore the registry exactly at every point of a history iff no accepted add ever respells a present target |
| Registry.RestartUndoesRespelling | store/sqlite.go:237-242 | from any registry in its saved spelling, an accepted respelling of a present target changes it and the next restart brings the former back |
| Registry.TenantRespellsIff | tenant/collector.go:55-75 | for tenants an add within the limit respells a present target iff its trimmed lower-case form is that name and its trimmed form is not the entry's raw input |
| Registry.AsciiSpellings | tenant/collector.go:55-75 | such a pair exists: one tenant with its provider in small letters and in capitals |
| Registry.AsciiTargetsCollide | tenant/checks.go:341-341 | in ASCII every target collides with itself, a bar, and the id of the manual-review check |

## Left out

- HTTP clients and providers (`graph/`, `gws/`, `dnsauth/`, `tenantwatch/source.go`): network calls and field mapping.
- `license/`: signature checks and one branch per tier; the target limit is a parameter here.
- The SHA-256 of a fingerprint: taken as collision-free on the pre-images used.
- SQL engine behaviour, evidence JSON round trips and time-zone normalisation: the table is a map, evidence and time are values.
- Store errors other than a refused id, and a failing random source: the engine's other error returns. A stop
  after any number of upserts is covered by `Aborts.dfy`, from any state and with any continuation; it is not a
  step of the runs the other theorems speak of.
- Concurrent reconciles of one target and Go memory-model races: each reconcile, edit and dispatcher call is one step.
- Retention pruning and listings by status: single filters.
- `checkLegacyAuthSuccess`, `checkAdminSingleFactor` and the configuration checks of `tenant/checks.go`: per-key counters and single filters that would only add easy members.
- The text of findings and the final sort of findings by fingerprint: the detectors return what a finding is built from, keyed by address or user.
- The sanitiser's re-marshalling of arbitrary Go types: evidence is already a JSON-like tree, possibly with typed string slices.
- Digest timestamps, send timeouts and delays between attempts: no property depends on them.
- Interval jitter: floating-point randomness without a deeper property.
- `verify/`, the web pages and start-up wiring.
- Detectors.SortByTime: returns a sorted value instead of sorting in place; the slice is local to the check and never shared.
