# Verified models of the messaging services

A Dafny 4.11 model of the stateful services of a WhatsApp gateway, with proofs about every run of them:
the hash-chained archive and its purge tombstones, the outbound safety gate, the durable outbound queue,
the read-through cache, and two text algorithms. `dafny verify dfyconfig.toml` checks all of it.

| file | contents |
|---|---|
| `Strings.dfy`, `Numbers.dfy`, `Sequences.dfy`, `Bits.dfy` | delimiters and numerals; bounds and spans of time; selecting, counting and updating rows; numbers bit by bit |
| `JsonText.dfy` | `JSON.stringify`, and a reader of what it prints |
| `JsonValues.dfy` | the meaning of JSON values, and the key-sorting serialisers |
| `JsonTies.dfy` | keys that compare as equal, and exactly when they change a value's text |
| `ArchiveChain.dfy` | what `verify` demands of stored rows, and why accepted rows cannot have been altered |
| `ArchiveReading.dfy` | the parts of hashed texts and stored ranges, and the account they belong to |
| `ArchivePurge.dfy` | capture, purge, range compression, and why every run verifies |
| `ArchiveDerived.dfy` | message, revision, receipt, reaction and similar rows, and what they refer to |
| `ArchivePolicy.dfy` | policy matching, `deepMerge` and its meaning path by path |
| `CaptureRules.dfy` | categories by event name, the rows an event adds, and whether its content is kept |
| `PurgeCriteria.dfy` | what a purge may name, and which events go by it |
| `ArchiveService.dfy` | the archive as a class: `capture`, `confirmPurge`, `verify`; runs of the whole archive |
| `SafetyGate.dfy`, `OutreachQuota.dfy` | the gate as a state machine and as a class over maps; the outreach quota |
| `SafetyWindows.dfy` | the limits of any minute and any day, and the clean-up, in plain terms |
| `SafetyDrift.dfy` | how far the in-flight counter drifts from the sends in progress |
| `Fingerprint.dfy` | the 64-bit similarity fingerprint and the distance between two of them |
| `OutboundQueue.dfy` | admission, schedules, claims and reschedules as functions and as a state machine |
| `QueueAdmission.dfy`, `QueueService.dfy` | the same in plain terms: earliest times, room, who is first in line; the queue as a class |
| `LocalRead.dfy` | argument keys, snapshots against a history of stores, single flight of live calls |
| `SnapshotRules.dfy` | where a time to live comes from, and what counts as an answer |
| `ReplySplitter.dfy` | splitting a chatbot reply into texts and media |
| `Mistakes.dfy`, `MistakeBounds.dfy` | the generator of typing mistakes; its settings in plain terms |

Services whose methods update state are classes whose methods state the whole new state, as a function
of the old one that is also the transition of a state machine. The theorems are about all runs of that
machine. Loops of the source are loops with invariants. What an operation decides (a window, a filter, a
schedule, a precedence) is defined once as the source computes it, and then characterised in terms of the
fields and numbers alone.

## What the proofs found

- The record hash joins its fields with bars, and the event type may contain bars. That is harmless because
  the other fields are free of bars and the payload hash is bounded by its column
  (`VerifiedHeadsCommit`); without the bound two different events hash the same text
  (`OverlongPayloadHashCollides`).
- `canonicalJson` is canonical. The cache's argument key sorts with `localeCompare`, which calls some different
  keys equal. A shared key is still never wrong (`SameKeySameArguments`): only arguments that mean the same have
  it. Arguments miss a key of their own exactly if one of their objects has two different keys that the locale
  calls equal (`ArgumentsKeyIff`), such as a letter with its accent, composed and decomposed (`ComposedKeysMiss`).
- `deepMerge` gives every path the value set last exactly when the shapes of the documents agree
  (`LeafwiseIff`); where they clash a path loses its value (`ClashLoses`).
- A settings template with overrides hides the overrides of the instance even for methods it does not name
  (`OverridesDecide`).
- The in-flight counter can overestimate, after a release between its read and its write, by exactly what
  `OverestimateAfterWrite` says and never by more than `maxConcurrentSends - 1` (`CounterBounds`). The bound is
  reached (`OverestimateIsReached`), and the overestimate never shrinks again (`OverestimateNeverShrinks`), so
  that one send at a time may be all that is left.
- A purge selects its events, deletes by the same filter in a second statement, and does not take the lock that
  captures take. If events are captured between the two, the archive still verifies exactly if none of them
  falls under the criteria (`InterruptedPurgeIff`).
- The retry hint of a full window is the least whole number of seconds, but leaves the oldest row counted
  when the remaining time is a whole number of seconds (`RetryHintIsLeast`).
- A reschedule sets a row PENDING whatever its status, so it revives failed rows (`RescheduleRevives`); the
  limits on active rows hold for runs that do not do that (`ActiveWithinLimits`).
- The conditional update of a claim checks the status only, so that a postponed row can be claimed before
  its time by a worker that selected it earlier (`PostponedRowIsClaimedEarly`).
- Behind a non-empty queue a message is accepted exactly when its wait and the minimum interval both fit the
  horizon; an interval beyond the horizon means that nothing is (`NonEmptyQueueAcceptsIff`).

## Assumptions

- Each database transaction, and each single statement outside one, is one step. Purges follow one another
  and their tombstones have increasing times. Only `capture` takes the advisory lock of the account; captures
  between the two statements of a purge are the subject of `InterruptedPurgeIff` and otherwise excluded.
- Digests and signatures are functions that do not collide and whose values hold no bar; dates print
  injectively and without a bar. A JSONB column may reorder object keys and keeps the meaning. Tamper evidence
  uses the first; that every run verifies uses only the second.
- Payload hashes have 64 characters, job ids 36 and criteria hashes 64, none of them a bar, as the service
  computes them. A locale's comparison is total and transitive; it may call different strings equal.
- New identifiers are fresh. Instance ids and the names of the cached methods contain no colon.
- The safety gate has one policy per run and one clock that does not go back. All other refusals (failure
  pause, minimum interval, duplicates, suppression, quiet hours) and exceptions are the move `Abandon`, which
  may happen at any point. BLOCKED rows are never counted and are left out.
- Sends of texts succeed; sends of media may fail. Matches of patterns, the letter case of a locale, the
  order of a locale and the draws of the random source are inputs.

## Model

| member | source | states |
|---|---|---|
| `JsonValues.CanonicalJsonIff` | src/api/services/archive.service.ts:98-107 | two values have the same canonical text if and only if they mean the same, whatever their key order |
| `JsonText.PrintReads` | src/api/services/archive.service.ts:98-107 | a reader by the grammar of RFC 8259, with the escapes of its section 7, recovers every value from its printed text, and the text that follows it |
| `JsonValues.CanonicalReads` | src/api/services/archive.service.ts:98-107 | the canonical text reads back as a value with the same meaning whose keys ascend by character code at every depth |
| `JsonText.PrintDecodes` | src/api/services/archive.service.ts:98-107 | printed JSON is uniquely readable: equal texts, with any continuation after a value, come from equal values and equal continuations |
| `JsonValues.NormalizeMeans` | src/api/services/local-read.service.ts:58-68 | sorting keys at every depth changes no meaning, for any comparator at all |
| `JsonValues.NormalizeSorts` | src/api/services/local-read.service.ts:58-68 | every object of the result is sorted, for any total and transitive comparator, ties or not |
| `JsonValues.NormalUnique` | src/api/services/local-read.service.ts:58-68 | of values whose own keys have no ties, sorted values with one meaning are equal |
| `JsonValues.SameTextSameMeaning` | src/api/services/local-read.service.ts:58-74 | values with the same key-sorted text mean the same, for any comparator at all |
| `JsonTies.SortIsStable` | src/api/services/local-read.service.ts:62-64 | keys that the comparator allows to stay in order do stay in it |
| `JsonTies.CanonicalTextIff` | src/api/services/local-read.service.ts:58-74 | everything that means the same as a value prints the same if and only if no object in it has two different keys that compare as equal |
| `JsonValues.CanonicalExactlyWithoutTies` | src/api/services/local-read.service.ts:58-74 | a key-sorting serialiser is canonical if and only if its comparator never calls two different keys equal |
| `JsonValues.TiedKeysKeepInsertionOrder` | src/api/services/local-read.service.ts:58-74 | for any two keys that compare as equal, two objects with one meaning print differently |
| `ArchiveChain.RecordTextInjective` | src/api/services/archive.service.ts:211-222 | the bar-joined record text determines all its fields even though event types may contain bars |
| `ArchiveChain.OverlongPayloadHashCollides` | src/api/services/archive.service.ts:211-222 | without the bound of the payload hash column, two different events have the same record text |
| `ArchiveChain.TombstoneTextInjective` | src/api/services/archive.service.ts:636-640 | the bar-joined signed text determines the job, the criteria hash, the meaning of the summary and the previous hash |
| `ArchiveChain.WalkSound` | src/api/services/archive.service.ts:757-779 | a walk that reaches n with hash h proves that the segments cover 1..n exactly once and that each names the last hash of its predecessor |
| `ArchiveChain.WalkComplete` | src/api/services/archive.service.ts:757-779 | sorted segments that tile and link are walked to the end |
| `ArchiveChain.ChainCheckIff` | src/api/services/archive.service.ts:757-779 | for arbitrary segments, sorting and walking succeeds if and only if they tile 1..n exactly once and link up to the head |
| `ArchiveChain.TombstoneHeadCommits` | src/api/services/archive.service.ts:678-723 | two signed tombstone lists with the same last hash agree in number and in every signed field |
| `ArchiveChain.SameRecord` | src/api/services/archive.service.ts:732-755 | two accepted events with one record hash at one place agree on every hashed field |
| `ArchiveChain.VerifiedHeadsCommit` | src/api/services/archive.service.ts:660-788 | tamper evidence: two stores that verify with the same checkpoint and tombstone head retain the same events, with every hashed field equal, and the same tombstones |
| `ArchiveChain.DeletionIsNoticed` | src/api/services/archive.service.ts:757-779 | deleting any one retained event without a tombstone makes verification fail |
| `ArchiveReading.OneAccountOnly` | src/api/services/archive.service.ts:678-742 | no rows, of events or of tombstones, verify under two different accounts |
| `ArchiveReading.EventsNameAccount` | src/api/services/archive.service.ts:211-222 | events with right hashes for two accounts are of one account |
| `ArchiveReading.TombstonesNameAccount` | src/api/services/archive.service.ts:636-640 | tombstones with right signatures for two accounts are of one account |
| `ArchiveReading.RecordReads` | src/api/services/archive.service.ts:211-222 | split at its bars, the hashed text is account, sequence number, the parts of the event type, time, payload hash and previous hash, in this order |
| `ArchiveReading.TombstoneReads` | src/api/services/archive.service.ts:636-640 | split at its bars, the signed text is account, job, criteria hash, the parts of the canonical summary and the previous hash |
| `ArchiveReading.RangeIff` | src/api/services/archive.service.ts:697-717 | a stored range is taken as a segment if and only if its four fields hold that segment, with its ends as digits and in order |
| `ArchiveReading.CountReads` | src/api/services/archive.service.ts:719-721 | the count of a summary is the number it holds, and zero if it holds none |
| `ArchivePurge.RangesCover` | src/api/services/archive.service.ts:1120-1137 | the compressed ranges cover each deleted sequence number exactly as often as it was deleted, and total the deleted events |
| `ArchivePurge.RangesMaximal` | src/api/services/archive.service.ts:1120-1137 | no two ranges of one purge touch: they are as few as possible |
| `ArchivePurge.RangesFromLog` | src/api/services/archive.service.ts:1120-1137 | each range carries the hashes that the full log has at its two ends, wherever the holes are |
| `ArchivePurge.RangeReads` | src/api/services/archive.service.ts:697-717 | a stored range reads back as the segment it was written for |
| `ArchivePurge.SummaryReads` | src/api/services/archive.service.ts:623-635 | the checker reads from a summary exactly the ranges and the count that the purge wrote |
| `ArchivePurge.SummaryReports` | src/api/services/archive.service.ts:623-635 | each of the ten counts stands in the summary under its own key |
| `ArchivePurge.NewTombstoneAuthentic` | src/api/services/archive.service.ts:636-651 | a signature made before storage is reproduced from the stored summary, although storage may reorder keys |
| `ArchivePurge.CaptureKeepsInv` | src/api/services/archive.service.ts:200-247 | appending an event, retained or excluded, keeps the archive equal to its log minus its purges |
| `ArchivePurge.PurgeKeepsInv` | src/api/services/archive.service.ts:552-651 | purging any subset of events keeps it so, the tail and everything included |
| `ArchivePurge.InvAccepted` | src/api/services/archive.service.ts:660-788 | completeness: an archive that is its log minus its purges is accepted |
| `ArchivePurge.EveryRunVerifies` | src/api/services/archive.service.ts:200-262 | after any captures and purges of any subsets, in any order, the archive verifies and its checkpoint counts every event ever captured |
| `ArchivePurge.RunIntact` | src/api/services/archive.service.ts:174-658 | operations with hashes and ids of the right shape fill the columns as the schema says, over every run |
| `ArchivePurge.HonestRunIsTamperEvident` | src/api/services/archive.service.ts:660-788 | rows that verify with the heads of a run of such operations hold only events that were captured, unaltered |
| `ArchivePurge.InterruptedPurgeIff` | src/api/services/archive.service.ts:566-618 | a purge between whose select and delete events are captured leaves the archive accepted if and only if none of them is selected |
| `ArchiveDerived.MessageCaptured` | src/api/services/archive.service.ts:829-862 | a message event adds exactly the next revision of its message, which exists afterwards, and no receipt or reaction |
| `ArchiveDerived.ReceiptCaptured` | src/api/services/archive.service.ts:63-73 | a receipt event contains the word for messages and is filed as a receipt all the same |
| `CaptureRules.FiledOnce` | src/api/services/archive.service.ts:63-73 | each event has one category: that of the first of seven words its name contains, in upper or lower case, and otherwise the general one |
| `CaptureRules.RowsFiled` | src/api/services/archive.service.ts:863-931 | a receipt, reaction or call adds one row to its table, and no other event does |
| `CaptureRules.RowsAbout` | src/api/services/archive.service.ts:893-948 | a contact, chat or group with a JID adds one entity row, an incomplete history status one sync gap, and no other event does |
| `CaptureRules.RowsUntouched` | src/api/services/archive.service.ts:829-916 | only message events with a JID and an id touch messages and revisions, and only changes of participants with a JID touch memberships |
| `CaptureRules.RevisionCaptured` | src/api/services/archive.service.ts:829-862 | a message event raises the revision of the message of its chat and id by one, or starts it at 1 if there is none |
| `CaptureRules.MembersCaptured` | src/api/services/archive.service.ts:898-916 | every participant with an identifier becomes one membership row, in order |
| `ArchiveDerived.CaptureKeepsSound` | src/api/services/archive.service.ts:814-948 | a capture keeps: every derived row refers to a retained event, message rows exist exactly while they have revisions, revision numbers are unique and bounded |
| `ArchiveDerived.OrphansExactly` | src/api/services/archive.service.ts:574-593 | a message row is deleted if and only if every one of its revisions is |
| `ArchiveDerived.PurgeKeepsSound` | src/api/services/archive.service.ts:573-618 | a purge keeps the same integrity over the events that remain |
| `ArchiveDerived.RowsPurged` | src/api/services/archive.service.ts:573-618 | a purge takes from every table exactly the rows of the purged events |
| `ArchiveDerived.PurgedIds` | src/api/services/archive.service.ts:573-573 | the retained event ids after a purge are those before it less the purged ones |
| `ArchivePolicy.LeafwiseIff` | src/api/services/archive.service.ts:87-96 | merging gives every path the newer value if set, else the older, if and only if the shapes of the documents agree |
| `ArchivePolicy.ClashLoses` | src/api/services/archive.service.ts:87-96 | for any two clashing documents a concrete path has the wrong value |
| `ArchivePolicy.OverlayAgrees` | src/api/services/archive.service.ts:87-96 | documents that agree pairwise still agree after being merged |
| `ArchivePolicy.FoldLeafwise` | src/api/services/archive.service.ts:808-811 | the fold over any number of agreeing documents gives each path the value set last |
| `ArchivePolicy.ResolveLeafwise` | src/api/services/archive.service.ts:790-812 | the resolved policy has at each path what the winning policy sets, and otherwise the default |
| `ArchivePolicy.MostSpecificLatestWins` | src/api/services/archive.service.ts:790-812 | the most specific scope wins and within a scope the latest `effectiveAt`, for any number of policies and any depth |
| `ArchivePolicy.MostSpecificExclusionHolds` | src/api/services/archive.service.ts:188-194 | if the most specific and latest policy for a category excludes it, no event of the category is kept |
| `ArchivePolicy.ResolvesToInForce` | src/api/services/archive.service.ts:790-812 | the resolved policy has at each path the value of the policy that concerns the target, has the narrowest scope (jid, account, entity, general) and is the latest of these, and otherwise of the default |
| `ArchivePolicy.SomethingIsInForce` | src/api/services/archive.service.ts:790-812 | for any policies, target and path there is such a value |
| `CaptureRules.TargetSays` | src/api/services/archive.service.ts:75-80 | policies are matched against the account, the instance, the JID and the kind of entity of the event |
| `CaptureRules.KeptIff` | src/api/services/archive.service.ts:188-194 | the content is kept if and only if the values in force exclude neither its category nor all events, and list no directions without its own |
| `ArchiveService.ArchiveSafety` | src/api/services/archive.service.ts:174-658 | at every moment of every run the archive verifies and its derived rows are sound |
| `ArchiveService.CaptureConsistent` | src/api/services/archive.service.ts:200-262 | one capture keeps chain and derived rows consistent with the log that now includes it |
| `ArchiveService.PurgeConsistent` | src/api/services/archive.service.ts:552-658 | one purge keeps them consistent with the unchanged log |
| `ArchiveService.DeletedRanges` | src/api/services/archive.service.ts:1120-1137 | the loop that rewrites the last range in place yields the printed maximal runs |
| `ArchiveService.RefusalIff` | src/api/services/archive.service.ts:518-526 | a confirmation is refused as unknown, expired, with a wrong token or as used before exactly for that reason, in this order |
| `ArchiveService.TombstoneReports` | src/api/services/archive.service.ts:623-651 | the tombstone of a purge names its job, criteria hash and predecessor, and counts for each table the rows that the purge has removed |
| `PurgeCriteria.SelectedGo` | src/api/services/archive.service.ts:1099-1106 | of the events stay those at or after the date, of other types, of another group, or without a group of another JID; what meets all that is given goes; a purge of media leaves all |
| `PurgeCriteria.DateAlone` | src/api/services/archive.service.ts:1099-1106 | a date alone deletes exactly the events before it |
| `PurgeCriteria.PermittedIff` | src/api/services/archive.service.ts:1087-1097 | a purge must name a date, a JID or event types; a group by a group address; and no types if it is one of media |
| `ArchiveService.ArchiveService.Capture` | src/api/services/archive.service.ts:174-263 | captures with the decision of the policies for the target of the event; appends one event with the fields of the observation, chained to the head; the new state and the log are the specified ones, and stay valid |
| `ArchiveService.ArchiveService.CaptureEvent` | src/api/services/archive.service.ts:200-262 | the capture transaction, for either policy decision, yields the specified state and keeps the archive valid |
| `ArchiveService.ArchiveService.WriteCapture` | src/api/services/archive.service.ts:200-262 | the statements of the transaction produce the specified rows |
| `ArchiveService.ArchiveService.PreviewPurge` | src/api/services/archive.service.ts:483-516 | stores exactly permitted criteria, counts the events they select, and can be confirmed at once if it lives at all |
| `ArchiveService.ArchiveService.ConfirmPurge` | src/api/services/archive.service.ts:518-658 | completes if and only if the preview is known, in time, unused and confirmed by its token; then the events go that its criteria name and no others, the tombstone tells what was removed, and the new state is the specified one; each refusal changes nothing |
| `ArchiveService.ArchiveService.ApplyPurge` | src/api/services/archive.service.ts:552-658 | the purge transaction yields the specified state, consumes the preview and stays valid |
| `ArchiveService.ArchiveService.WritePurge` | src/api/services/archive.service.ts:552-657 | the statements of the purge produce the specified rows and one more tombstone |
| `ArchiveService.ArchiveService.CollectRanges` | src/api/services/archive.service.ts:696-719 | collects the ranges of a summary, or names the first malformed one |
| `ArchiveService.ArchiveService.CheckRanges` | src/api/services/archive.service.ts:693-721 | succeeds if and only if all ranges are well formed and total the recorded count |
| `ArchiveService.ArchiveService.CheckTombstone` | src/api/services/archive.service.ts:679-721 | succeeds if and only if a tombstone is signed, linked and has good ranges |
| `ArchiveService.ArchiveService.CheckTombstones` | src/api/services/archive.service.ts:670-723 | succeeds if and only if all tombstones are authentic, and otherwise names the first that is not |
| `ArchiveService.ArchiveService.CheckEvents` | src/api/services/archive.service.ts:725-755 | succeeds if and only if every retained event has the hash of its fields, and otherwise names the first that has not |
| `ArchiveService.ArchiveService.CheckChain` | src/api/services/archive.service.ts:757-771 | the loop computes the walk that `ChainCheckIff` is about |
| `ArchiveService.ArchiveService.Verify` | src/api/services/archive.service.ts:660-788 | accepts if and only if the rows are authentic, tile 1..lastSequence once and link up to the checkpoint; a failing verdict names the first fault; every valid archive is accepted |
| `SafetyGate.LockStep` | src/api/services/outbound-safety.service.ts:210-223 | every move keeps the promise chain: whoever is past waiting has only finished calls before it |
| `SafetyGate.MutualExclusion` | src/api/services/outbound-safety.service.ts:204-224 | in every interleaving calls evaluate one at a time, in order of arrival |
| `SafetyGate.LockIsLive` | src/api/services/outbound-safety.service.ts:210-223 | while a call is unfinished, it or an earlier one is evaluating or may enter |
| `SafetyGate.WriteStep` | src/api/services/outbound-safety.service.ts:275-508 | a counter written from a value read before interleaved releases still bounds the sends in progress |
| `SafetyGate.OverestimateAfterWrite` | src/api/services/outbound-safety.service.ts:275-508 | the overestimate a write leaves is the value read before less the sends in progress now |
| `SafetyGate.CounterBounds` | src/api/services/outbound-safety.service.ts:512-543 | over every run: unfinished sends never exceed the counter, the counter never exceeds the limit, and it is below the limit when nothing is in progress |
| `SafetyDrift.OverestimateNeverShrinks` | src/api/services/outbound-safety.service.ts:275-543 | over every run the overestimate of the counter never decreases |
| `SafetyDrift.OverestimateIsReached` | src/api/services/outbound-safety.service.ts:275-543 | for every policy under which anything can be sent a run ends with nothing in progress and the counter one below the limit |
| `SafetyGate.CreateFits` | src/api/services/outbound-safety.service.ts:300-311 | a row created after its counts were taken fits into every window it falls in |
| `SafetyGate.SlidingWindows` | src/api/services/outbound-safety.service.ts:353-426 | over every run, every closed 60 s and 24 h window holds at most the instance and recipient limits of PENDING or SENT rows, deleted rows included |
| `SafetyWindows.AnyMinute` | src/api/services/outbound-safety.service.ts:280-311 | over every run, any 60 seconds hold at most `instancePerMinute` rows, and at most `recipientPerMinute` of one recipient, that have not failed |
| `SafetyWindows.AnyDay` | src/api/services/outbound-safety.service.ts:280-311 | over every run, any 24 hours hold at most `instancePerDay` such rows, and at most `recipientPerDay` of one recipient |
| `SafetyWindows.RefusedAtTheLimit` | src/api/services/outbound-safety.service.ts:353-426 | over every run, a call is refused by one of the four limits only when the minute or the day before its check has reached it |
| `SafetyWindows.CleanupDrops` | src/api/services/outbound-safety.service.ts:575-582 | the clean-up deletes exactly the rows older than the retention period in days |
| `SafetyWindows.CleanupsAreHourly` | src/api/services/outbound-safety.service.ts:575-582 | over every run two clean-ups are at least an hour apart |
| `SafetyWindows.CleanupIsDue` | src/api/services/outbound-safety.service.ts:575-577 | an hour after the last clean-up, and before the first, a call that evaluates may clean up, and at no other time |
| `SafetyGate.CleanupIsNeutral` | src/api/services/outbound-safety.service.ts:575-582 | the hourly deletion changes none of the counts that a check could take at that moment |
| `SafetyGate.StepKeepsInv` | src/api/services/outbound-safety.service.ts:204-224 | every move keeps lock, counter and window invariants together |
| `SafetyGate.RetryHintIsLeast` | src/api/services/outbound-safety.service.ts:545-548 | the hint is the least whole number of seconds after which the oldest row is a window old, and frees a place if and only if the remaining time is zero or not a whole number of seconds |
| `SafetyGate.OutboundSafetyService.Begin` | src/api/services/outbound-safety.service.ts:210-216 | the synchronous start of a call is the move `Arrive`; other instances are untouched |
| `SafetyGate.OutboundSafetyService.Resume` | src/api/services/outbound-safety.service.ts:217-217 | entering is the move `Enter` |
| `SafetyGate.OutboundSafetyService.CleanupAudit` | src/api/services/outbound-safety.service.ts:575-582 | the clean-up runs exactly when an hour has passed, and then is the move `Cleanup` |
| `SafetyGate.OutboundSafetyService.CheckConcurrency` | src/api/services/outbound-safety.service.ts:275-280 | proceeds if and only if the counter is below the limit |
| `SafetyGate.OutboundSafetyService.CheckLimit` | src/api/services/outbound-safety.service.ts:353-426 | proceeds if and only if the stored rows that have not failed, of the last 60 seconds or 24 hours and of the instance or the recipient, are fewer than the limit of the policy |
| `SafetyGate.OutboundSafetyService.CreateRow` | src/api/services/outbound-safety.service.ts:496-507 | creating the PENDING row is the move `Create` |
| `SafetyGate.OutboundSafetyService.WriteCounter` | src/api/services/outbound-safety.service.ts:508-509 | the counter becomes the value read before, plus one |
| `SafetyGate.OutboundSafetyService.Unlock` | src/api/services/outbound-safety.service.ts:220-223 | leaving removes the stored promise exactly if it is still the caller's own |
| `SafetyGate.OutboundSafetyService.RecordOutcome` | src/api/services/outbound-safety.service.ts:512-533 | the audit row becomes SENT or FAILED |
| `SafetyGate.OutboundSafetyService.ReleaseSlot` | src/api/services/outbound-safety.service.ts:539-543 | a release decrements the counter and never below zero |
| `OutreachQuota.DayCount` | src/api/services/outbound-safety.service.ts:463-469 | one timestamp per recipient suffices: the reservations of any recent day are at most the recent recipients |
| `OutreachQuota.ReserveKeeps` | src/api/services/outbound-safety.service.ts:463-490 | a reservation keeps the quota of every closed 24-hour window over the whole history |
| `OutreachQuota.RecentIff` | src/api/services/outbound-safety.service.ts:463-469 | the recipients with a recent timestamp are those with a reservation in the last 24 hours |
| `OutreachQuota.AnyDay` | src/api/services/outbound-safety.service.ts:463-490 | any 24 hours hold at most the quota of reservations |
| `OutreachQuota.Quota.Reserve` | src/api/services/outbound-safety.service.ts:463-491 | in terms of the reservations of the last 24 hours: counted already if the recipient has one, blocked if the quota of recipients is reached, reserved otherwise; any 24 hours stay within the quota |
| `Bits.ClearLowestBit` | src/api/services/outbound-safety.service.ts:141-144 | `d & (d - 1)` has exactly one bit less than d |
| `Fingerprint.SimilarityPercent` | src/api/services/outbound-safety.service.ts:137-146 | the loop counts the differing bits exactly; the result lies in 0..100 and is 100 if and only if the values are equal; malformed input gives 0 |
| `Bits.DistanceCounts` | src/api/services/outbound-safety.service.ts:139-145 | the set bits of the exclusive or are as many as the bits in which the values differ |
| `Fingerprint.DistanceSymmetric` | src/api/services/outbound-safety.service.ts:137-146 | similarity does not depend on the order of its arguments |
| `Bits.DistanceTriangle` | src/api/services/outbound-safety.service.ts:137-146 | the number of differing bits obeys the triangle inequality |
| `Bits.NoDifferenceIff` | src/api/services/outbound-safety.service.ts:137-146 | no bits differ if and only if the values are equal |
| `Bits.StoredFormRoundTrip` | src/api/services/outbound-safety.service.ts:134-134 | the padded hexadecimal form has the right number of digits and parses back to the value |
| `Bits.HexPlaces` | src/api/services/outbound-safety.service.ts:137-139 | digits and letters of either case have the values 0 to 15, sixteenfold with each place to the left |
| `Fingerprint.CollectFeatures` | src/api/services/outbound-safety.service.ts:117-121 | counting equal trigrams first changes no vote |
| `Fingerprint.AddVotes` | src/api/services/outbound-safety.service.ts:124-128 | one feature adds its count to, or subtracts it from, each of the 64 weights in place |
| `Fingerprint.AccumulateWeights` | src/api/services/outbound-safety.service.ts:122-129 | each weight is the sum of all votes on its bit |
| `Fingerprint.PackSigns` | src/api/services/outbound-safety.service.ts:130-133 | packing yields the number whose bits, from the highest, are the signs of the weights |
| `Fingerprint.SignsBit` | src/api/services/outbound-safety.service.ts:130-133 | bit 63 - i of that number is set if and only if weight i is not negative |
| `Fingerprint.MajorityIff` | src/api/services/outbound-safety.service.ts:117-132 | a vote is not lost if and only if at least half of the stretches of three characters have the bit set among the first 64 bits of their digest, read as a number |
| `Bits.BytesBit` | src/api/services/outbound-safety.service.ts:126-126 | bit i from the top of a sequence of bytes is bit i modulo 8 from the top of byte i / 8 |
| `Bits.MaskReadsBit` | src/api/services/outbound-safety.service.ts:126-126 | masking with a power of two reads that bit |
| `Fingerprint.CreateFingerprint` | src/api/services/outbound-safety.service.ts:113-135 | sixteen lower-case digits; bit k of their value is set if and only if at least half of the stretches of three characters of the padded text have bit k set in the first 64 bits of their digests |
| `OutboundQueue.LandsAfterAll` | src/api/services/outbound-message-queue.service.ts:232-248 | an accepted message lands an interval after every active row and within the horizon of a non-empty queue |
| `OutboundQueue.PositionIsActiveCount` | src/api/services/outbound-message-queue.service.ts:260-267 | the position, counted over schedules, is the number of active rows |
| `OutboundQueue.EnqueueFits` | src/api/services/outbound-message-queue.service.ts:161-217 | just after an accepted message, sent and active rows together still fit each of the four limits |
| `OutboundQueue.EnqueueKeepsLimits` | src/api/services/outbound-message-queue.service.ts:161-217 | an accepted message keeps the active rows within the four limits, for every recipient |
| `OutboundQueue.EnqueueKeepsSpacing` | src/api/services/outbound-message-queue.service.ts:232-236 | an accepted message keeps active rows an interval apart |
| `OutboundQueue.NonEmptyQueueAcceptsIff` | src/api/services/outbound-message-queue.service.ts:238-248 | behind other messages a message is accepted if and only if its wait and the interval fit the horizon |
| `QueueAdmission.ScheduledEarliest` | src/api/services/outbound-message-queue.service.ts:232-236 | a message is scheduled for the least time that is a second and as long as asked for from now, and a millisecond and the minimum interval after every row that has not failed |
| `QueueAdmission.TooFarIff` | src/api/services/outbound-message-queue.service.ts:238-248 | it is refused for waiting too long if and only if that least time is beyond the horizon after every such row |
| `QueueAdmission.FullIff` | src/api/services/outbound-message-queue.service.ts:161-230 | a scope is full if and only if what was sent in its window and what waits leave no room under its limit in the policy |
| `QueueAdmission.RefusalExplains` | src/api/services/outbound-message-queue.service.ts:161-230 | a refusal names the first limit without room, with its figures, and the least number of seconds after which the oldest message sent is a window old |
| `OutboundQueue.ClaimInvStep` | src/api/services/outbound-message-queue.service.ts:342-429 | every single statement of every worker keeps the claim invariant |
| `OutboundQueue.ClaimProtocol` | src/api/services/outbound-message-queue.service.ts:342-429 | over every interleaving: PROCESSING exactly when locked, attempts count the successful claims, two claims of a row are separated by a reschedule or a lock over 300 s old, failed rows are claimed only after a reschedule, claimed rows are due unless rescheduled meanwhile |
| `OutboundQueue.PostponedRowIsClaimedEarly` | src/api/services/outbound-message-queue.service.ts:352-361 | the last proviso is needed: for any admitted message a run from the empty queue ends with a worker claiming the row before the time to which another has postponed it |
| `QueueAdmission.LeaseOf300Seconds` | src/api/services/outbound-message-queue.service.ts:342-361 | over every interleaving, between two claims of a row lies its reschedule, or a reset more than 300 seconds after the first claim |
| `QueueAdmission.ResetFrees` | src/api/services/outbound-message-queue.service.ts:344-351 | the reset frees exactly the rows locked for more than 300 seconds |
| `QueueAdmission.FirstClaimed` | src/api/services/outbound-message-queue.service.ts:342-363 | undisturbed, a worker gets an open due row that no other precedes by schedule and time of request; its attempts go up by one, stale locks are freed and every other row stays |
| `QueueAdmission.FitsIff` | src/api/services/outbound-message-queue.service.ts:375-391 | a row can be postponed if and only if its new time is within the horizon of now or of some pending row |
| `OutboundQueue.ActiveWithinLimits` | src/api/services/outbound-message-queue.service.ts:161-217 | over every run whose reschedules leave failed rows alone, active rows never exceed any of the four limits |
| `OutboundQueue.RescheduleRevives` | src/api/services/outbound-message-queue.service.ts:410-419 | an accepted reschedule adds to the active rows exactly the failed rows it touches |
| `OutboundQueue.ActiveSpaced` | src/api/services/outbound-message-queue.service.ts:232-236 | in runs without reschedules all active rows are pairwise at least the interval apart |
| `QueueAdmission.WaitingRowsApart` | src/api/services/outbound-message-queue.service.ts:232-236 | in runs without reschedules, rows that have not failed are a millisecond and the minimum interval apart |
| `QueueAdmission.WaitingWithinLimits` | src/api/services/outbound-message-queue.service.ts:161-217 | over every run whose reschedules leave failed rows alone, rows that have not failed stay within the four limits of the policy |
| `QueueService.OutboundMessageQueueService.CheckCapacity` | src/api/services/outbound-message-queue.service.ts:161-184 | refuses exactly a full scope, with the figures of the refusal |
| `QueueService.OutboundMessageQueueService.CheckScopes` | src/api/services/outbound-message-queue.service.ts:186-230 | refuses with the first full scope, and only then |
| `QueueService.OutboundMessageQueueService.AppendRow` | src/api/services/outbound-message-queue.service.ts:232-281 | appends the row at its schedule and returns its position among the active rows, or refuses exactly when it is too far behind |
| `QueueService.OutboundMessageQueueService.EnqueueText` | src/api/services/outbound-message-queue.service.ts:86-282 | after deleting failed rows past the retention period: accepts with room under every limit at the earliest time within the horizon, as the last of the waiting rows; refuses with the first limit without room; or refuses for waiting too long, with the earliest time and the last row |
| `QueueService.OutboundMessageQueueService.ClaimNext` | src/api/services/outbound-message-queue.service.ts:342-363 | undisturbed, it frees the rows locked for over 300 s, then locks the open row that is due and first in line, and no other; it returns nothing only if none is due |
| `QueueService.OutboundMessageQueueService.RescheduleOrReject` | src/api/services/outbound-message-queue.service.ts:369-429 | postpones the row, by a second at least, if that is within the horizon of now or of a pending row, and otherwise fails it; other rows stay |
| `QueueService.OutboundMessageQueueService.Complete` | src/api/services/outbound-message-queue.service.ts:365-367 | removes the row and no other |
| `LocalRead.UniqueKeyInjective` | src/api/services/local-read.service.ts:145-145 | the joined key of the in-flight map stands for one instance, method and argument key |
| `LocalRead.TiesAreLocal` | src/api/services/local-read.service.ts:61-66 | the keys that tie in the listed order are those that the locale calls equal, apart from array indexes, which never tie |
| `LocalRead.SameKeySameArguments` | src/api/services/local-read.service.ts:70-74 | argument lists with one key mean the same, whatever the locale's comparison |
| `LocalRead.ArgumentsKeyIff` | src/api/services/local-read.service.ts:70-74 | sharing a key with an argument list is the same as meaning the same, if and only if none of its objects has two different keys that tie |
| `LocalRead.ComposedKeysMiss` | src/api/services/local-read.service.ts:62-64 | one argument with a composed and a decomposed key has two cache keys, by insertion order |
| `SnapshotRules.IndexIff` | src/api/services/local-read.service.ts:58-68 | the keys an object lists first are the decimals below 2^32 - 1 |
| `LocalRead.RelevantIsNotEmpty` | src/api/services/local-read.service.ts:88-105 | for every method, data that count as relevant are not null, nor an empty text, array or object |
| `SnapshotRules.RelevantIff` | src/api/services/local-read.service.ts:88-105 | a catalogue is relevant with products, collections with collections, a picture with an address, anything else unless null or empty; a `result` field is judged in place of its object |
| `LocalRead.FreshIff` | src/api/services/local-read.service.ts:170-171 | a snapshot is young enough if and only if it is less than one second past its time to live |
| `SnapshotRules.AgeInSeconds` | src/api/services/local-read.service.ts:170-170 | the age is the whole seconds since the snapshot, and zero before it |
| `SnapshotRules.OverridesDecide` | src/api/services/local-read.service.ts:152-157 | a method's time to live is the template's override, or the instance's if the template has no overrides at all |
| `SnapshotRules.DefaultsDecide` | src/api/services/local-read.service.ts:152-161 | without an override it is that of the template, the instance, the environment for the method, or the environment, in this order |
| `LocalRead.LastStoreMeaning` | src/api/services/local-read.service.ts:199-222 | the last store of a key is a store with no later store of the key and no later invalidation of its method, and exists if and only if there is one |
| `LocalRead.SnapshotsAgree` | src/api/services/local-read.service.ts:181-222 | over every interleaving the snapshot of every key is its last store |
| `LocalRead.FlightStep` | src/api/services/local-read.service.ts:177-196 | every move keeps the in-flight map equal to the calls of the open originators |
| `LocalRead.SingleFlight` | src/api/services/local-read.service.ts:177-196 | at every point of every interleaving one open live call per key, each clean-up removes only its own entry, and every reader returns the outcome of the call it joined |
| `LocalRead.LocalReadService.TryLocal` | src/api/services/local-read.service.ts:163-175 | answers locally if and only if allowed and the last store is relevant and fresh, and then with exactly that value and age |
| `LocalRead.LocalReadService.GoLive` | src/api/services/local-read.service.ts:177-179 | joins the open call of the same key if and only if there is one, and registers a new one otherwise |
| `LocalRead.LocalReadService.StoreResult` | src/api/services/local-read.service.ts:183-191 | the upsert after a live call is the move `Upsert` |
| `LocalRead.LocalReadService.CleanUp` | src/api/services/local-read.service.ts:194-196 | after the clean-up every other open originator still has its entry |
| `LocalRead.LocalReadService.Store` | src/api/services/local-read.service.ts:213-222 | an explicit store becomes the last store of its key |
| `LocalRead.LocalReadService.InvalidateMethods` | src/api/services/local-read.service.ts:199-203 | an invalidation removes exactly the snapshots of the named methods of the instance |
| `ReplySplitter.TrimKeepsInk` | src/api/integrations/chatbot/base-chatbot.service.ts:205-206 | trimming drops white space only, and leaves nothing if and only if there was nothing else |
| `ReplySplitter.SplitIsExact` | src/api/integrations/chatbot/base-chatbot.service.ts:263-265 | the parts join back to the text, hold no double line break and are cut at the first possible place |
| `ReplySplitter.SplitCuts` | src/api/integrations/chatbot/base-chatbot.service.ts:263-265 | splitting cuts at the first two line feeds in a row and goes on behind them |
| `ReplySplitter.SplitWhole` | src/api/integrations/chatbot/base-chatbot.service.ts:263-265 | a text without two line feeds in a row stays whole |
| `ReplySplitter.SplitMessageByDoubleLineBreaks` | src/api/integrations/chatbot/base-chatbot.service.ts:263-265 | dropping blank parts loses white space only |
| `ReplySplitter.SendFormattedText` | src/api/integrations/chatbot/base-chatbot.service.ts:312-337 | sends all of a text, whole or by paragraph |
| `ReplySplitter.MediaByExtension` | src/api/integrations/chatbot/base-chatbot.service.ts:60-72 | the kind of media goes by what follows the last dot of the address, in lower case |
| `ReplySplitter.SendMedia` | src/api/integrations/chatbot/base-chatbot.service.ts:203-237 | a media item goes out after the text before it; a failed one leaves caption and address |
| `ReplySplitter.HandleLink` | src/api/integrations/chatbot/base-chatbot.service.ts:196-241 | every link is sent as media or kept in the text, and nothing else changes |
| `ReplySplitter.SendMatches` | src/api/integrations/chatbot/base-chatbot.service.ts:187-244 | after the loop, what is shown and what is held together are the message up to the end of the last match |
| `ReplySplitter.SendRest` | src/api/integrations/chatbot/base-chatbot.service.ts:246-257 | everything still held and the text after the last match go out |
| `ReplySplitter.SendMessageWhatsApp` | src/api/integrations/chatbot/base-chatbot.service.ts:178-258 | conservation: to whoever ignores the 25 code points of white space, and only those, the texts and delivered media in the order sent read as the message, with `alt: url` for each failed item; each media link is attempted once and in order; unsplit, no text begins or ends with white space, and split, none has a blank line |
| `ReplySplitter.ReplyWithoutFailures` | src/api/integrations/chatbot/base-chatbot.service.ts:187-257 | if no media item fails, what must be shown is the message itself |
| `Mistakes.BuildAdjacency` | src/api/services/mistakes-generator.service.ts:21-28 | the table holds for each letter exactly its neighbours in all rows, each once |
| `Mistakes.NotItsOwnNeighbor` | src/api/services/mistakes-generator.service.ts:5-28 | no letter is its own neighbour if no row repeats a letter in place |
| `Mistakes.KeyboardHasNoDoubles` | src/api/services/mistakes-generator.service.ts:5-19 | no row of the keyboard has two equal letters side by side |
| `MistakeBounds.LatinIsCovered` | src/api/services/mistakes-generator.service.ts:5-9 | every Latin letter and every digit has a neighbour |
| `Mistakes.ProtectedIndexes` | src/api/services/mistakes-generator.service.ts:35-42 | the set holds exactly the offsets that some match covers |
| `Mistakes.MistakesDiffer` | src/api/services/mistakes-generator.service.ts:72-76 | a replacement is always a different letter, also apart from its case |
| `Mistakes.LetterCountBounds` | src/api/services/mistakes-generator.service.ts:64-66 | the number of mistakes lies within the configured bounds as far as there are letters, for every draw |
| `MistakeBounds.ActsIff` | src/api/services/mistakes-generator.service.ts:49-49 | the generator acts if and only if it is enabled and the draw is below its probability in per cent |
| `MistakeBounds.CountsIff` | src/api/services/mistakes-generator.service.ts:64-66 | a number of letters can be drawn if and only if it is at least `minLetters` or all there are, and at most `maxLetters` unless that is below what must change |
| `MistakeBounds.OffsetCounts` | src/api/services/mistakes-generator.service.ts:53-61 | a character begins at as many units as there are characters before it, those beyond the basic plane counted twice |
| `MistakeBounds.EligibleIff` | src/api/services/mistakes-generator.service.ts:51-61 | text may change exactly where a letter with a neighbour stands whose unit lies in no protected stretch |
| `MistakeBounds.MistypesIff` | src/api/services/mistakes-generator.service.ts:58-76 | what may stand there is a neighbour, in upper case if the letter is not in lower case |
| `Mistakes.FindEligible` | src/api/services/mistakes-generator.service.ts:51-61 | the candidates are exactly the unprotected keyboard letters |
| `Mistakes.PickReplacements` | src/api/services/mistakes-generator.service.ts:69-77 | the loop that splices the pool enters exactly the sample that the draws choose |
| `Mistakes.SamplesAreAllowed` | src/api/services/mistakes-generator.service.ts:71-77 | no sample picks a candidate twice |
| `Mistakes.PoolFits` | src/api/services/mistakes-generator.service.ts:51-61 | the pool stands for exactly the eligible positions, each once and in order |
| `Mistakes.EverySampleIsPossible` | src/api/services/mistakes-generator.service.ts:71-77 | every sequence of different candidates with any of their neighbours is a sample of some choices |
| `Mistakes.DrawsMake` | src/api/services/mistakes-generator.service.ts:71-75 | for any choices there are draws in [0,1) from which the generator makes exactly these choices |
| `Mistakes.DrawHits` | src/api/services/mistakes-generator.service.ts:72-74 | every choice has a draw in [0,1) that makes it |
| `Mistakes.SampleReplaces` | src/api/services/mistakes-generator.service.ts:69-77 | a sample of n choices replaces letters at n different eligible positions |
| `Mistakes.Rebuild` | src/api/services/mistakes-generator.service.ts:79-85 | the result has a mistake at each picked position and the original character everywhere else |
| `Mistakes.EveryChoiceCanHappen` | src/api/services/mistakes-generator.service.ts:44-86 | for every text, every number of letters the settings allow, every set of that many eligible positions and any neighbour for each, some draws make the generator return the text with exactly these mistakes |
| `Mistakes.GenerateOn` | src/api/services/mistakes-generator.service.ts:44-86 | the property of `GenerateNaturalMistakes` on every keyboard without double letters |
| `Mistakes.GenerateNaturalMistakes` | src/api/services/mistakes-generator.service.ts:44-86 | unless skipped, exactly the drawn number of eligible characters change, each to a same-case neighbour; everything else, protected text included, stays in place |

## Left out

- PostgreSQL, Prisma, Redis, S3, encryption, HTTP, event transports and logging: tables are sequences and maps, and the deletion of stored objects is an input of `ConfirmPurge`.
- Archive media rows, identity mappings and `firstEventId`: a purge selects media by other criteria and does not tie the other two to retained events.
- Extraction of dates, JIDs, participants and payload hashes from raw payloads: they are the fields of an observation.
- Policy documents are objects without the key `__proto__`.
- Upper-casing of event names is ASCII; snapshots, listings, status endpoints and policy administration are not modelled; the media count of a purge preview is left out.
- Rows of the history tables carry their event and one JID or id; their other columns are left out.
- The statements of `captureDerived` and the loop over orphaned messages are functions over the tables, not statements over rows.
- `confirmPurge` selects and deletes its events in one step; only `InterruptedPurgeIff` separates the two, and it leaves the derived rows aside.
- In a summary, an event count that is an array or a string other than plain digits reads as 0, a number written with an exponent or fraction throws, and counts are exact beyond 2^53.
- Segments that start at the same sequence number keep their order in the model's sort; no order of them is accepted.
- Strings are sequences of Unicode characters: unpaired surrogates, and sorting by UTF-16 units rather than characters, are not modelled.
- The choice of a settings template in the cache, by id or by target: its overrides and default arrive resolved.
- A read of the cache with the feature off or an unsupported method is the case `enabled == false`, in which nothing is stored or coalesced.
- Each enqueue and each reschedule is one step, although the source runs several statements; claims are modelled statement by statement.
- Payloads, templates and error texts of queue rows, and the listing of the queue.
- The exact equality of the in-flight counter with the sends in progress, a bound for a message put on an empty queue, and spacing after a reschedule: the code does not provide them.
- Text normalisation before fingerprinting, typing delays, quiet hours, suppression lists and duplicate detection.
- The pattern that finds links and the one that finds protected text: their matches are inputs, in order and without overlap.
- Presence updates and delays around sent texts, file names of documents, and a text send that fails.
- Floating-point rounding of random draws: draws are reals in [0,1).
- `applyMistakesToMessage`, which applies the generator to the fields of a message.
