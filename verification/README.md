# Store node: a verified model

The store node keeps messages for recipients who are offline and serves the logs of public channels.
This project models its logic and proves what it promises.

**The message store** (`internal/storage/pebble`). Per recipient, five key families live in one flat
ordered byte-key database: messages by sequence number, a duplicate index by message id, an expiry
index, the last assigned number, and the delivered and acked frontiers.

- `Mailboxes` says what each operation does to one recipient's mailbox; `MailboxLaws` proves the
  invariant that every operation keeps and the exact outcome of each.
- `Runs` interleaves the operations at the granularity that the locks leave atomic, with a history of
  what was assigned, handed over, acknowledged and collected, and proves properties of every run.
  `Schedules` shows that an acknowledgement and a collection pass, complete or cut short, are such runs,
  and `Scenarios` that the exceptional conditions are met in runs.
- `Decimal`, `Keys` and `FlatStore` prove that the byte-key database represents the mailboxes: key
  families are disjoint, keys are injective and undone by their parsers, scans list exactly what
  they should in the right order, and each single write changes one entry.
- `PebbleStore` holds the operations as they run, loops and batches included, on the flat database,
  each proved to compute its mailbox specification. `Batches` has the lemmas about its loops.
- `Ledger` and `GcWorker` add up operations that run one after the other and prove the drain loop.

**Around the store.** `RateLimit` is the fixed-window limiter, `StoreService` the request handler with
its ordered checks, and `Frames` the length-prefixed frame codec.
`ServiceAnswers` says what the handler answers, counts and stores, in terms of the request alone.

**Public channels** (`internal/publicchannel`). `Channels` says what a push does to the rows of a
channel, `ChannelLaws` what pushes keep, `ChannelSync` what a subscriber makes of the pages of the change log,
`ChannelOffers` what it gets in sessions of any order, `ChannelAnswers` which pushes are accepted, which error
others get and which rows are written, and `ChannelStore` is the store as it runs.

## What turned out to be conditional

Each of these holds exactly under the condition given; where the failing side is not plain from the
condition, an input or a run shows it.

- The padded decimal text in expiry keys does not keep the order of two negative times
  (`Decimal.Pad20Order`, `Keys.ExpKeyOrder`), and the bound of the expiry scan wraps at the largest
  time. The scan returns exactly the due entries if and only if the time is at least -1 and not the
  largest (`Keys.ExpRangeIsExact`).
- Keys are read back exactly for recipient ids without a slash (`Keys.ParseNeedsSlashFree`,
  `Keys.SlashesCollide`).
- Collection keeps the indexes in agreement exactly for messages with a non-empty id
  (`MailboxLaws.CollectNeedsId`); the service refuses empty ids before storing.
- A store keeps the mailbox consistent exactly below the largest number (`MailboxLaws.StoreWraps`).
- A fetch after the largest uint64 wraps and starts over; `MailboxLaws.FetchWraps` says exactly when
  a page stays above its cursor, and `Scenarios.LargestCursorStartsOver` shows one that does not.
- An accepted acknowledgement can leave the acked frontier below the requested number
  (`MailboxLaws.AckFallsShort`, reached in `Scenarios.ShortAckIsReachable`); repeating the same
  request completes it (`MailboxLaws.AckTwice`).
- An acknowledgement that its context cuts short reports deletions of a batch that it then drops. It
  misreports exactly when it is accepted and its context ends inside a batch
  (`MailboxLaws.AckMisreportsIff`, reached in `Scenarios.MisreportIsReachable`), and the reported totals
  of a run add up exactly when no acknowledgement in it does (`Ledger.ReportsAddUpIff`).
- Once the message just above the delivered frontier is gone, no later step moves the frontier
  (`Runs.StuckForever`, reached in `Scenarios.StuckIsReachable`); otherwise some continuation does
  (`Scenarios.FrontierCanMove`).
- The limiter gives a key exactly its limit in a minute unless the key makes more calls than that and
  they come in more than one stretch, which takes a clock that goes back (`RateLimit.RateIsExactIff`,
  `RateLimit.ForwardVisitsOnce`, `RateLimit.BackwardClockExceeds`).
- A payload of 2^32 bytes or more is accepted by the frame writer when its length wraps to a small
  number, and is then not read back (`Frames.RoundTrip`, `Frames.LongPayloadIsCut`,
  `Frames.LongPayloadIsAccepted`).
- `docs/meshchat-public-channel-store-integration.md:124` asks that profile and head name the same
  owner; the code compares the pushed head with the stored owner and stores the profile's.
  Without overlap the owner is kept exactly when the two agree (`ChannelLaws.OwnerIsStable`), and it
  changes otherwise (`ChannelLaws.OwnerFollowsProfile`). Under overlap it is kept exactly when the
  profile names the stored owner (`ChannelLaws.OwnerIsKeptIff`, `ChannelLaws.SecondFounderOwns`).
  `ChannelLaws.HeadRoundTrip` says what that means for a head that is read back.
- An upsert keeps the creation time of the first push, so a profile is read back as pushed exactly
  when that time is unchanged (`ChannelLaws.ProfileRoundTrip`).
- `last_seq` is checked against a row that is read before the transaction, so overlapping pushes can
  take it back (`ChannelLaws.LastSeqCanGoBack`, `ChannelLaws.OverlapMayRegress`) and leave messages
  above it (`ChannelLaws.MessageCanExceedLastSeq`, `ChannelLaws.OverlapBoundIff`).
- An explicit change list can break the agreement between log and messages and the bound of the log
  by `last_seq`; `ChannelLaws.ExplicitPushAgrees` and `ChannelLaws.ChangeBoundIff` give the exact
  conditions and `ChannelLaws.ExplicitChangeCanLie` an input. The bound on messages holds regardless.
- A resumed sync misses a message that is numbered at or below the subscriber's cursor;
  `ChannelSync.PushIsSeenIffAhead` gives the exact condition for every push without explicit changes and
  `ChannelSync.LateMessageIsMissed` an input. `ChannelOffers.SessionCompleteIff` is the exact condition for
  whole sessions.
- The drain loop leaves nothing collectable unless a pass runs out of its context, which takes a
  context that passes fewer than two checks per message of a batch (`GcWorker.RunOnce`).

## Model

| member | source | states |
|---|---|---|
| `Runs.NoLoss` | internal/storage/pebble/fetch.go:51-115 | in every interleaved run, a number that was assigned and is no longer stored was in a fetch result of that recipient and marked, or had expired at a clock reading of one of that recipient's own marks or of an expiry scan |
| `Runs.StepKeeps` | internal/storage/pebble/gc.go:57-110 | every atomic step of every operation keeps the system invariant: index agreement, frontier chain, history agreement, every missing or delivered message accounted for, every scanned reference valid |
| `Runs.RunKeeps` | internal/storage/pebble/ack.go:37-132 | the invariant holds after every legal run |
| `Runs.RunsAreConsistent` | internal/storage/pebble/store.go:88-105 | in every state of every run the msg, dup and exp families correspond one to one, live ids are distinct and non-empty, acked <= delivered <= last, and every live number is above acked and at most last |
| `Runs.FetchedAsStored` | internal/p2p/protocols.go:126-132 | everything ever handed to a recipient is a message stored for that recipient, unchanged |
| `Runs.RunsConserve` | internal/storage/pebble/ack.go:88-90 | in every interleaved run a recipient's last number equals live plus acknowledged plus collected messages |
| `Runs.RunGrows` | internal/storage/pebble/store.go:59-100 | over any continuation no frontier goes back, history is only extended, and no removed number becomes live again |
| `Runs.StaleScanIsSafe` | internal/storage/pebble/gc.go:31-110 | whatever runs between an unlocked scan and the locked deletion of a reference, the deletion removes exactly the scanned, still unchanged message from all three families, or nothing |
| `Runs.StuckForever` | internal/storage/pebble/fetch.go:82-102 | once the message just above the delivered frontier was assigned and removed, no continuation moves the frontier and every ack above it is refused |
| `Scenarios.FrontierCanMove` | internal/storage/pebble/fetch.go:51-115 | the converse: from every state in which the frontier is not stuck and a number is left, some legal continuation moves it, so being stuck is the exact condition |
| `Scenarios.StuckIsReachable` | internal/storage/pebble/gc.go:57-110 | a legal run from the start (store, scan, collect) that leaves the frontier stuck |
| `Scenarios.ShortAckIsReachable` | internal/storage/pebble/ack.go:129-131 | a legal run from the start after which an accepted ack of 2 stops at 1 |
| `Scenarios.OneTooMany` | internal/storage/pebble/ack.go:49-94 | for every mailbox with two due messages and every batch size of at least two, a context that passes two checks makes an ack report one deletion and delete nothing |
| `Scenarios.MisreportIsReachable` | internal/storage/pebble/ack.go:49-94 | a legal run from the start after which an ack misreports in this way |
| `Scenarios.LargestCursorStartsOver` | internal/storage/pebble/fetch.go:20-23 | a fetch after the largest uint64 returns message 1 |
| `Runs.QuotaHolds` | internal/storage/pebble/store.go:75-86 | if every store uses the same limits, message count and stored bytes stay within them in every interleaving |
| `Schedules.AckIsRun` | internal/storage/pebble/ack.go:37-132 | an acknowledgement, complete or cut short by its context at any check, is a legal run of the batches it commits, with the specified mailbox at the end and all other recipients untouched |
| `Schedules.PassIsRun` | internal/storage/pebble/gc.go:10-112 | a whole or interrupted collection pass is a legal run of one scan step and the deletions of its references |
| `MailboxLaws.DistinctIds` | internal/storage/pebble/store.go:33-57 | two live messages of a recipient never share a message id |
| `MailboxLaws.InsertKeeps` | internal/storage/pebble/store.go:88-105 | writing the four keys of a new message keeps the invariant |
| `MailboxLaws.StoreKeeps` | internal/storage/pebble/store.go:22-107 | a store keeps the invariant and no frontier goes back, as long as a number is left |
| `MailboxLaws.StoreWraps` | internal/storage/pebble/store.go:63-68 | an admitted store keeps the invariant if and only if the last number is below the largest uint64 |
| `MailboxLaws.StoreDeduplicates` | internal/storage/pebble/store.go:33-44 | storing a live id returns the original number and expiry and changes nothing, whatever the quota |
| `MailboxLaws.NoStaleDuplicate` | internal/storage/pebble/store.go:45-50 | in a consistent mailbox an id is in the dup index if and only if a live message has it, so the stale branch is unreachable |
| `MailboxLaws.RejectedStoreAssignsNothing` | internal/storage/pebble/store.go:59-106 | a store either assigns the next number to exactly the new message or changes nothing |
| `MailboxLaws.StoredExactly` | internal/storage/pebble/store.go:63-68 | an accepted message gets the next number, is stored as it came with the clock as its receipt time, and expires at now + ttl on int64, which is also what the caller is told |
| `MailboxLaws.StoreReplies` | internal/storage/pebble/store.go:33-86 | duplicate if and only if the id is live; else message quota if the positive message limit is reached; else byte quota if the positive byte limit would be exceeded; else stored |
| `MailboxLaws.StoredIsFetched` | internal/storage/pebble/store.go:66-68 | a fetch at any later time returns a stored message if and only if the time is before now + ttl |
| `MailboxLaws.StoreWithinQuota` | internal/storage/pebble/store.go:75-86 | a store under a quota keeps count and bytes within it |
| `MailboxLaws.TotalBytesRemove` | internal/storage/pebble/store.go:135-140 | the byte total does not depend on the order in which messages are added up |
| `MailboxLaws.NoMessagesNoBytes` | internal/storage/pebble/store.go:135-140 | no messages have no bytes |
| `MailboxLaws.TotalBytesShrinks` | internal/storage/pebble/store.go:125-145 | removing any messages never raises count or bytes |
| `MailboxLaws.AdvanceIsLargest` | internal/storage/pebble/fetch.go:82-102 | every number up to the new frontier is stored and expired or handed over, and the next one is not |
| `MailboxLaws.MarkIsLargest` | internal/storage/pebble/fetch.go:51-115 | the new frontier reaches g if and only if every number in (current, g] is stored and expired or in the items; nothing else changes |
| `MailboxLaws.MarkReaches` | internal/storage/pebble/fetch.go:55-102 | the frontier reaches g if and only if every number in (current, g] is stored and its expiry is at most now or the items contain it; an empty list changes nothing |
| `MailboxLaws.MarkKeeps` | internal/storage/pebble/fetch.go:106-114 | marking keeps the invariant, in particular delivered <= last |
| `MailboxLaws.MarkStuck` | internal/storage/pebble/fetch.go:89-91 | a gap just above the frontier makes marking a no-op |
| `MailboxLaws.RemoveKeeps` | internal/storage/pebble/ack.go:71-87 | deleting messages with their dup and exp entries keeps the families in correspondence |
| `MailboxLaws.AckBatchKeeps` | internal/storage/pebble/ack.go:102-126 | every committed batch keeps the invariant and moves acked to at most ack_seq |
| `MailboxLaws.AckUnderKeeps` | internal/storage/pebble/ack.go:49-54 | an acknowledgement, complete or cut short by its context at any check, leaves a consistent mailbox and no frontier moved back |
| `MailboxLaws.AckUnderCompletes` | internal/storage/pebble/ack.go:12-133 | an acknowledgement that its context does not cut short is the complete one |
| `MailboxLaws.CutAckResult` | internal/storage/pebble/ack.go:49-94 | a cut-short ack keeps exactly its full batches; it reports the number of checks that passed and the last message it reached, committed or not |
| `MailboxLaws.AckIsCutIff` | internal/storage/pebble/ack.go:49-54 | from mailbox, ack_seq, batch size and budget of context checks: an ack is cut short if and only if the budget is zero, or it is accepted and the budget does not cover one check per due message and, unless its last batch is full and ends at ack_seq, one for the first message beyond |
| `MailboxLaws.AckMisreportsIff` | internal/storage/pebble/ack.go:88-94 | an ack never deletes more than it reports, and deletes fewer if and only if it is accepted and its budget ends inside a batch |
| `MailboxLaws.FullBatchesMeansMultiple` | internal/storage/pebble/ack.go:129-131 | the messages fill whole batches if and only if their number is a multiple of the batch size |
| `MailboxLaws.AckLoopOutcome` | internal/storage/pebble/ack.go:35-132 | the batch loop removes exactly the due messages for every batch size, adds their number to the count and ends at the stated frontier |
| `MailboxLaws.AckResult` | internal/storage/pebble/ack.go:35-132 | an accepted ack removes exactly the live messages up to ack_seq from all families, reports their exact number, and leaves acked at the returned value: ack_seq if the deletions fill whole batches, else the largest removed number |
| `MailboxLaws.AckTwice` | internal/storage/pebble/ack.go:23-33 | repeating an accepted ack deletes nothing more and brings acked to ack_seq |
| `MailboxLaws.AckAnswers` | internal/storage/pebble/ack.go:19-33 | an ack at or below the acked frontier is answered with that frontier and zero, one beyond the delivered frontier is refused with the acked frontier, neither changes anything; every ack that its context does not end answers with the frontier it leaves |
| `MailboxLaws.AckFallsShort` | internal/storage/pebble/ack.go:129-131 | an accepted ack leaves acked below ack_seq if and only if message ack_seq is gone and the number of due messages is not a multiple of the batch size |
| `MailboxLaws.AckKeeps` | internal/storage/pebble/ack.go:12-133 | an ack, accepted or refused, keeps the invariant and moves no frontier back |
| `MailboxLaws.CollectKeeps` | internal/storage/pebble/gc.go:62-107 | collecting a reference with the message's own expiry removes exactly that message, and an absent one changes nothing |
| `MailboxLaws.CollectNeedsId` | internal/storage/pebble/gc.go:85-91 | collection keeps the families in correspondence if and only if the message id is non-empty |
| `MailboxLaws.FetchExact` | internal/storage/pebble/fetch.go:19-48 | a page holds the lowest unexpired messages above after_seq in ascending order, at most limit; all others come after it and has_more says whether there is one |
| `MailboxLaws.FetchSees` | internal/storage/pebble/fetch.go:31-44 | a fetch just below a stored message returns it first, as stored, if and only if the clock is before its expiry |
| `MailboxLaws.NoLimitNoMessages` | internal/storage/pebble/fetch.go:16-18 | a limit that is not positive gives an empty page without more |
| `MailboxLaws.FetchWraps` | internal/storage/pebble/fetch.go:20-23 | a page stays above after_seq if and only if after_seq is below the largest uint64 or nothing unexpired is stored |
| `MailboxLaws.PagesListEverything` | internal/storage/pebble/fetch.go:12-49 | following the last number until has_more is false ends, and lists every unexpired message above after_seq once, in order |
| `Decimal.ParseFormat` | internal/storage/pebble/store.go:147-173 | a counter written as decimal text is read back unchanged, for every uint64 |
| `Decimal.Pad20Order` | internal/storage/pebble/keys.go:25-27 | padded text sorts numerically, except that two negative numbers sort the other way round |
| `Decimal.Pad20ParseUint` | internal/storage/pebble/keys.go:55-58 | a padded uint64 parses back |
| `Decimal.Pad20ParseInt` | internal/storage/pebble/keys.go:67-70 | a padded int64, negative or not, parses back |
| `Decimal.Pad20Injective` | internal/storage/pebble/keys.go:13-15 | different numbers have different padded texts |
| `Keys.SplitEncode` | internal/storage/pebble/keys.go:9-35 | splitting any key at slashes gives the family name and the fields it was built from |
| `Keys.FamilyTexts` | internal/storage/pebble/keys.go:9-27 | the names of the key families, and the slash |
| `Keys.StateTexts` | internal/storage/pebble/keys.go:29-35 | the names in the frontier keys |
| `Keys.PaddedTexts` | internal/storage/pebble/keys.go:13-15 | what a padded number looks like |
| `Keys.ParseMsgKeyInverse` | internal/storage/pebble/keys.go:50-60 | parsing a message key returns the recipient and number it was built from |
| `Keys.ParseExpKeyInverse` | internal/storage/pebble/keys.go:62-76 | parsing an expiry key returns the expiry, recipient and number it was built from |
| `Keys.EncodeInjective` | internal/storage/pebble/keys.go:9-35 | two entries of any families share a key only if they are the same entry |
| `Keys.ParseNeedsSlashFree` | internal/storage/pebble/keys.go:50-60 | a message key is read back if and only if the recipient id has no slash |
| `Keys.SlashesCollide` | internal/storage/pebble/keys.go:17-19 | with slashes in recipient ids two recipients can share a duplicate key |
| `Keys.MsgKeyOrder` | internal/storage/pebble/keys.go:13-15 | within a recipient, byte order of message keys is numeric order |
| `Keys.MsgRange` | internal/storage/pebble/keys.go:41-44 | the prefix range of a recipient holds a key if and only if it is one of that recipient's message keys |
| `Keys.MsgRangeFrom` | internal/storage/pebble/fetch.go:20-23 | a range that starts at a message key holds exactly the recipient's messages from that number on |
| `Keys.ExpKeyBelow` | internal/storage/pebble/keys.go:37-39 | for every int64 time, which expiry keys lie below the bound, the wrap of now + 1 and the order of negative times included |
| `Keys.ExpRange` | internal/storage/pebble/gc.go:22-25 | the expiry range holds a key if and only if it is an expiry key below the bound |
| `Keys.ExpRangeIsExact` | internal/storage/pebble/gc.go:22-25 | the range holds exactly the due entries if and only if now is at least -1 and not the largest int64 |
| `Keys.BeyondMeansNoneDue` | internal/storage/pebble/gc.go:40-42 | a range that holds an entry that is not due holds no due one, so stopping there misses nothing |
| `Keys.ExpKeyOrder` | internal/storage/pebble/keys.go:25-27 | expiry keys iterate in expiry order, exactly unless both times are negative |
| `FlatStore.PutAgrees` | internal/storage/pebble/store.go:91-102 | writing one key of the flat database changes one entry of one mailbox and nothing else |
| `FlatStore.EraseAgrees` | internal/storage/pebble/ack.go:71-87 | deleting one key removes one entry of one mailbox and nothing else |
| `FlatStore.PutMsg` | internal/storage/pebble/store.go:91-93 | the message write adds one message to the recipient's table |
| `FlatStore.PutDup` | internal/storage/pebble/store.go:94-96 | the duplicate write maps one id to one number |
| `FlatStore.PutExp` | internal/storage/pebble/store.go:97-99 | the expiry write adds one index entry |
| `FlatStore.PutLast` | internal/storage/pebble/store.go:100-102 | the sequence write sets the last number |
| `FlatStore.PutDelivered` | internal/storage/pebble/fetch.go:109-114 | the frontier write sets delivered |
| `FlatStore.PutAcked` | internal/storage/pebble/ack.go:117-122 | the frontier write sets acked |
| `FlatStore.EraseMsg` | internal/storage/pebble/gc.go:80-84 | deleting a message key removes that message only |
| `FlatStore.EraseDup` | internal/storage/pebble/store.go:109-116 | deleting a duplicate key removes that id only |
| `FlatStore.EraseExp` | internal/storage/pebble/gc.go:97-101 | deleting an expiry key removes that index entry only |
| `FlatStore.MsgValue` | internal/storage/pebble/store.go:175-186 | a live message is found under its key with its own number and content |
| `FlatStore.MsgScan` | internal/storage/pebble/fetch.go:20-31 | a message scan lists the recipient's messages from a number on, in ascending order, and nothing else |
| `FlatStore.ExpScanHolds` | internal/storage/pebble/gc.go:22-39 | every key in an expiry scan is an index entry in the range and parses back to it |
| `FlatStore.DueIsScanned` | internal/storage/pebble/gc.go:22-44 | every due entry is in the expiry scan |
| `FlatStore.IndexedIsScanned` | internal/storage/pebble/gc.go:22-44 | every index entry in the range, due or not, is in the expiry scan |
| `Batches.KeptIsListing` | internal/storage/pebble/fetch.go:31-44 | skipping expired records of a scan leaves exactly the ascending listing of unexpired messages |
| `Batches.PageComplete` | internal/storage/pebble/fetch.go:36-43 | stopping at the first unexpired record beyond a full page gives the specified page and has_more |
| `Batches.NextInScan` | internal/storage/pebble/fetch.go:82-91 | after a contiguous stretch, the next number is stored only if it is the next record of the scan |
| `Batches.StretchGoesOn` | internal/storage/pebble/fetch.go:82-91 | the next record continues the stretch if and only if it has the expected number, the wrap of the counter included |
| `Batches.BatchIsVictims` | internal/storage/pebble/ack.go:49-94 | deleting from the front of a scan until ack_seq is passed or the batch is full deletes the specified batch |
| `Batches.CutBatch` | internal/storage/pebble/ack.go:49-54 | a batch interrupted before some record has passed exactly that many checks and reached the specified message |
| `Batches.RemoveStep` | internal/storage/pebble/ack.go:71-90 | deleting one more message's three keys extends the removed set by that message |
| `Batches.ScanIsFirstDue` | internal/storage/pebble/gc.go:31-52 | the collected references are the first collectable entries in key order, and all of them unless the limit is reached |
| `Batches.DueOfScan` | internal/storage/pebble/gc.go:31-52 | what a scan finds is determined by its keys: nothing if an entry that is not due is in the range, else the entries of its first keys up to the limit |
| `PebbleStore.Store.constructor` | internal/storage/pebble/store.go:147-169 | an empty database represents empty mailboxes |
| `PebbleStore.Store.Counter` | internal/storage/pebble/store.go:147-169 | reading a counter key gives the mailbox's counter, zero if it was never written |
| `PebbleStore.Store.LoadDup` | internal/storage/pebble/store.go:34-40 | the duplicate lookup gives the number recorded for the id, if any |
| `PebbleStore.Store.LoadMessage` | internal/storage/pebble/store.go:175-186 | the lookup gives the stored message, if it is live |
| `PebbleStore.Store.Usage` | internal/storage/pebble/store.go:125-145 | the loop counts the recipient's messages and adds up their stored bytes exactly |
| `PebbleStore.Store.ResolveDuplicate` | internal/storage/pebble/store.go:33-57 | from any dup index, stale entries included, the loop ends within two passes with the live duplicate untouched or the id's entry gone |
| `PebbleStore.Store.CheckQuota` | internal/storage/pebble/store.go:75-86 | admission is decided by the exact count and bytes, message limit first |
| `PebbleStore.Store.StoreMessage` | internal/storage/pebble/store.go:22-107 | on the flat database a store has the specified reply and changes the recipient's mailbox as specified and no other, the wraps of the number and of the expiry time included |
| `PebbleStore.Store.FetchMessages` | internal/storage/pebble/fetch.go:12-49 | the iterator loop returns the specified page |
| `PebbleStore.Store.Frontier` | internal/storage/pebble/fetch.go:73-105 | the iterator loop finds the end of the longest contiguous stretch that may be passed |
| `PebbleStore.Store.MarkDelivered` | internal/storage/pebble/fetch.go:51-115 | marking changes the recipient's mailbox as specified and no other |
| `PebbleStore.Store.DeleteBatch` | internal/storage/pebble/ack.go:37-100 | the inner loop builds a batch that deletes exactly the specified messages from all three families, or is cancelled exactly when its checks run out, having reached the specified message |
| `PebbleStore.Store.AckMessages` | internal/storage/pebble/ack.go:12-133 | the nested loops give the specified outcome and mailbox for every budget of context checks, the returned frontier and count of a cancelled call included |
| `PebbleStore.Store.ScanExpired` | internal/storage/pebble/gc.go:22-55 | for every int64 time the scan returns the first collectable entries over all recipients, unless its context passes fewer checks than one per entry found, or one if it stops at its first entry; it uses exactly that many |
| `PebbleStore.Store.CollectRef` | internal/storage/pebble/gc.go:62-108 | the locked deletion of one reference changes one mailbox as specified |
| `PebbleStore.Store.DeleteExpired` | internal/storage/pebble/gc.go:10-112 | for every int64 time and every budget of context checks: a pass collects the first collectable references one by one, it is cancelled if and only if the budget does not cover the scan and one more check per reference, and the number it reports is exactly what the budget allowed and what it deleted |
| `PebbleStore.InsertAgrees` | internal/storage/pebble/store.go:88-105 | the four writes of a store's batch together insert one message in all families |
| `Ledger.CollectAllExact` | internal/storage/pebble/gc.go:57-110 | collecting any due references removes exactly the messages they name, per recipient, and keeps every mailbox consistent |
| `Ledger.CollectAllCounts` | internal/storage/pebble/gc.go:57-111 | every distinct due reference takes away exactly one live message |
| `Ledger.ShortPassDrains` | internal/gc/worker.go:57-59 | a pass that is not full leaves no stored message that its scan would collect |
| `Ledger.DrainedMeansUnexpired` | internal/gc/worker.go:51-59 | at a time of at least -1 and below the largest int64, that means no stored message has expired |
| `Ledger.AckCounts` | internal/storage/pebble/ack.go:88-94 | what an ack reports, less its dropped batch, is what it deleted |
| `Ledger.PassKeeps` | internal/storage/pebble/gc.go:57-111 | a pass, complete or cut short, removes exactly as many messages as it reports and keeps consistency |
| `Ledger.RunsBalance` | internal/storage/pebble/ack.go:88-90 | every sequential operation, cut short or not, keeps assigned = live + reported ack deletions - dropped ones + reported collections, summed over recipients |
| `Ledger.Conservation` | internal/gc/worker.go:44-66 | over any sequential run, with acks and passes cut short at any point, the assigned numbers summed over recipients equal live messages plus all reported deletions less those of dropped batches |
| `Ledger.ReportsAddUpIff` | internal/storage/pebble/ack.go:49-94 | the reported deletions themselves add up if and only if no ack of the run, in the state in which it runs, has a budget that ends inside a batch |
| `GcWorker.PassRemovesExpired` | internal/storage/pebble/gc.go:36-48 | a pass removes no message that had not expired and leaves the others unchanged |
| `GcWorker.RunOnce` | internal/gc/worker.go:44-66 | the drain loop terminates for every int64 clock and every budget; it is a number of full passes and a last one, it fails if and only if the last pass runs out of its budget, which takes a budget below twice the batch size, and otherwise reports the exact number of deletions and leaves nothing collectable at its last reading, hence nothing expired at a regular one; it never removes a message that had not expired at some pass |
| `GcWorker.FullPassesCount` | internal/gc/worker.go:49-60 | every full pass deletes exactly one batch size of messages |
| `RateLimit.Limiter.Allow` | internal/ratelimit/limiter.go:36-56 | the limiter's new windows and its answer are those of the pure step |
| `RateLimit.RateIsExact` | internal/ratelimit/limiter.go:36-56 | with a positive limit and a clock that does not go back, each key gets exactly min(limit, calls) in every aligned minute |
| `RateLimit.RateIsExactIff` | internal/ratelimit/limiter.go:36-56 | for every clock: a key gets exactly min(limit, calls) in a minute if and only if it makes at most limit calls there or its calls of that minute come in one stretch, and it never gets fewer |
| `RateLimit.NoLimit` | internal/ratelimit/limiter.go:37-39 | without a positive limit every call is allowed and nothing is remembered |
| `RateLimit.WindowIsMinute` | internal/ratelimit/limiter.go:43-44 | the window of a time is its whole multiple of sixty seconds |
| `RateLimit.AllowedByStretch` | internal/ratelimit/limiter.go:45-55 | a call is allowed if and only if its stretch of calls in the same minute has not passed the limit |
| `RateLimit.ForwardVisitsOnce` | internal/ratelimit/limiter.go:43-48 | a clock that does not go back gives every minute one stretch |
| `RateLimit.BackwardClockExceeds` | internal/ratelimit/limiter.go:43-48 | a clock that goes back lets two calls of one minute through a limit of one |
| `RateLimit.KeysAreIndependent` | internal/ratelimit/limiter.go:45-55 | a key's window and decisions depend on its own calls only |
| `StoreService.Service.CheckGates` | internal/service/store_service.go:80-96 | remote limit, signature and sender limit are applied in that order, each only if the one before let the request through and each limiter with its own clock reading |
| `StoreService.AcceptedIff` | internal/service/store_service.go:61-140 | a request is accepted if and only if it is well formed, its time to live is positive and within the maximum, the remote limit allows it, its signature holds, the sender limit allows it, its size is within the maximum, and it is a duplicate or fits the quota |
| `StoreService.Service.StoreAdmitted` | internal/service/store_service.go:98-119 | an admitted message is sized and stored on the flat database as specified; `ServiceAnswers` says what is answered |
| `StoreService.Service.Handle` | internal/service/store_service.go:61-140 | response, both limiters, the mailboxes and all five metrics after a request, for every kind of request and every verifier error |
| `StoreService.SenderSeesGenuine` | internal/service/store_service.go:80-96 | the sender limiter's state is that of the correctly signed requests alone |
| `StoreService.SenderAllowance` | internal/service/store_service.go:86-96 | with a sender clock that does not go back, a sender gets exactly min(limit, genuine attempts) in every minute; requests with a bad signature never use up the claimed sender's allowance |
| `StoreService.SenderAllowanceIff` | internal/service/store_service.go:86-96 | the same for every clock: exact if and only if the genuine attempts of the minute are at most limit or come in one stretch, and never fewer |
| `StoreService.RequestsAreAttempts` | internal/service/store_service.go:61-96 | over any run of requests the limiters are in the state that the attempts of the valid requests put them in |
| `StoreService.RequestAllowanceIff` | internal/service/store_service.go:61-96 | the allowance over runs of requests: the store is reached by exactly min(limit, genuine requests) of a sender in a minute if and only if those are at most limit or come in one stretch, and never by fewer; invalid and badly signed requests take nothing away |
| `StoreService.RefusedKeepsWorld` | internal/service/store_service.go:61-119 | a refused request changes no mailbox, one that is malformed or whose signature does not hold leaves the sender limiter alone, every accepted one was correctly signed, and mailboxes stay consistent while numbers last |
| `ServiceAnswers.GateAnswers` | internal/service/store_service.go:63-96 | the code of every request that does not reach the store: malformed or a time to live that is not positive, too large a time to live, remote limit, the verifier's own code, sender limit, in this order |
| `ServiceAnswers.StoreAnswers` | internal/service/store_service.go:98-119 | the code of every request that reaches it: encoding, size, message quota, byte quota, in this order; it is accepted if and only if it is small enough and its id is live or it fits both quotas |
| `ServiceAnswers.AcceptedAnswer` | internal/service/store_service.go:121-139 | an accepted request is answered as a duplicate if and only if its id was live; its number and expiry are those of the message with that id in the mailbox afterwards, which for a new one is the request's message with the default time to live filled in; no other mailbox changes |
| `ServiceAnswers.LimitersCount` | internal/service/store_service.go:80-96 | the remote limiter counts exactly the valid requests, the sender limiter exactly those that are also within the remote limit and signed |
| `ServiceAnswers.MetricsCount` | internal/service/store_service.go:62-132 | each of the five metrics counts exactly its kind of request |
| `Frames.BigEndianRoundTrip` | internal/p2p/codec.go:18-34 | the header bytes of every uint32 read back |
| `Frames.ReadExact` | internal/p2p/codec.go:13-27 | what is read of every stream, by its bytes: a header is four bytes of which the first weighs 2^24, a length of zero or above max_size is refused, a stream that is too short is refused |
| `Frames.WrittenExact` | internal/p2p/codec.go:29-40 | a payload is refused if and only if it is empty or above max_size, else written as its length in such a header and itself |
| `Frames.ReadFrame` | internal/p2p/codec.go:13-27 | result and remaining stream of a read, for short, empty, oversized and complete frames |
| `Frames.WriteFrame` | internal/p2p/codec.go:29-40 | what is appended to the stream, nothing if the payload is refused |
| `Frames.RoundTrip` | internal/p2p/codec.go:13-40 | an accepted payload is read back from the front of any stream if and only if it is shorter than 2^32 bytes |
| `Frames.LongPayloadIsCut` | internal/p2p/codec.go:29-40 | what is read of every longer accepted payload: nothing, or its first bytes, with the stream out of step |
| `Frames.LongPayloadIsAccepted` | internal/p2p/codec.go:29-34 | a payload of 2^32 + 1 bytes is accepted under a limit of one byte |
| `Frames.StreamRoundTrip` | internal/p2p/codec.go:13-40 | writing any list of accepted payloads and reading repeatedly returns that list and uses up the stream |
| `Frames.ProperPrefixIsRefused` | internal/p2p/codec.go:13-27 | every proper prefix of a frame is refused |
| `ChannelLaws.ApplyMessageKeeps` | internal/publicchannel/store.go:228-281 | an accepted message keeps sequence numbers unique and the log in agreement, and its (version, seq) pair does not go down |
| `ChannelLaws.ApplyProfileKeeps` | internal/publicchannel/store.go:287-300 | a profile row that overwrites a message row leaves its message columns, so the agreement stays |
| `ChannelLaws.PushKeeps` | internal/publicchannel/store.go:166-324 | a push without explicit changes keeps the log in agreement with the messages even when its row was read earlier; a failed push changes nothing |
| `ChannelLaws.PushKeepsTable` | internal/publicchannel/store.go:228-281 | any push, explicit changes included, keeps message numbers unique and no (version, seq) pair goes down; a failed push changes nothing |
| `ChannelLaws.RunKeeps` | internal/publicchannel/store.go:166-324 | the agreement holds and no pair goes down over every run of pushes, overlapping in any way |
| `ChannelLaws.LogAgreesWithTable` | internal/publicchannel/store.go:228-300 | in every such run each stored message has a change row at its own number with its id, version and deleted flag, and its version is the largest that any row gives for its id |
| `ChannelLaws.RunKeepsTable` | internal/publicchannel/schema.go:48-49 | over every run of any pushes no two messages share a number and no (version, seq) pair goes down |
| `ChannelLaws.LastWriteWins` | internal/publicchannel/store.go:302-321 | after an explicit change list, each number has the last row given for it, or its old row |
| `ChannelLaws.ExplicitChangesAgree` | internal/publicchannel/store.go:302-321 | a change list keeps the log in agreement if and only if the last change for every number is truthful |
| `ChannelLaws.ExplicitPushAgrees` | internal/publicchannel/store.go:166-324 | an accepted push with explicit changes keeps the agreement if and only if its last change for every number is truthful about the stored messages with the pushed ones written over them |
| `ChannelLaws.ExplicitChangeCanLie` | internal/publicchannel/store.go:302-321 | an accepted change list that breaks both the agreement and the bound by last_seq |
| `ChannelLaws.PushKeepsBound` | internal/publicchannel/store.go:195-208 | when no push comes between reading the row and the transaction, last_seq does not go down and bounds every message, whatever explicit changes the push carries |
| `ChannelLaws.ChangeBoundIff` | internal/publicchannel/store.go:302-321 | an accepted push keeps every change bounded by last_seq if and only if none of its explicit changes is numbered above its head |
| `ChannelLaws.SequentialRunKeepsBound` | internal/publicchannel/store.go:191-208 | over every run of pushes that do not overlap, last_seq does not go down and bounds every message; it bounds every change too if no explicit change exceeds the head it is pushed with |
| `ChannelLaws.OverlapMayRegress` | internal/publicchannel/store.go:191-210 | under overlap last_seq is kept from going back if and only if the pushed number is not below the stored one, and always when the row read is the stored one |
| `ChannelLaws.OverlapBoundIff` | internal/publicchannel/store.go:191-281 | for every accepted push and any row read earlier, last_seq bounds every message if and only if the pushed number bounds the stored messages that the push does not contain |
| `ChannelLaws.MessageCanExceedLastSeq` | internal/publicchannel/store.go:191-210 | two overlapping pushes leave a message numbered 10 above a last_seq of 5 |
| `ChannelLaws.LastSeqCanGoBack` | internal/publicchannel/store.go:191-210 | two pushes that read the row before either commits take last_seq from 10 to 5 |
| `ChannelLaws.PushedTables` | internal/publicchannel/store.go:77-112 | an accepted push leaves the upserted row, and the old messages with the pushed ones written over them, whatever else it writes |
| `ChannelAnswers.PushAcceptedIff` | internal/publicchannel/store.go:166-324 | a push is accepted if and only if its channel id is valid and the head's, the remote is the owner that the profile names, profile, head and messages are signed, every message is of this channel, by the owner and of owner version one, the head is not stale, of the stored owner and not exceeded, no message goes back or takes a number, and no change is of another channel |
| `ChannelAnswers.PushErrors` | internal/publicchannel/store.go:166-324 | the exact condition of each of the five errors, the first failing check or message deciding |
| `ChannelAnswers.SignedAnswers` | internal/publicchannel/store.go:167-189 | the errors of the checks that need no database |
| `ChannelAnswers.RowAnswers` | internal/publicchannel/store.go:195-208 | the errors of the checks against the row that was read |
| `ChannelAnswers.TransactAnswers` | internal/publicchannel/store.go:210-323 | the errors of the transaction |
| `ChannelAnswers.PushedRows` | internal/publicchannel/store.go:249-300 | every column of every change row that an accepted push without explicit changes writes, and when a profile row is written |
| `ChannelAnswers.ChangeTypes` | internal/publicchannel/store.go:267-292 | the texts of the change types |
| `ChannelLaws.OwnerIsStable` | internal/publicchannel/store.go:199-201 | when no push comes between reading the row and the transaction, an accepted push of an existing channel keeps its owner if and only if profile and head name the same one |
| `ChannelLaws.OwnerIsKeptIff` | internal/publicchannel/store.go:191-216 | whatever row was read, an accepted push keeps the stored owner if and only if its profile names that owner |
| `ChannelLaws.SecondFounderOwns` | internal/publicchannel/store.go:191-216 | two peers that create one channel at once are both accepted, and the second becomes its owner |
| `ChannelLaws.OwnerFollowsProfile` | internal/publicchannel/store.go:173-201 | every correctly signed push of the stored head with another peer's profile is accepted and leaves that peer as the owner |
| `ChannelLaws.HeadRoundTrip` | internal/publicchannel/store.go:387-402 | a pushed head is read back if and only if it agrees with the profile on owner, owner version and profile version |
| `ChannelLaws.ProfileRoundTrip` | internal/publicchannel/store.go:358-384 | a pushed profile is read back if and only if the channel is new or its creation time is unchanged |
| `ChannelSync.PageRows` | internal/publicchannel/store.go:496-556 | a page holds exactly the rows between its two cursors, advances when there is more, and leaves none when there is not |
| `ChannelSync.SyncPageExact` | internal/publicchannel/store.go:496-555 | a page is at most as long as the limit, or as fifty if the limit is not in 1..500; it is full when there is more, and there is more if and only if there are rows above its cursor, which is the number of its last item; current_last_seq is the row's |
| `ChannelSync.SyncPageItems` | internal/publicchannel/store.go:504-537 | its items are the rows above the cursor as stored, in order, none left out |
| `ChannelSync.ResumeFollows` | internal/publicchannel/store.go:541-555 | merging a page keeps the subscriber's view right for the rows up to its cursor |
| `ChannelSync.SyncToEndSees` | internal/publicchannel/store.go:496-556 | fetching the remaining pages ends, and merges every row above the cursor into what the subscriber knew |
| `ChannelSync.PushFollows` | internal/publicchannel/store.go:195-208 | a push whose messages exceed the previous last_seq leaves the view right for the rows up to the cursor |
| `ChannelSync.SessionKeeps` | internal/publicchannel/store.go:166-324 | log agreement, bound and the subscriber's view hold over every interleaving of pages with pushes whose accepted ones append |
| `ChannelSync.SyncToEndCompletes` | internal/publicchannel/store.go:496-556 | fetching pages until none is left ends with the largest version of every id that any row above the start mentions |
| `ChannelSync.CompleteViewIsTable` | internal/publicchannel/store.go:228-300 | a complete view is exactly the version of every stored message |
| `ChannelSync.ResumableSync` | internal/publicchannel/store.go:496-556 | after any such interleaving, a subscriber that resumes from its cursor has the same view as one that starts over, for any page sizes, and from below the first row that view is the message table's versions |
| `ChannelSync.PushIsSeenIffAhead` | internal/publicchannel/store.go:504-507 | after any accepted push without explicit changes, a subscriber that resumes has the version of every stored message if and only if every message that the push adds or raises, seen over the table before it, is numbered above its cursor |
| `ChannelSync.PushNews` | internal/publicchannel/store.go:228-281 | a change row with a version that a push introduces lies at or below the message's own number |
| `ChannelSync.LateMessageIsMissed` | internal/publicchannel/store.go:504-507 | a message numbered 5 is accepted after a subscriber has read up to 10, and fetching all remaining pages does not show it |
| `ChannelOffers.SessionOffers` | internal/publicchannel/store.go:166-324 | over every session of pages and pushes without explicit changes, overlapping and ordered in any way, what the subscriber has and what it can still read is exactly what was offered above its cursor |
| `ChannelOffers.SessionCompleteIff` | internal/publicchannel/store.go:496-556 | after any such session a subscriber that fetches its remaining pages has the version of every stored message if and only if the final version of each was, at some accepted push of it, numbered above the cursor of that time |
| `ChannelStore.Store.Verify` | internal/publicchannel/store.go:167-189 | the error of the first failing check in the source's order, messages one by one |
| `ChannelStore.Store.CheckRow` | internal/publicchannel/store.go:195-208 | stale head, changed owner or message beyond the head, in that order |
| `ChannelStore.Store.InsertMessage` | internal/publicchannel/store.go:229-280 | delete-then-insert under the UNIQUE constraints does what the message specification says |
| `ChannelStore.Store.InsertMessages` | internal/publicchannel/store.go:228-281 | the message loop stops with the first error and otherwise applies every message |
| `ChannelStore.Store.InsertChanges` | internal/publicchannel/store.go:302-321 | the change loop stops at a change of another channel and otherwise writes every row |
| `ChannelStore.Store.Commit` | internal/publicchannel/store.go:210-323 | a transaction on a row read earlier either commits everything or leaves all channels as they were |
| `ChannelStore.Store.Push` | internal/publicchannel/store.go:166-324 | a push that does not overlap another has the specified error and changes its own channel only |
| `ChannelStore.Store.SyncChanges` | internal/publicchannel/store.go:496-556 | the page, has_more and next cursor for every limit, including the default page size |

## Left out

- libp2p hosts, streams, deadlines, identity files and RPC dispatch: I/O; only the fact that a mark follows a fetch with the same items is kept.
- Ed25519, base64, peer-id and UUIDv7 checks: foreign libraries; signature and id checks are arbitrary functions.
- JSON encoding: a stored message is one value and its length an arbitrary function of it; database values that do not decode are outside the representation relation.
- Pebble and SQLite internals: batches and transactions are atomic, iterators read a snapshot in byte order, UNIQUE constraints are enforced; a batch is modelled as the database that committing it leaves.
- Failures of database calls: only the end of the context during an acknowledgement or a collection is modelled, as the number of checks it survives; the single context check at the start of the other operations is not.
- Shard hashing and mutexes: what runs under a recipient's lock is one step. `Runs` lets other steps come between the batches of one acknowledgement, which the lock rules out, so it covers more runs than the program has.
- PebbleStore.Store.StoreMessage: requires a recipient id without a slash, because the keys of other ids are ambiguous (`Keys.ParseNeedsSlashFree`, `Keys.SlashesCollide`); peer ids have none.
- PebbleStore.Store.FetchMessages: requires a recipient id without a slash, because the keys of other ids are ambiguous (`Keys.ParseNeedsSlashFree`, `Keys.SlashesCollide`); peer ids have none.
- PebbleStore.Store.MarkDelivered: requires a recipient id without a slash, because the keys of other ids are ambiguous (`Keys.ParseNeedsSlashFree`, `Keys.SlashesCollide`); peer ids have none.
- PebbleStore.Store.AckMessages: requires a recipient id without a slash, because the keys of other ids are ambiguous (`Keys.ParseNeedsSlashFree`, `Keys.SlashesCollide`); peer ids have none.
- StoreService.Service.Handle: requires a recipient id without a slash, because the keys of other ids are ambiguous (`Keys.ParseNeedsSlashFree`, `Keys.SlashesCollide`); peer ids have none.
- `ListMessages` and `GetMessage` of public channels: a listing by descending message id without a further property.
- ChannelStore.Store.SyncChanges: reads the channel row and the change rows in one state, while internal/publicchannel/store.go:500-507 makes two queries; a push committed between them can make `current_last_seq` older than the items.
- Database ids of channel rows: a channel is found by its channel id, as the foreign keys make it.
- Configuration, logging, address detection and application wiring: no logic of their own.
- Field-by-field request validation: one flag stands for the remaining required fields.
- PebbleStore.Store.DeleteExpired: states a pass without interference; interleaved passes are covered step by step in `Runs`.
- GcWorker.RunOnce: states the drain without interference; a run that fails drops its count, as the source does.
- Ledger.Conservation: is about operations that run one after the other; `Runs.RunsConserve` is the interleaved form for one recipient.
- ChannelSync.PushIsSeenIffAhead: is, like `ChannelOffers.SessionCompleteIff`, about pushes without explicit changes, which may rewrite any row that a subscriber has read or will read.
- ChannelLaws.LogAgreesWithTable: is about pushes without explicit changes; `ChannelLaws.ExplicitPushAgrees` is the exact condition for the others.
