# ntfy: a verified model of the server core

A Dafny model of the parts of ntfy that carry its guarantees: the action-button parser, the access
control list with topic reservations and tiers, the life of a message in the cache, resumable polling,
the batching queue, limiters, the attachment cache, the peeking reader, size and duration texts, and
the line iterator of the web client. `dafny verify dfyconfig.toml` checks all of it.

| file | what it holds |
|---|---|
| `Text.dfy` | string replacement, backslash escapes, flattening, byte order |
| `ActionSyntax.dfy`, `ActionParser.dfy` | the grammar of actions as functions, the parser as a class whose position advances |
| `ActionSections.dfy`, `ActionRoundTrip.dfy` | single sections in any layout; a printer of action lists and its round trip |
| `Wildcards.dfy`, `Authorization.dfy` | patterns, LIKE and globs; the decision of Authorize |
| `AccessControl.dfy`, `Manager.dfy`, `Server.dfy` | the user database as a value with one function per operation; the same operations on tables updated in place; the account handlers |
| `Ownership.dfy`, `Quota.dfy`, `Reservations.dfy`, `Accounts.dfy` | runs of operations, single ownership, quotas, trimming and releasing, accounts and tiers |
| `ReservationAccess.dfy`, `ReservationGuard.dfy`, `Grants.dfy`, `Scenarios.dfy` | what reservations and grants mean for access, how far the guard sees, the list of grants, runs at which a promise fails |
| `MessageTable.dfy`, `MessageCache.dfy`, `Delivery.dfy`, `Retention.dfy` | the messages table, the cache and server loops in place, interleaved delivery, how long messages stay |
| `Cursor.dfy`, `ScheduledPolls.dfy` | polling by id, without and with scheduled messages |
| `BatchingQueue.dfy`, `Limits.dfy`, `FileCache.dfy`, `Peek.dfy` | queues, limits, disk accounting, streams |
| `Units.dfy`, `DurationTerms.dfy`, `Lines.dfy` | sizes and durations as text, durations of several terms, lines out of chunks |

How the source is read:

- Each SQL statement is one atomic table update that succeeds; a subselect without result is NULL. SQL
  leaves the order of ties open, so `Authorize` takes the scan order of the table as a parameter.
- LIKE folds ASCII case, as SQLite does, so patterns are compared up to ASCII case.
- Clock readings, whether a rate limiter has tokens, whether a user lookup succeeds, short reads and
  growth of a slice are parameters or free choices.
- A message is handed over when topic delivery is asked to take it; a due message of a topic without
  subscribers counts as handed over, since the source marks it published in the same step.
- The limiters given to one writer are distinct objects.
- A tier's reservation limit is a natural number; tier code and tier id name the same tier.
- Parser positions count runes, not bytes.

Where the code does not do what its comments promise, the model follows the code and states exactly
when the promise holds; runs at which it fails are spelled out:

- The comment on `AllowReservation` promises an error for any entry not owned by the user. The query
  matches patterns against the escaped topic, so this holds exactly for topics without underscore
  (`ReservationGuard.GuardExact`). For other topics the owner may write exactly if no longer entry of
  the owner denies it (`ReservationAccess.OwnerWriteAccess`), which can fail for every topic with an
  underscore that leaves room for a star (`Scenarios.OwnerLockedOut`).
- LIKE ignores case, but ownership is by exact name: a reservation of the same name in other case can
  open a topic for writing (`ReservationAccess.OthersWriteAccess`, `Scenarios.VariantOpensTopic`) and
  change who may read it (`ReservationAccess.OthersReadAccess`).
- Among rows that tie for the first place, the read bit is whatever row comes first
  (`Authorization.ReadVerdictOrderFree`).
- Quotas hold over every run of safe steps; making an administrator with reservations a regular user
  and lowering the limit of a tier can break them (`Quota.SafeIsExact`, `Scenarios.DemotionBreaksQuota`).
- A delayed message that reaches the table at or after its time is stored as published and never sent
  (`Delivery.DelayedMessageFate`, `Delivery.LateStoreNeverSent`); the batching queue makes this possible.
- Polling by id misses a scheduled message that is sent when the subscriber's cursor is a message with
  a higher row id (`ScheduledPolls.DelayedMissedExactly`, `ScheduledPolls.DelayedMissed`), and repeats
  a message whose time lies before an earlier message of its topic (`Cursor.TimeOrderIsNeeded`).
- A quoted value that ends in a backslash, or contains NUL, does not survive the action parser
  (`ActionSections.QuotedValueExact`).
- `FormatSize` promises a text that `ParseSize` reads; that holds below one tebibyte only, and from one
  pebibyte on there is no text (`Units.SizeRoundTrip`).
- A count of days, hours, minutes or seconds whose product does not fit 63 bits is not rejected: it
  fails in `time.ParseDuration` and wraps in the fallback (`Units.WordDurations`).

## Model

| member | source | states |
|---|---|---|
| ActionSyntax.ParseKey | server/actions.go:220-227 | the key match ends inside the input, and a key is found exactly if the position moves |
| ActionSyntax.ParseValue | server/actions.go:232-244 | the position stays inside the input, and a value that is not the last consumes at least its comma |
| ActionSyntax.ParseQuotedValue | server/actions.go:248-275 | on success the position has moved and stays inside the input |
| ActionSyntax.ParseSection | server/actions.go:202-216 | a section that is not last, or that starts before the end, consumes at least one rune; the position never passes the end |
| ActionSyntax.ParseAction | server/actions.go:132-149 | an action started before the end consumes at least one rune and never passes the end |
| ActionParser.ActionRecord.Populate | server/actions.go:153-198 | the action filled in place is the action of the functional grammar; a rejected pair leaves it alone |
| ActionParser.Parser.SlurpSpaces | server/actions.go:278-286 | the loop passes over spaces only and ends at the first rune that is no space |
| ActionParser.Parser.ParseValue | server/actions.go:232-244 | the loop computes the value, end and position of the grammar, and ends |
| ActionParser.Parser.ParseQuotedValue | server/actions.go:248-275 | the loop computes value, end, position and error of the grammar, and ends |
| ActionParser.Parser.ParseSection | server/actions.go:202-216 | the section read in place is the section of the grammar |
| ActionParser.Parser.ParseAction | server/actions.go:132-149 | the loop over sections ends and gives the action, position or first error of the grammar |
| ActionParser.Parser.Parse | server/actions.go:117-127 | the outer loop ends; success gives all actions and the end of the input, failure the first error |
| ActionSyntax.SkipSpacesExact | server/actions.go:278-286 | skipping spaces passes over spaces only and stops at the first rune that is none |
| ActionSections.QuotedValueExact | server/actions.go:248-275 | in either kind of quotes and followed by any spaces, a value is read back if and only if it has no NUL and no trailing backslash |
| ActionSections.QuotedValueParses | server/actions.go:248-275 | after a quoted value and spaces, any rune but the end of the section is an error at its position |
| ActionSections.UnclosedValue | server/actions.go:256-258 | a value that is never closed is an error that names where its quote started |
| ActionSections.PairParses | server/actions.go:202-227 | a printed pair is read back as that key and value, in either kind of quotes and with any spaces before the key, around the equals sign and after the value |
| ActionRoundTrip.PrintedListParses | server/actions.go:117-149 | parsing any printed list of section lists, with any quotes and spaces, equals applying the sections in order, including the first rejection |
| ActionRoundTrip.ParseIsMeaning | server/actions.go:117-149 | for every text: the parser returns what the sections mean, in order, or their first rejection, and a text with a malformed section is not accepted |
| ActionRoundTrip.RejectedPairs | server/actions.go:168-197 | a pair is rejected if and only if its key is no header, extra or field in any case, or is clear with a value that is no boolean |
| ActionRoundTrip.ActionsRoundTrip | server/actions.go:117-198 | printing any list of actions and parsing it gives the same list: field names and boolean spelled in any way, headers and extras in any order, either kind of quotes, spaces wherever they may stand |
| ActionSections.BareSectionParses | server/actions.go:202-244 | a value without quotes, empty or not, with or without a key, is read without the padding around it |
| ActionRoundTrip.PositionalKeys | server/actions.go:153-166 | keyless sections are action, label and, for view and http only, URL; otherwise the term is unknown |
| Wildcards.LikeIsGlob | user/manager.go:1508-1522 | the stored LIKE pattern selects exactly the topics that can be cut into stretches aligned with the glob |
| Wildcards.FromToSQLWildcard | user/manager.go:1510-1526 | converting to the stored form and back is the identity exactly on patterns without percent sign |
| Text.UnescapeEscape | user/manager.go:1520-1526 | unescaping undoes escaping on every string, backslashes included |
| Wildcards.TopicSQLForm | user/manager.go:1510-1522 | for topics, grants and reservations use the same stored form |
| Authorization.NewPermission | user/types.go:173-208 | the bits built are the bits read |
| Authorization.AuthorizeByTop | user/manager.go:826-864 | administrators may do everything, no matching entry leaves the default, otherwise a row that no matching row precedes decides |
| Authorization.OwnEntryDecides | user/manager.go:159-165 | if any entry of the user matches, one of them with the longest stored pattern decides |
| Authorization.EveryoneIrrelevant | user/manager.go:836-840 | a user with a matching entry is judged as if entries of everyone did not exist |
| Authorization.UsernameAboveEveryone | user/types.go:237-245 | every allowed user name sorts above the name of everyone |
| Authorization.WriteVerdictOrderFree | user/manager.go:159-165 | the write verdict depends on the set of entries only, not on their order |
| Authorization.WriteVerdict | user/manager.go:159-165 | for every table: the default if no entry matches; otherwise writing is allowed if and only if, among the matching entries of the user, or of everyone if the user has none, every denying one is at most as long as an allowing one |
| Authorization.ReadVerdictOrderFree | user/manager.go:159-165 | the read verdict is the same in every order if and only if the rows tied for first place agree on reading |
| Authorization.LongerPrefixIsLonger | user/manager.go:159-165 | of two prefix patterns matching a topic, the longer prefix is the longer stored pattern, although underscores count twice |
| Authorization.LongestPrefixDecides | user/manager.go:836-840 | if all matching entries of the user are prefix patterns, the longest prefix decides |
| AccessControl.InOrder | user/manager.go:208-215 | the reserved topics are listed completely, once each, in strictly increasing order |
| Ownership.GuardedReservationKeepsAclOk | user/manager.go:1283-1359 | a reservation let through by the guard leaves one owner per topic and every owned row with its owner or everyone |
| Ownership.ApplyConsistent | user/manager.go:1221-1386 | every operation keeps single ownership, foreign keys and unique user ids |
| Ownership.RunConsistent | user/manager.go:1283-1386 | so does every run from a fresh database |
| Quota.OwnerUnique | user/manager.go:222-227 | after every run the owner query has at most one answer, and all owned rows of the topic name it |
| Quota.RunWithinQuota | server/server_account.go:436-464 | after every run of safe steps no regular user owns more topics than the tier allows, none without a tier |
| Quota.SafeIsExact | user/manager.go:1221-1279 | from a state within quota a step stays within quota if and only if it is safe: a demoted administrator fits the limit, a tier edit leaves room for its regular users |
| Reservations.TrimKeepsFirst | server/server_account.go:514-535 | trimming succeeds and keeps exactly the first `limit` reservations in stored order |
| Reservations.TrimSparesOthers | server/server_account.go:522-529 | trimming one user changes nothing another user owns |
| Reservations.SubscriptionChangeSucceeds | server/server_payments.go:438-462 | a subscription change never fails for too many reservations; the user ends with the new tier, within its limit |
| Reservations.ReserveThenRemove | user/manager.go:1343-1386 | a reserved topic is reported under its name with the permission for everyone, and removing it restores the database exactly |
| Reservations.ReservationsExact | user/manager.go:1122-1150 | each owned topic is reported under its name with the access of everyone, and nothing else is reported |
| Reservations.ReserveExact | server/server_account.go:430-464 | a reservation goes through if and only if user and topic are allowed and known, a regular user has a tier with room or holds the topic, and every entry on the stored topic or matching it is the user's; otherwise nothing changes |
| Reservations.ReleaseExact | server/server_account.go:476-500 | releasing succeeds if and only if the allowed user has reserved the topic; the user then owns it no more, no row of the user or of everyone is left on it, and everything else stays |
| Accounts.RegisterExact | user/manager.go:867-891 | a user is registered if and only if name and id are free and allowed, and starts without tier and entries |
| Accounts.MarkedUserPurged | user/manager.go:907-926 | a user marked as removed stays until a purge after the given time, and a purge deletes no other unmarked account |
| Accounts.PurgeCascades | user/manager.go:710-715 | a purge deletes with the accounts exactly their entries and the entries they own |
| Accounts.TiersExact | user/manager.go:1394-1422 | when tiers are created, edited and dropped, and that other tiers stay |
| ReservationAccess.OwnerHasFullAccess | server/server_account.go:438-464 | after a reservation of any topic that no foreign entry matches, its owner may read and write it |
| ReservationAccess.OwnerWriteAccess | server/server_account.go:438-464 | after any reservation that succeeds, a regular owner may write the topic if and only if every longer matching entry of the owner that denies writing is outranked |
| ReservationAccess.GrantsWithoutUnderscore | user/manager.go:1281-1303 | for a topic without underscore a successful reservation implies that no foreign entry matches |
| ReservationAccess.OthersWriteAccess | server/server_account.go:438-464 | everybody else may write it if and only if the owner allows it or an entry on the same name in other case does |
| ReservationAccess.OthersReadAccess | server/server_account.go:438-464 | everybody else reads as the owner chose, in every order of the table, if and only if the entries on the same name in other case that write as much as any read alike |
| ReservationAccess.OthersGetChosenPermission | server/server_account.go:438-464 | without such a variant everybody else gets exactly the permission chosen for everyone |
| ReservationGuard.GuardExact | user/manager.go:1281-1303 | in every run, a reservation succeeds only if no foreign entry matches its topic, if and only if the topic has no underscore |
| Scenarios.OwnerLockedOut | user/manager.go:1281-1303 | for every topic with an underscore and room for a star there is a run after which the owner may not write the topic |
| Scenarios.VariantOpensTopic | server/server_account.go:438-464 | a run in which one user reserves abc for everyone and ABC for nobody, after which everybody may write ABC |
| Scenarios.DemotionBreaksQuota | user/manager.go:1221-1234 | a run in which an administrator without tier reserves a topic and becomes a regular user, above the quota |
| Grants.GrantTakesEffect | user/manager.go:1305-1319 | a grant decides access to every topic its glob describes, unless a longer matching entry exists |
| Grants.RunPatternsOk | user/manager.go:1305-1359 | after every run each entry stores the form of an allowed pattern, and is reported as that pattern |
| Grants.GrantListed | user/manager.go:1098-1120 | granting succeeds and puts the pattern and permission on the user's list in place of what it said about the pattern; the rest of the list stays |
| Grants.GrantSparesLists | user/manager.go:1305-1319 | the lists of all other users, and of everyone, stay |
| Grants.ResetListed | user/manager.go:1323-1338 | resetting takes the pattern off the list and leaves the rest |
| Grants.GrantsOrdered | user/manager.go:202-207 | the list holds each entry once, ordered by length, write, read and pattern |
| Grants.ClearingFreesTopics | user/manager.go:1219-1234 | however a user is cleared (promoted, marked as removed, reset or deleted), the user owns nothing, and another user may reserve a topic if and only if no entry of third parties stood in the way |
| Grants.FreeTopicCanBeReserved | server/server_account.go:436-464 | a regular user with room in the tier can reserve a topic no entry concerns, becomes its owner and uses up one reservation |
| Manager.UserManager.AllowAccess | user/manager.go:1308-1319 | succeeds exactly for a known user or everyone and an allowed pattern; the table updated in place is the granted table, consistency is kept |
| Manager.UserManager.ResetAccess | user/manager.go:1323-1338 | which rows each of the three deletions takes, and that all others stay; consistency is kept |
| Manager.UserManager.AddReservation | user/manager.go:1343-1359 | succeeds exactly for a known, allowed user and an allowed topic; the user then owns one more topic, other users own what they did, and the table stays consistent if the guard let the reservation through |
| Manager.UserManager.RemoveReservations | user/manager.go:1363-1386 | succeeds exactly if all topics are allowed; then exactly the rows of the user and of everyone on those topics go; consistency is kept |
| Manager.UserManager.ChangeRole | user/manager.go:1221-1234 | the role of a known user is the one given; demotion keeps all entries, promotion drops exactly the user's own and owned ones; otherwise nothing changes |
| Manager.UserManager.CheckReservationsLimit | user/manager.go:1265-1279 | too many reservations if and only if the user has a tier, the limit is below the tier's and the user owns more topics than the limit |
| Manager.UserManager.ChangeTier | user/manager.go:1238-1252 | when it succeeds, and that then only the user's tier changes and otherwise nothing; consistency and all quotas are kept |
| Manager.UserManager.ResetTier | user/manager.go:1255-1263 | when it succeeds, and that then only the user's tier goes and otherwise nothing changes; consistency and all quotas are kept |
| Server.Server.HandleReservationAdd | server/server_account.go:436-464 | the guards in order, then the reservation; consistency and all quotas are kept |
| Server.Server.HandleReservationDelete | server/server_account.go:475-508 | the topic is released exactly if the user has reserved it, and otherwise nothing changes; on request no published message of the topic is left and messages of other topics that have not expired stay |
| Server.CollectExcess | server/server_account.go:522-525 | the downward loop gathers the topics beyond the limit, last one first |
| Server.Server.RemoveExcessReservations | server/server_account.go:514-535 | the excess removed in place, consistency kept; messages of the removed topics expire and change in nothing else, messages of other topics stay |
| Server.Server.UpdateSubscriptionAndTier | server/server_payments.go:438-475 | for a known user and tier it succeeds: trimmed to the limit, with the new tier, billing fields recorded, messages of the removed topics expired; consistency is kept |
| MessageTable.OrderByContents | server/message_cache.go:78-114 | ordering a result neither drops nor repeats rows |
| MessageTable.DueMembers | server/message_cache.go:109-114 | the due query lists exactly the unpublished rows whose time has come |
| MessageTable.SinceTimeExact | server/message_cache.go:78-89 | a poll by time returns exactly the rows of the topic from that time on, unpublished ones only if asked for, each once and in order of time and id |
| MessageTable.SinceIDExact | server/message_cache.go:90-101 | a poll by a known id returns exactly the rows with a higher row id, and the unpublished ones if asked for, in order; by an unknown id it is a poll for everything |
| MessageTable.ScheduledAddsUnpublished | server/message_cache.go:84-101 | including scheduled messages adds the unpublished ones and nothing else |
| MessageTable.LatestIsLast | server/message_cache.go:102-108 | the latest message is the last one of a poll for everything |
| MessageCache.Cache.AddMessages | server/message_cache.go:342-421 | all messages are inserted with their id, time, expiry, topic and user and their own clock reading, or a wrong type rolls all of them back |
| MessageCache.Cache.DeleteMessages | server/message_cache.go:568-580 | the loop deletes exactly the rows with the given ids |
| MessageCache.Cache.ExpireMessages | server/message_cache.go:582-594 | the loop moves the expiry of each topic before its clock reading |
| MessageCache.Cache.PruneMessages | server/server_manager.go:171-192 | exactly the published, expired rows go |
| MessageCache.Cache.SendDelayedMessage | server/server.go:1787-1813 | sending one delayed message is one step of the delivery model, from every state in which that message is next |
| MessageCache.Cache.SendDelayedMessages | server/server.go:1765-1813 | the loop is a complete sweep of the delivery model and hands over exactly the due messages whose user is found |
| MessageCache.Cache.HandlePublish | server/server.go:790-833 | decide, hand over and store, queue or discard are the steps of the delivery model, for every kind of cache |
| MessageCache.Cache.StoreBatch | server/message_cache.go:660-669 | storing a batch from the queue is a run of store steps of the delivery model |
| Delivery.ApplyKeeps | server/server.go:1765-1813 | every step keeps: unique ids, handed over at most once, published implies due, sweeps and prunes only hold what they may |
| Delivery.HandedAtMostOnce | server/server.go:790-833 | in every interleaved run each message is handed over at most once |
| Delivery.ImmediateExactlyOnce | server/server.go:806-809 | a message due when published is handed over at once and never again |
| Delivery.SweepDelivers | server/server.go:1765-1785 | a message stored before its time has been handed over exactly once, from then on, when a sweep that started at or after its time and found its user has ended, whatever ran before, between and during |
| Delivery.DelayedMessageFate | server/message_cache.go:364 | a delayed message stored before its time waits for that time or is handed over; stored later it is never handed over |
| Delivery.LateStoreNeverSent | server/message_cache.go:364 | from a fresh start every delayed message that is stored at its time is accepted, and no sweep in any run sends it |
| Delivery.NeverLost | server/message_cache.go:115-116 | a message stored unpublished is at every later point handed over or still stored and unpublished |
| Delivery.UnpublishedSurvives | server/server_manager.go:171-192 | no step, expiry and prune included, deletes an unpublished message |
| Delivery.NeverEarly | server/message_cache.go:78-108 | in every run a poll without scheduled messages shows only messages whose time has come |
| Delivery.UncachedNeverStored | server/server.go:823-828 | in no run does a message published without caching get a row |
| Delivery.RunRowIds | server/message_cache.go:342-421 | in every run row ids grow with every message stored |
| Retention.MessageRetained | server/server_manager.go:171-192 | in every run a stored message whose topic is not expired keeps its row, topic and expiry included, until the time its expiry says |
| Retention.ExpiredMessageGoes | server/server_manager.go:171-192 | and is gone for good after a prune that looked when that time had come and it was published |
| Delivery.PruneRemovesExpired | server/server_manager.go:175-184 | a prune removes for good every row that was published and expired when it looked, whatever ran between looking and deleting |
| Delivery.ExpiredTopicIsPruned | server/message_cache.go:582-594 | expiring a topic puts all its published messages on the list of the next prune and leaves other topics alone |
| Cursor.NothingLost | server/message_cache.go:448-472 | polling by id loses no message of the topic, in whatever order of times they arrive |
| Cursor.PollsAddUp | server/message_cache.go:423-472 | with arrivals in time order, repeated polls by id add up to one poll for everything: no loss, no duplicate, same order |
| Cursor.TimeOrderIsNeeded | server/message_cache.go:90-95 | polls add up after every prefix of the arrivals if and only if they arrive in time order |
| ScheduledPolls.DelayedMissedExactly | server/message_cache.go:90-95 | a scheduled message is received by a subscriber who goes on polling by id if and only if the cursor's row id was lower, or there was no cursor, when the message was sent |
| ScheduledPolls.DelayedMissed | server/message_cache.go:90-95 | a run in which a delayed message is stored before another one and no poll by id ever returns it |
| BatchingQueue.Batcher.Append | util/batching_queue.go:50 | append in place or into a larger array |
| BatchingQueue.Batcher.TakeAll | util/batching_queue.go:66-71 | the batch is a copy of its own, the backing array stays |
| BatchingQueue.Batcher.Enqueue | util/batching_queue.go:48-59 | the locked part of a call; batches emitted before keep their contents |
| BatchingQueue.Batcher.Tick | util/batching_queue.go:73-86 | one tick of the timer; batches emitted before keep their contents |
| BatchingQueue.NothingLostOrDuplicated | util/batching_queue.go:48-86 | over every interleaving of calls, ticks and receives: batches then buffer are the elements in lock order, no batch exceeds its size, and the receiver gets every element once |
| Limits.Limiter.AllowN | util/limit.go:60-68 | a limiter grows by the amount exactly if it admits it |
| Limits.LimitWriter.Revert | util/limit.go:179-181 | the reverse loop takes the charge off every fixed limiter and no rate limiter |
| Limits.LimitWriter.Write | util/limit.go:174-188 | a write passes exactly if all limiters admit it; charges and bytes written follow |
| Limits.LimitersTrackWrites | util/limit.go:174-188 | over every sequence of writes fixed limiters grow by exactly the bytes let through and stay within their limit, rate limiters by at least those |
| FileCache.Cache.Write | server/file_cache.go:43-73 | a write stores the whole stream within the remaining space or leaves no trace; without other limiters it succeeds exactly if the stream fits |
| FileCache.Cache.Remove | server/file_cache.go:75-95 | an invalid id stops the loop before the total is measured again |
| FileCache.Cache.MeasureDir | server/file_cache.go:113-127 | the sum of the file sizes, in any order of listing |
| FileCache.RemoveFilesExact | server/file_cache.go:75-85 | with valid ids exactly the named files are gone |
| FileCache.RunAccounted | server/file_cache.go:43-111 | over every sequence of calls the recorded size covers the files, and equals their size if all removed ids were valid |
| FileCache.DiskUseBounded | server/file_cache.go:43-111 | the files never take more than the larger of the limit and their size at the start |
| Peek.ReadCloser.Read | util/peek.go:43-54 | bytes delivered and bytes left are together what was left before, through any depth of peeking |
| Peek.ReadFull | util/peek.go:28-29 | the buffer is filled up to the end of the stream for any short reads |
| Peek.PeekReader | util/peek.go:24-40 | peeking leaves the contents as they were, shows them up to the limit, and the limit is reached exactly if there are that many bytes |
| Peek.ReadWith | util/peek.go:43-54 | any sequence of buffer sizes delivers the contents in order |
| Peek.ReadAll | util/peek.go:43-54 | reading to the end delivers all contents |
| Peek.PeekTwice | server/server.go:1107-1114 | peeking a peeked body again sees it from its start, and nothing is lost |
| Units.FormatSize | util/util.go:247-258 | the loop finds the largest unit that fits and rounds down to it; from one pebibyte on it runs past the suffixes |
| Units.SizeRoundTrip | util/util.go:221-258 | for every size: there is a text if and only if it is below one pebibyte, readable if and only if the size lies between zero and one tebibyte; it is read rounded down to its unit and formatted the same way |
| Units.ParseSizeExact | util/util.go:221-242 | a text is read if and only if it is digits that fit 64 bits and at most one letter |
| Units.SizeLetters | util/util.go:232-242 | what each letter stands for, in upper and lower case |
| Units.WordDurations | util/time.go:59-85 | a whole number with any of the words for days, hours, minutes and seconds is read as that many units, whether time.ParseDuration or the expression takes it, exactly if the word starts in lower case and the number fits 63 bits; a product that does not fit wraps |
| Units.UnknownWord | util/time.go:59-85 | a number with a word that neither time.ParseDuration nor the expression knows is no duration |
| Units.BareNumber | util/time.go:59-68 | a number without a unit is no duration, except zero |
| Units.NoNumber | util/time.go:59-68 | a text that does not start with a number, after at most a sign, is no duration |
| DurationTerms.DurationOfTerms | util/time.go:59-63 | a duration of several terms, with sign and decimals, is read as the sum of its terms |
| Units.DurationRoundTrip | util/time.go:57-102 | every formatted duration is read back rounded down to its unit, or zero if negative, exactly if it is a non-negative multiple, and formatted the same way |
| Lines.FetchLines | web/src/app/utils.js:216-249 | for every way of cutting a text into chunks the lines are those of the whole text, without an empty last one |

## Left out

- HTTP, WebSocket and SSE handling, routing, middleware and response writing.
- Cancelling the subscribers of a topic that has just been reserved, and deleting attachments while pruning.
- Firebase, Twilio, Stripe, SMTP, Matrix and web push clients; handing a message over is where the model ends.
- SQL engine, transactions that fail, schema migrations, stats, tokens and phone numbers.
- Password hashing, random ids (assumed unique) and JSON, including actions given as JSON.
- The checks on parsed actions in `parseActions`: at most three, and the fields each kind requires.
- The token bucket behind a rate limiter; only that it may refuse and cannot be reverted.
- Overlapping writers of the attachment cache, each of which would see its own remaining space.
- Wrap-around of a limiter's 64-bit value, and directory operations that fail.
- The sort of merged topics in the server's poll handler; polling is stated for one topic at the cache.
- A tier with a negative reservation limit.
- Requests that act on an account snapshot older than the stored one: each request is one step.
- An error from the stream during a peek; a reader only ends.
- Natural-language dates, MIME detection, decoding of UTF-8 across chunks, the command line, logging, metrics and the user interface.
- The rounding of `float64` in `time.ParseDuration` for terms with decimals; the product is rounded down exactly.
- SendDelayedMessages: runs without interference; sweeps interleaved with other steps are in `Delivery`.
