# Picasu backend: a verified model

A Dafny model of the stateful core of the Picasu photo server's backend, with proofs of what that
core promises over every input, every sequence of calls and every interleaving. `dafny verify
dfyconfig.toml` checks all of it. Nothing here executes the server.

| file | models |
|---|---|
| `RateLimit.dfy`, `BucketBounds.dfy` | one sliding-window failure bucket with capped exponential bans, and how much it can store |
| `LoginThrottle.dfy` | the tracker of three buckets over two keyed maps, in place |
| `ThrottleBans.dfy`, `ThrottleClock.dfy`, `ThrottleSweep.dfy`, `ThrottleSlots.dfy`, `ThrottleBudget.dfy`, `ThrottleRetention.dfy` | properties of the tracker over runs |
| `UserStore.dfy` | identity rows, the read-modify-write transaction, admin guards, token versions |
| `Enrolment.dfy` | invites, and redeeming as three steps over two stores with crashes |
| `SidecarEdit.dfy` | the batch sidecar write with backups, rollback and a store phase |
| `Expression.dfy` | the query language compiled to a full and a metadata-hiding filter |
| `DirAlbum.dfy` | the directory/album cache and subtree moves |
| `Revocations.dfy` | the self-pruning revocation table |
| `SpecPath.dfy` | the Rocket-to-OpenAPI path translation |
| `Words.dfy` | 64- and 32-bit words with saturating arithmetic, `Option`, `Result` |

How the sources are read:

- A class stands for each object that is updated in place; its methods are proved against functions
  on values, and the laws are lemmas about those functions. Map entries are values, as the maps own them.
- Clocks, fresh ids, fresh tokens, password hashes, iteration orders of hash maps and the outcome of
  every filesystem or database operation are parameters, so the theorems hold for all of them. The
  album cache a query consults is one snapshot.
- A write transaction is one atomic step. A length is read as a 64-bit count that saturates; no deque
  can grow far enough for this to matter.

Where the code and its own comments disagree, the code is followed:

- `reserve` says that `record_failure` gives a slot back; it does not. Only `release` and
  `record_success` do (`ThrottleSlots`).
- `remaining` says that 0 means the next failure bans and that a live ban reports 0. Neither holds, and
  `BudgetMisleads` breaks both on the shipped schedules. `BudgetCountsDown` says exactly when the next
  failure bans. `LiveBanReportsZeroIff` and `RemainingIsZeroIff` say exactly when 0 is reported: while some
  bucket's `maxFailures`-th most recent failure is in window, whatever the length of the ban.
- Callers read the clock before verifying a password, so timestamps can reach the tracker out of
  order. A sweep can then forget a failure still in window, and `BackwardClockShowsSweep` gives two runs
  that answer differently. `SweepExactIff` says under any clock exactly when a sweep changes nothing, and
  `SweepsAreInvisible` holds for all runs whose sweeps meet that condition.
- An invite is checked against a clock read before its transaction begins, so it can be consumed after
  its deadline (`SpentAfterDeadline`, `CommitSpendsIff`).
- Demotion and deletion count disabled admins, so the last enabled admin can be lost
  (`LosesLastEnabledAdminIff`, `LastEnabledAdminCanGo`).
- Writing and restoring a sidecar both stage it under a temporary name. A file that already had that
  name is lost, and a refused write can leave one behind, so "byte-identical after a rollback" has an
  exact condition (`FullRollbackIsExactIff`, `RollbackLosesStagedName`, `RefusedWriteLeavesStagedName`).
- A token carries only its id and version, and a new account starts its versions again. A token of a
  deleted account can match the next account of the same id (`TokenMatchesIff`,
  `OldTokenMatchesNewAccount`).
- `record_success` drops the whole user entry, so the slots of the user's other attempts are no longer
  counted (`UserExactUnlessDroppedOrFull`, `SuccessDropsTheOtherSlot`).

## Model

| member | source | states |
|---|---|---|
| RateLimit.ComputeBanDelay | backend/src/auth/rate_limit.rs:37-46 | the doubling loop computes min(base * 2^n, cap) over unbounded integers for all words, in at most 64 iterations when the base is positive |
| RateLimit.Bucket.New | backend/src/auth/rate_limit.rs:81-107 | a bucket is built exactly for non-degenerate parameters and starts empty; a rejection names a defect the parameters have |
| RateLimit.Bucket.Record | backend/src/auth/rate_limit.rs:169-187 | the pruning loop and push give the specified new state and ban, ignoring attempts during a ban |
| RateLimit.PrunedDequeMatchesFullHistory | backend/src/auth/rate_limit.rs:118-126 | over every run with ascending times the pruned deque gives the same in-window count and ban as the unpruned history since the last success |
| RateLimit.PeekPredictsRecord | backend/src/auth/rate_limit.rs:157-187 | in every reachable state peeking one failure ahead equals what recording it returns |
| RateLimit.RungBoundsStoredFailures | backend/src/auth/rate_limit.rs:134-187 | if rung j outlasts the window, no run stores more than maxFailures + 2j + 1 failures |
| RateLimit.IpShortHoldsAtMostSixteen | backend/src/auth/rate_limit.rs:6-12 | the shipped IP-short schedule never holds more than sixteen |
| BucketBounds.WindowBoundsStoredFailures | backend/src/auth/rate_limit.rs:128-187 | whatever the cap, so for the daily schedules too, no run before the last second of the clock stores more than maxFailures plus two failures per second of the window (a window so long that this sum reaches 2^64 - 1 asks for a run of fewer than 2^64 events) |
| BucketBounds.LastSecondStoresEverything | backend/src/auth/rate_limit.rs:169-187 | at the last second a ban end saturates, so for every n a run of n failures stores all n: the bound stops exactly there |
| RateLimit.BanLadder | backend/src/auth/rate_limit.rs:128-187 | while no failure since the last success ages out the k-th ban lasts min(base * 2^k, cap), with exactly one free failure between bans and none banned before the threshold |
| LoginThrottle.LoginThrottle.New | backend/src/auth/login_throttle.rs:117-136 | rejects exactly the configurations with a degenerate schedule |
| LoginThrottle.LoginThrottle.CheckBan | backend/src/auth/login_throttle.rs:142-153 | the largest live ban over the three buckets, changing nothing |
| LoginThrottle.LoginThrottle.ReserveSlot | backend/src/auth/login_throttle.rs:171-238 | performs the reserving step of the runs below, whose grants and answers ReserveGrantsIff and ReserveAnswers give; entries are created and refreshed either way |
| LoginThrottle.LoginThrottle.ReleaseSlot | backend/src/auth/login_throttle.rs:246-253 | gives one slot back in each map, ignoring unknown keys |
| LoginThrottle.LoginThrottle.RecordFailedLogin | backend/src/auth/login_throttle.rs:263-298 | records into all three buckets, raises the ban snapshots and enforces the caps |
| LoginThrottle.LoginThrottle.RemainingAttempts | backend/src/auth/login_throttle.rs:306-316 | the smallest budget left over the three buckets |
| LoginThrottle.LoginThrottle.RecordSuccess | backend/src/auth/login_throttle.rs:324-332 | drops the user entry, clears the burst bucket, keeps the daily one |
| LoginThrottle.LoginThrottle.Sweep | backend/src/auth/login_throttle.rs:350-359 | reaps idle entries, then enforces the caps |
| LoginThrottle.EvictOver | backend/src/auth/login_throttle.rs:366-391 | the eviction loop ends within the cap or with only shielded entries, never evicts a shielded one, never goes below the cap, and every evicted entry was seen no later than any surviving unshielded one |
| LoginThrottle.OldestUnshielded | backend/src/auth/login_throttle.rs:368-373 | finds a least recently seen unshielded entry exactly when one exists |
| ThrottleBans.ReachableIsCovered | backend/src/auth/login_throttle.rs:275-293 | in every reachable state, under any clock, the ban snapshot is at least every contained bucket's ban end |
| ThrottleBans.NoBanIsEverEvicted | backend/src/auth/login_throttle.rs:337-391 | in every run sweeping and eviction leave every ban as it was for every key and every later time |
| ThrottleBans.FailureBanIsEnforced | backend/src/auth/login_throttle.rs:255-298 | for the whole call, evictions included: every check from a failure on counts down exactly the ban it returned, and other keys are told what they were told before |
| ThrottleBans.SlotCallsChangeNoAnswer | backend/src/auth/login_throttle.rs:142-253 | checking, reserving and releasing change nobody's ban or budget, at any time |
| ThrottleBans.CallsTouchOnlyTheirKeys | backend/src/auth/login_throttle.rs:142-332 | a call for one address and user leaves every other entry as it was, before the caps |
| ThrottleBans.OnlyAttemptsMakeEntries | backend/src/auth/login_throttle.rs:171-332 | exactly reservations and failures make entries, and a success drops its user's |
| ThrottleBans.SuccessKeepsOnlyTheDailyBucket | backend/src/auth/login_throttle.rs:318-332 | after a success only the address's daily ban and budget still count, at every time |
| ThrottleClock.ReachableIsDated | backend/src/auth/login_throttle.rs:171-391 | in every state reached with ascending times, through sweeps and evictions, each bucket is in chronological order, no failure is later than its entry was last seen, and a live ban still has more failures stored than its threshold |
| ThrottleSweep.SweepExactIff | backend/src/auth/login_throttle.rs:350-357 | under any clock a sweep keeps every count, ban and slot at every time from then on if and only if every entry it reaps holds no slot and has no failure in window |
| ThrottleSweep.SweepsAreInvisible | backend/src/auth/login_throttle.rs:350-359 | under any clock a run with its sweeps and the same run without them give the same answers to every call, if each sweep is exact in that sense, no call after a sweep is dated before it and the maps stay under their caps |
| ThrottleSweep.AscendingSweepsAreInvisible | backend/src/auth/login_throttle.rs:334-359 | with ascending times the same asks only that no reaped entry holds a slot |
| ThrottleSweep.CleanIffNoSlotReaped | backend/src/auth/login_throttle.rs:334-357 | with ascending times a sweep is exact if and only if it reaps no held slot: an entry unseen for the longest window has nothing in window |
| ThrottleSweep.BackwardClockShowsSweep | backend/src/auth/login_throttle.rs:350-357 | under every valid configuration, two runs from the empty tracker that differ only in a sweep report different budgets, once a late attempt has put the last-seen time before a failure |
| ThrottleRetention.UnusedEntriesAreReaped | backend/src/auth/login_throttle.rs:334-359 | over every run with ascending times a sweep leaves no entry unused for the longest window and the longest ban, whatever was banned or forgiven under it |
| ThrottleSlots.SlotsNeverExceedGrants | backend/src/auth/login_throttle.rs:171-253 | in every run that settles each grant at most once neither map counts more slots than grants outstanding |
| ThrottleSlots.SlotsEqualGrants | backend/src/auth/login_throttle.rs:231-253 | for an address never reaped while holding slots the count equals the grants outstanding throughout |
| ThrottleSlots.ExactUnlessReapedOrFull | backend/src/auth/login_throttle.rs:324-359 | one call keeps the count exact if and only if no sweep drops held slots and the 32-bit counter has room |
| ThrottleSlots.SlowAttemptLosesItsSlot | backend/src/auth/login_throttle.rs:350-357 | an attempt still under way when a sweep comes a whole window later loses its slot, leaving a grant uncounted |
| ThrottleSlots.UserExactUnlessDroppedOrFull | backend/src/auth/login_throttle.rs:324-359 | one call keeps a user's count exact if and only if no sweep reaps held slots, no success happens beside another held slot, and the 32-bit counter has room |
| ThrottleSlots.SuccessDropsTheOtherSlot | backend/src/auth/login_throttle.rs:324-332 | of two attempts under way for a user one succeeds, and the other is no longer counted |
| ThrottleBudget.CrowdAdmitsIff | backend/src/auth/login_throttle.rs:199-227 | an unbanned bucket admits an attempt beside k in flight exactly when it is alone, the flight fits, or the projected count is a free one |
| ThrottleBudget.GrantLimitIsExact | backend/src/auth/login_throttle.rs:199-230 | the admitted number of parallel attempts is exactly the limit, itself at most max(2, M + 2 - c) |
| ThrottleBudget.ReserveGrantsIff | backend/src/auth/login_throttle.rs:196-237 | a reservation is granted if and only if no ban is live and all three buckets admit it beside what is in flight |
| ThrottleBudget.ReserveAnswers | backend/src/auth/login_throttle.rs:196-230 | a live ban is answered as it stands, a crowded flight with the largest rung any bucket projects for the flight and one more |
| ThrottleBudget.IpBurstIsLimited | backend/src/auth/login_throttle.rs:171-238 | any burst of reservations at one instant grants an address no more than the limit of either of its buckets, for each limit the 32-bit slot counter can reach |
| ThrottleBudget.UserBurstIsLimited | backend/src/auth/login_throttle.rs:171-238 | the same for a user |
| ThrottleBudget.UnreachableLimitNeverBlocks | backend/src/auth/login_throttle.rs:199-230 | a limit the 32-bit slot counter cannot reach blocks nobody |
| ThrottleBudget.BurstGrantsIff | backend/src/auth/login_throttle.rs:171-238 | exactly which requests of any burst are granted: those with no live ban whose three buckets have room after the grants before them |
| ThrottleBudget.SoloBurstGrants | backend/src/auth/login_throttle.rs:171-238 | parallel attempts of one address for one user: exactly the smallest of the three limits, all if fewer, none under a ban |
| ThrottleBudget.BudgetCountsDown | backend/src/auth/login_throttle.rs:255-316 | for the whole call, evictions included, on failures in chronological order, banned or not: it bans if and only if a ban is live or some unbanned bucket lands an odd distance past its threshold; each unbanned bucket spends one; with no live ban the budget counts down by one and a positive budget means a free failure; an entry that has just failed is evicted only from a full map and only unbanned, and then reports its whole budget |
| ThrottleBudget.ReachableIsChronological | backend/src/auth/login_throttle.rs:255-316 | every state reached with ascending times has its failures in chronological order for every attempt |
| ThrottleBudget.LiveBanReportsZeroIff | backend/src/auth/login_throttle.rs:300-305 | over every run of a bucket with ascending times: while a ban is live the budget is zero if and only if the maxFailures-th most recent failure is still in window |
| ThrottleBudget.RemainingIsZeroIff | backend/src/auth/login_throttle.rs:300-316 | over every run of the tracker with ascending times: zero is reported if and only if that holds for some bucket of the attempt, and a banned bucket always stores that many failures |
| ThrottleBudget.BudgetMisleads | backend/src/auth/login_throttle.rs:300-305 | on the shipped schedules a zero budget is followed by a free failure after four failures at 0, and after failures at 0, 0, 0 and 599 a ban of nine seconds is live at 600 with a budget of two |
| UserStore.DecodeEncode | backend/src/auth/user_store.rs:16-103 | writing a record and reading it back is the identity |
| UserStore.ReencodingKeepsMeaning | backend/src/auth/user_store.rs:48-103 | re-encoding any readable row, legacy ones included, keeps its decoded meaning |
| UserStore.HashOnlyRow | backend/src/auth/user_store.rs:58-99 | a row with only a hash, or nothing, reads with the documented defaults |
| UserStore.EachFieldIsItsAttribute | backend/src/auth/user_store.rs:58-74 | whatever is written in a field decides its own attribute and no other, wrong types reading as the default |
| UserStore.HashIsReadFrom | backend/src/auth/user_store.rs:55-95 | where the hash of every kind of row comes from, and exactly which rows are unreadable |
| UserStore.UserTable.Load | backend/src/auth/user_store.rs:160-168 | one unreadable row fails the whole load; otherwise every row is decoded |
| UserStore.UserTable.Rmw | backend/src/auth/user_store.rs:199-246 | the insert and remove loops leave the table decoding to exactly the closure's map; an unreadable table or a closure error leaves it untouched |
| UserStore.Execute | backend/src/auth/user_store.rs:248-461 | every identity operation as one transaction: the stored users become those the laws below describe, a refusal changes no row |
| UserStore.NewAccountIsAsAsked | backend/src/auth/user_store.rs:248-303 | an account comes into being exactly by a creating operation naming its id, with all six attributes as the caller asked |
| UserStore.OnlyTheNamedAccount | backend/src/auth/user_store.rs:248-461 | an account goes exactly by an accepted delete of its id, and no operation touches another id |
| UserStore.RefusedExactlyWhen | backend/src/auth/user_store.rs:248-461 | an operation is refused exactly for an unknown id, a taken id, or the last admin, each with its own error |
| UserStore.RepliesAreTrue | backend/src/auth/user_store.rs:318-461 | a reply says truly whether the stored users changed, and a version reply is the version now stored |
| UserStore.AdminAlwaysRemains | backend/src/auth/user_store.rs:322-461 | no run without a forced delete loses its last admin |
| UserStore.LosesLastEnabledAdminIff | backend/src/auth/user_store.rs:332-455 | a step loses the last enabled admin if and only if it demotes or deletes that one while a disabled admin, or force, lets the guard pass |
| UserStore.LastEnabledAdminCanGo | backend/src/auth/user_store.rs:332-440 | provisioning two admins, disabling one and demoting the other leaves no enabled admin |
| UserStore.GuardsRefuseExactlyTheLast | backend/src/auth/user_store.rs:322-461 | the guards refuse exactly demoting or deleting the only admin and disabling the only enabled one |
| UserStore.EachAttributeHasItsWriter | backend/src/auth/user_store.rs:280-440 | each attribute of a living account is written only by its own operations, for the account they name |
| UserStore.VersionCountsInvalidations | backend/src/auth/user_store.rs:280-440 | while an id lives its version is the starting one plus the invalidating operations, modulo 2^64, and nothing else moves it |
| UserStore.TokenSurvivesIffNothingInvalidates | backend/src/auth/user_store.rs:23-28 | while its account lives, a token survives a run of fewer than 2^64 invalidations if and only if there were none |
| UserStore.VersionCountsThisLife | backend/src/auth/user_store.rs:248-461 | over every run, deletions included, the version is the one the present account began with plus the invalidations since, modulo 2^64 |
| UserStore.TokenMatchesIff | backend/src/router/auth.rs:752-755 | over every run, deletions included, a token of any version matches an existing id if and only if its present account has seen exactly the invalidations that lead from its first version to the token's |
| UserStore.OldTokenMatchesNewAccount | backend/src/router/auth.rs:752-755 | deleting an account and making one of the same id lets a version-0 token of the deleted one match |
| Enrolment.InviteTable.Create | backend/src/auth/invites.rs:190-214 | afterwards the token redeems exactly for a free id it is meant for before its deadline, no other invite changes, and the table is what the issuing step of the protocol gives |
| Enrolment.InviteTable.Revoke | backend/src/auth/invites.rs:289-308 | afterwards no redeem finds the token, no other invite changes, the result says whether it existed, and the table is what the withdrawing step of the protocol gives |
| Enrolment.InviteTable.ConsumeInvite | backend/src/auth/invites.rs:352-430 | the full scan and the ordered checks either mark exactly this invite used by the caller or refuse and change nothing; a matching row that does not parse is refused as corrupt |
| Enrolment.RefusalSaysWhy | backend/src/auth/invites.rs:352-430 | each refusal of the consuming transaction happens exactly under its own condition, in the order of the checks |
| Enrolment.EnrolmentIsSafe | backend/src/auth/invites.rs:340-462 | over every interleaving and crash a token is spent at most once, by the user it is bound to, on a clock reading before its deadline, and every redeemed account has its own token spent earlier by that id |
| Enrolment.RedeemNeverOverwrites | backend/src/auth/invites.rs:436-459 | redeeming never touches an existing account, and an account it adds is a non-admin at version 0, logged with its token |
| Enrolment.FinishMakesTheAccount | backend/src/auth/invites.rs:436-462 | the last step makes exactly the account of its id and logs it if the id is free, and neither if it is not; the client is gone either way |
| Enrolment.RedeemSucceedsIff | backend/src/auth/invites.rs:340-462 | an uninterrupted redeem makes the account, spends the invite and logs both if the invite is redeemable, and changes nothing if not |
| Enrolment.OtherAccountWins | backend/src/auth/invites.rs:441-459 | an account made by other means between the two writes stays, and none is made from the spent invite |
| Enrolment.CrashedRedeemMakesNoAccount | backend/src/auth/invites.rs:320-326 | after a crash between the two writes no run ever makes an account from that invite |
| Enrolment.CommitSpendsIff | backend/src/auth/invites.rs:379-430 | the consuming transaction succeeds exactly for a readable, unused invite, bound to the caller and open at the caller's clock reading, with the id free |
| Enrolment.SpentAfterDeadline | backend/src/auth/invites.rs:351-410 | a client that read the clock in time and then waited spends the invite after its deadline |
| SidecarEdit.FileSystem.CommitWith | backend/src/process/sidecar_edit.rs:106-149 | the two loops give the files, stored items and result that RequestStoresExactly and the rollback laws describe, for every pattern of failures, with the staging file of every write and of a refused one |
| SidecarEdit.Untouched | backend/src/process/xmp_write.rs:227-238 | a write phase changes nothing but the sidecars it names and their staging names |
| SidecarEdit.StagingAfterAdvance | backend/src/process/xmp_write.rs:227-238 | after a write phase the staging name of a written sidecar is free and any other is as it was |
| SidecarEdit.FileSystem.RollBack | backend/src/process/sidecar_edit.rs:209-219 | restores the backups from the last to the first |
| SidecarEdit.RollbackRestores | backend/src/process/sidecar_edit.rs:106-219 | after a failed request every path whose earliest backup was restored, or that was never written, has its original bytes, even with shared sidecars and other restores failing, unless it is the staging name of a sidecar the request wrote or tried to write |
| SidecarEdit.FullRollbackIsExactIff | backend/src/process/sidecar_edit.rs:73-219 | when every restore succeeds a failed request leaves the whole filesystem byte-identical if and only if no file sat under the staging name of a sidecar it wrote and the refused write left its own staging name as it was, or a restore cleared it |
| SidecarEdit.RollbackLosesStagedName | backend/src/process/sidecar_edit.rs:106-219 | in a directory that holds .a.xmp.tmp, with or without a.xmp, a request whose second write is refused and whose restores succeed removes that file |
| SidecarEdit.RefusedWriteLeavesStagedName | backend/src/process/xmp_write.rs:227-238 | a refused write that got as far as staging leaves exactly that one file behind |
| SidecarEdit.FailedCommitChangesNothing | backend/src/process/sidecar_edit.rs:91-143 | a request that fails while writing, leaves no staged file and is fully restored changes no file and stores nothing, if no file sat under the staging name of a sidecar it wrote |
| SidecarEdit.CacheNeverAhead | backend/src/process/sidecar_edit.rs:106-149 | for every request stored items are a prefix of it and nothing is stored if any write failed; if its sidecars are distinct every stored edit is in its file, applied to the bytes from before the request |
| SidecarEdit.RequestStoresExactly | backend/src/process/sidecar_edit.rs:106-149 | a request succeeds exactly when every sidecar is written and every store succeeds; item k is stored exactly when all sidecars are written and the stores up to its own succeed; written sidecars then stay |
| SidecarEdit.PathlessIsOnlyStored | backend/src/process/sidecar_edit.rs:123-125 | items without a file touch no file |
| SidecarEdit.AlbumSidecars | backend/src/process/sidecar_edit.rs:62-68 | albums have a sidecar of their own per directory, shared only with media named .albuminfo; an item without a file has none |
| SidecarEdit.SidecarOfBareName | backend/src/process/sidecar_edit.rs:66-67 | a name without an extension is kept whole |
| SidecarEdit.SidecarOfHiddenName | backend/src/process/sidecar_edit.rs:66-67 | a leading dot starts no extension |
| SidecarEdit.LastWriterWins | backend/src/process/sidecar_edit.rs:118-143 | a shared sidecar holds the edit of the last item naming it |
| SidecarEdit.SharedSidecar | backend/src/process/sidecar_edit.rs:62-68 | files that differ only in extension share a sidecar |
| Expression.HiddenFilterRevealsOnlyView | backend/src/model/expression.rs:362-546 | the hiding filter answers alike on any two items with the same visible kind, extension, Make, Model, path presence and trash flag, and shared-album membership, for every expression |
| Expression.ViewIsExactlyWhatIsRevealed | backend/src/model/expression.rs:362-546 | two items have the same view if and only if no expression tells them apart |
| Expression.HidingOnlyNarrows | backend/src/model/expression.rs:68-546 | for expressions that negate only what hiding leaves unchanged, a hidden match on a consistent item is a full match |
| Expression.VisitorsSeeASubset | backend/src/model/expression.rs:68-546 | the same for every expression without negation |
| Expression.ExactIsUnchanged | backend/src/model/expression.rs:422-508 | on the fragment of still-allowed conditions both filters agree |
| Expression.NegatedTagEscapes | backend/src/model/expression.rs:387-420 | a negated tag condition matches hidden and not in full on exactly the items carrying the tag |
| Expression.NegationEscapesIff | backend/src/model/expression.rs:68-546 | for every single condition, on album items and on media of the shared album: whether some consistent item matches its negation hidden and not in full, decided by a table of conditions a caller can check |
| Expression.ConnectivesAreSetOperations | backend/src/model/expression.rs:70-92 | in both filters Or, And and Not are union, intersection and complement of what their parts find, empty ones included |
| Expression.TagSelects | backend/src/model/expression.rs:93-110 | a tag condition holds exactly for the tags an item has, whatever else it is |
| Expression.TrashedSelects | backend/src/model/expression.rs:111-125 | albums by their flag, media by their file's, neither without a file; hidden likewise |
| Expression.KindSelects | backend/src/model/expression.rs:126-132 | a kind condition finds the kinds whose names occur in it; hidden, no albums |
| Expression.ExtSelects | backend/src/model/expression.rs:133-144 | the extension of media only, as a piece of it ignoring ASCII case, in both filters |
| Expression.CameraSelects | backend/src/model/expression.rs:145-217 | Make and Model conditions read their own EXIF entry, of media only, in both filters |
| Expression.ExifSelects | backend/src/model/expression.rs:145-217 | entering or removing an EXIF entry decides the conditions on it and no others |
| Expression.PathSelects | backend/src/model/expression.rs:218-229 | the file of media only, as a piece of it ignoring ASCII case |
| Expression.AlbumSelects | backend/src/model/expression.rs:230-271 | a media item is in the album of the directory its file is directly in and in no other, whatever album is stored |
| Expression.RootOrOneParent | backend/src/model/expression.rs:272-294 | an album item is a root or has exactly one parent, a media item neither |
| Expression.AnyIsTheUnion | backend/src/model/expression.rs:295-355 | free text finds what the single conditions find, and also the id and the name of the kind |
| Expression.HiddenAnyIsTheUnion | backend/src/model/expression.rs:512-544 | hidden, free text finds what the still visible conditions find, on media only |
| Expression.HiddenAlbumSelects | backend/src/model/expression.rs:393-414 | a visitor can ask only for the shared album, answered by the stored one |
| DirAlbum.DirAlbumCache.GetOrCreate | backend/src/process/dir_album.rs:232-248 | at most one creation per directory; a failed write leaves no entry; with a fresh id it is the creating step of the runs below |
| DirAlbum.DirAlbumCache.Evict | backend/src/process/dir_album.rs:178-183 | the directory has no album, the evicted album no directory, every other lookup is as before; it is the evicting step of the runs below |
| DirAlbum.DirAlbumCache.DirOf | backend/src/process/dir_album.rs:162-174 | finds a directory of the album exactly when there is one |
| DirAlbum.DirAlbumCache.RewritePrefix | backend/src/process/dir_album.rs:189-202 | re-keys every matching entry, in some iteration order; it is the moving step of the runs below |
| DirAlbum.LookupsStayInverse | backend/src/process/dir_album.rs:139-248 | over every run of creations, evictions and moves no two directories share an album, so the two lookups stay inverse |
| DirAlbum.ConservesIff | backend/src/process/dir_album.rs:189-202 | a move keeps every album in every iteration order if and only if it goes nowhere or no entry's new place is already cached |
| DirAlbum.OrderDoesNotMatter | backend/src/process/dir_album.rs:189-202 | without such a collision every iteration order gives the same cache |
| DirAlbum.ParentsAreKept | backend/src/process/dir_album.rs:139-202 | with nothing cached at or beneath the target every album keeps its parent |
| DirAlbum.ParentIsOneUp | backend/src/process/dir_album.rs:139-146 | the parent is the album of the directory one component up: none at the top, set by creating there, cleared by evicting there, unmoved by either elsewhere |
| DirAlbum.MoveBackRestores | backend/src/process/dir_album.rs:189-202 | moving a subtree into free space and back restores the cache, whatever the orders |
| Revocations.RevocationTable.RevokeKey | backend/src/auth/revocations.rs:62-95 | drops the expired rows, keeps unreadable ones, and files the new revocation |
| Revocations.RevocationTable.IsKeyRevoked | backend/src/auth/revocations.rs:100-115 | a database that cannot be read denies, a missing table or row does not; unreadable rows deny, expired ones do not |
| Revocations.RevocationTable.Clear | backend/src/auth/revocations.rs:123-147 | leaves no row |
| Revocations.PrunedTableMatchesLog | backend/src/auth/revocations.rs:62-147 | with a clock that never goes back the table answers like a never-pruned last-write-wins log, over every run |
| Revocations.PruningVisibleIff | backend/src/auth/revocations.rs:71-114 | under any clock table and log differ exactly on a key whose last word was pruned and is asked for before its expiry |
| Revocations.ClockSetBackRestores | backend/src/auth/revocations.rs:71-114 | a second revocation made at the expiry of the first prunes it, and with the clock set back before that expiry the first key is usable again |
| Revocations.TableHoldsUnforgotten | backend/src/auth/revocations.rs:62-147 | under any clock the table holds exactly the last words not pruned since |
| Revocations.RevokeTakesEffect | backend/src/auth/revocations.rs:62-115 | a revocation holds exactly until its expiry, replacing any earlier one, and no other key answers differently from then on |
| Revocations.UnreadableAlwaysDenies | backend/src/auth/revocations.rs:71-113 | a row that cannot be read denies at every time and survives every pruning |
| SpecPath.ToSpecPath | backend/src/spec_path.rs:30-50 | drops the query and emits the translation of the path |
| SpecPath.ScanDeclarations | backend/src/spec_path.rs:76-101 | reads every complete declaration and passes an unterminated rest through |
| SpecPath.PrintedRouteTranslates | backend/src/spec_path.rs:30-101 | every printed route, with any query and any incomplete tail, translates to the OpenAPI template printed from the same parts |
| SpecPath.EveryPathIsPrinted | backend/src/spec_path.rs:76-101 | every path is such a print, so the translation is specified on all URIs |

## Left out

- `select_client_ip` and `throttle_key`: address parsing from the standard library, with little around it.
- Trimming and validation of user ids and passwords, and `resolve_expiry`: checks before the transactions, easy on their own.
- A user store that cannot be read while redeeming: `read` then reports no account; the model's stores are always readable, and a failed last step is a crash.
- Password hashing, token generation, constant-time comparison: a token hash is taken as an injective key and fresh tokens and ids as never repeating.
- Database internals, JSON text, file permissions, process locks: a transaction is atomic and a row is a small value.
- The XMP packet and its parser: what the writer puts in a sidecar is a parameter.
- Spelling variants of paths in the sidecar and album modules: a path is a directory and a name, or its components.
- Non-ASCII behaviour of text search: only ASCII case is folded, as in the source.
- `PENDING_ALBUM_UPDATES`, album creation in the database, album titles: no law beyond set insertion and string replacement.
- Listing functions, error texts and their mapping to responses, logging, configuration, routes and the frontend.
