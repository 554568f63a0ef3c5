# Verified model of the RustDesk API server's core

A Dafny 4.11 model of the stateful core of the server, with proofs of what that core keeps. Each
component is modelled twice: once in the form the source has (classes whose methods change maps,
lists and rows, loops with invariants) and once as plain functions on values. The methods are proved
against the functions, and the theorems about whole runs are proved about the functions. Where a
theorem would otherwise rest on such a function alone, it is stated from the events or the columns
(`CacheOrder.dfy`, `TokenRuns.dfy`, `PresenceSpec.LiveExactlyByHeartbeat`, `LimiterSpec.StatusFromEvents`,
`Registry.Store.CreateThenClaim`, `AccountEffects`).

`dafny verify dfyconfig.toml` checks everything.

| component | files |
|---|---|
| TTL and LRU memory cache: map, recency list and expiration heap in agreement, byte budget | `PriorityQueue.dfy`, `RecencyList.dfy`, `CacheSpec.dfy`, `MemoryCache.dfy`, `CacheRuns.dfy`, `CacheOrder.dfy` |
| Presence Lease v2: activation register, leases, the cached online scalar | `Presence.dfy`, `PresenceStore.dfy` |
| SP1 pairing registry: claims, rotation, instance UUIDs, generation | `Pairing.dfy`, `RegistrySpec.dfy`, `Registry.dfy` |
| Generation-tagged provider cache under concurrent writers and refreshers | `ProviderRefresh.dfy` |
| Authentication versions, and the last-super-administrator lock over interleaved transactions | `Accounts.dfy`, `AuthRuns.dfy`, `TokenRuns.dfy`, `AdminLock.dfy` |
| Login limiter as a pruned form of a full failure log | `LoginLimiter.dfy` |
| TOTP two-factor login: replay protection and one-shot challenges (RFC 4226, RFC 6238) | `Totp.dfy`, `TwoFactorSpec.dfy`, `TwoFactorRuns.dfy`, `TwoFactor.dfy` |
| Peer identity binding, tag and address-book synchronisation | `Identity.dfy`, `PeerBinding.dfy`, `TagSync.dfy`, `AddressBook.dfy` |
| Base64 (RFC 4648) and the reversed client configuration string | `Base64.dfy`, `ClientConfig.dfy` |
| Shared facts about sequences, maps and optional values | `Sequences.dfy`, `Maps.dfy`, `Wrappers.dfy` |

## Conventions

- A table is a map from primary key to row. A database transaction, and a method body under a mutex,
  is one atomic step; where the interleaving of smaller steps is the point (`AdminLock.dfy`,
  `ProviderRefresh.dfy`, `AuthRuns.dfy`) the smaller steps are events of a state machine.
- The clock, random secrets and tokens, and results of foreign calls are arguments.
- The hash of pairing claims is an arbitrary function: the theorems name the two or three texts on
  which it must not collide. Lease and login tokens are compared as if their digest were the token.
  The TOTP MAC is an arbitrary function to 20 bytes, AES-GCM the identity.
- A ghost log, where a class has one, records what the tables forget.

## Where the code does less than its comments or callers suggest

Each of these is proved, with the exact condition under which the code does what is promised.

- `RemoveOldest` spins when the list is empty and the counter is still too high. Overwriting a live
  key charges its old size a second time, so this happens exactly when that drift plus the size of a
  value that would fit exceeds the limit (`CacheRuns.SetHangsExactlyOnDrift`).
- The limiter compares with a negative captcha threshold directly, although its comment says negative
  means off (`LimiterSpec.CaptchaAnswerAsDocumented`).
- The activation register depends on arrival order exactly when the highest epoch was used with two
  ids (`PresenceSpec.OrderIndependence`).
- A version of zero is written back as one at login, which lowers a version that was raised in
  between; positive versions are exactly what token revocation needs
  (`AuthRuns.SafeExactlyWhenPositive`). An update request that carries a version writes it back too,
  as the LDAP sync does with the whole user row; that is harmless exactly when the version is not
  older (`AuthRuns.SafeExactlyWhenUpdateKeepsVersion`, `AuthRuns.StalePayloadResurrects`).
- Local administrator recovery does not take the invariant lock, so where no super administrator was
  left it can be undone by an update in flight (`AdminLock.RecoveryCanBeUndone`).
- The claim preimage joins fields by line feeds, so the shape checks alone admit two different claims
  with one digest (`Pairing.LineFeedsBreakTheBinding`). One digest means one claim exactly while
  enrollment ids have at most 72 characters (`Pairing.BindingHoldsExactlyUpTo72`); the registry is
  safe because it parses ids as UUIDs (`Registry.Store.ShapedClaimsAreBound`).
- A pairing code accepts a spelling of its secret that no claim can use; a secret is usable exactly
  when it is canonical (`Pairing.CodesAcceptUnusableSecrets`).
- `updateAddressBook` leaves hidden duplicates behind, and creates an entry with an empty id under the
  column's default `0` (`AddressBookSpec.HoldsExactlyWhenClean`).

## Model

| member | source | states |
|---|---|---|
| `Heaps.RootIsMinimum` | lib/cache/memory.go:34-36 | in a heap ordered by deadline no slot is earlier than slot 0 |
| `PriorityQueues.PriorityQueue.Swap` | lib/cache/memory.go:38-42 | two slots trade places and every item still knows its own slot |
| `PriorityQueues.PriorityQueue.Push` | lib/cache/memory.go:44-48 | the new item joins the members; back-pointers and heap order hold again |
| `PriorityQueues.PriorityQueue.Fix` | lib/cache/memory.go:117-121 | re-timing one item leaves the same members, right back-pointers and heap order |
| `PriorityQueues.PriorityQueue.Pop` | lib/cache/memory.go:50-57 | cuts off the last slot, hands its item out with slot -1 and leaves the others indexed |
| `PriorityQueues.PriorityQueue.Remove` | lib/cache/memory.go:185-190 | takes out exactly the item of that slot; the rest is a heap with right back-pointers |
| `PriorityQueues.PriorityQueue.FirstExpiresFirst` | lib/cache/memory.go:153-157 | no member expires before the item in slot 0 |
| `RecencyLists.RecencyList.MoveToBack` | lib/cache/memory.go:82-83 | the node goes to the back, all others keep their order, no key appears twice |
| `MemoryCaches.MemoryCache.Get` | lib/cache/memory.go:60-90 | map, list and heap agree before and after; the result and the new contents are those of one sequence of entries, in which a hit goes to the back |
| `MemoryCaches.MemoryCache.Set` | lib/cache/memory.go:92-135 | the same for every outcome of Set, with the expiry in wrapped 64-bit nanoseconds |
| `MemoryCaches.MemoryCache.RemoveOldest` | lib/cache/memory.go:137-147 | drops from the front until the counter fits, and returns exactly when it then fits |
| `MemoryCaches.MemoryCache.evictExpiredItems` | lib/cache/memory.go:149-160 | popping the heap while its head is due leaves exactly the unexpired entries in their order |
| `MemoryCaches.MemoryCache.deleteItem` | lib/cache/memory.go:185-190 | the item leaves list, heap and map together, and the counter drops by its size |
| `MemoryCaches.MemoryCache.Gc` | lib/cache/memory.go:192-201 | empties all three indexes and the counter, keeping the limit |
| `CacheRuns.LiveNeverExceedsUsedInRuns` | lib/cache/memory.go:104-111 | over every run of Set, Get, eviction and Gc the live bytes never exceed the counter and no key is held twice |
| `CacheRuns.SetDrifts` | lib/cache/memory.go:108 | a stored Set charges the old entry of an overwritten live key a second time, and drifts by nothing otherwise |
| `CacheRuns.StepDrifts` | lib/cache/memory.go:104-111 | what every event adds to the drift: an overwrite its old entry, a Set that never returns its own bytes, Gc clears it, everything else nothing |
| `CacheRuns.SetHangsExactlyOnDrift` | lib/cache/memory.go:137-147 | Set never returns if and only if the value fits the limit but accumulated drift plus its size does not |
| `CacheRuns.OverwritesCanHang` | lib/cache/memory.go:104-111 | four writes to a 20-byte cache after which RemoveOldest spins |
| `CacheRuns.ExactWithoutOverwrites` | lib/cache/memory.go:104-111 | runs that never overwrite a live key keep the counter exact, so no Set hangs |
| `CacheRuns.TrimDropsShortestPrefix` | lib/cache/memory.go:137-147 | what RemoveOldest drops is the shortest least-recently-used prefix that makes the rest fit |
| `CacheRuns.StoredFitsTheLimit` | lib/cache/memory.go:105-111 | after a successful bounded Set the live bytes are within the limit and the entry is the most recent |
| `CacheRuns.GetReturnsTheLastSet` | lib/cache/memory.go:60-90 | with no byte limit, Get at t returns the last value set while its deadline is after t and nothing once it is before t, however evictions interleave |
| `CacheRuns.EvictionRemovesExactlyTheExpired` | lib/cache/memory.go:149-160 | an entry survives eviction if and only if its deadline is after now; the drift stays |
| `CacheOrder.EntriesStandByLastUse` | lib/cache/memory.go:82-130 | over every run of Set, Get, eviction and Gc, entries stand in the order of their last storing or hit, taken from the events alone |
| `CacheOrder.EvictsTheLeastRecentlyUsed` | lib/cache/memory.go:137-147 | in every run, whatever a Set evicts was used before everything that it keeps |
| `CacheOrder.HeldIsLastStored` | lib/cache/memory.go:92-135 | under any byte limit and over any run, what is held under a key is value and deadline of its last fitting Set since the last Gc |
| `CacheOrder.GetIsNeverStale` | lib/cache/memory.go:60-90 | a Get answers only with the last value set, and only up to its deadline; a miss means the key is held no more |
| `CacheOrder.SetOutcomes` | lib/cache/memory.go:92-111 | how a Set ends, from sizes, limit and drift alone: stored, too large, or not encodable |
| `CacheOrder.SetLastsForItsSeconds` | lib/cache/memory.go:112-115 | an entry set for n seconds is returned for n seconds to the nanosecond, and then no more |
| `PresenceSpec.ArrivalsAreCalledFor` | service/presence.go:119-150 | in any arrival order the activation register ends at the highest epoch, with an id given for it, retired exactly when that pair was deactivated |
| `PresenceSpec.OrderIndependence` | service/presence.go:314-327 | every permutation of the requests ends in one register if and only if the highest epoch carries one id |
| `PresenceSpec.RegisterFollowsRequests` | service/presence.go:85-333 | renewals and ends leave the register alone: in any run it is what the starts and deactivations arrive at |
| `PresenceSpec.RunsAgreeInAnyOrder` | service/presence.go:119-132 | two runs with the same starts and deactivations in any order, whatever comes between, end in one register when the top epoch carries one id |
| `PresenceSpec.RegisterOnlyRises` | service/presence.go:119-132 | over any run the epoch never falls, an epoch keeps its id, and a retired activation never comes back or holds a lease |
| `PresenceSpec.OnlineMeansHeartbeat` | service/presence.go:164-231 | a live lease rests on an accepted start or renewal of the current activation 45 seconds before its expiry, not ended since |
| `PresenceSpec.LiveExactlyByHeartbeat` | service/presence.go:85-333 | over any run, a lease is live until 45 seconds after its last accepted start or renewal, exactly while that names the current, un-retired activation and no end came after |
| `PresenceSpec.OnlineExactlyByHeartbeat` | service/presence.go:335-341 | a device is online at t if and only if some lease had such a heartbeat less than 45 seconds before; acceptance is decided from register, lease and clock, without the operations |
| `PresenceStores.OnlineExactlyWhileLeased` | service/presence.go:335-346 | once v2 was used, IsOnlineAt(t) holds if and only if some un-ended lease of the current activation expires after t |
| `PresenceStores.LegacyAnswer` | service/presence.go:339-345 | without a live lease: online for 60 seconds after the last heartbeat, and never within 90 seconds after v2 was seen |
| `PresenceStores.SamePresenceSameAnswers` | service/presence.go:263-284 | a request that leaves the presence of a device as it was, such as one of an older activation, changes no later online answer |
| `PresenceStores.FallbackWindowsLeaveNoGap` | service/presence.go:342-345 | two fallback windows leave no instant uncovered if and only if the legacy one is at most a second longer, as 60 and 90 are |
| `PresenceStores.PresenceStore.activePresenceUntil` | service/presence.go:416-426 | the result is the latest expiry over un-ended, unexpired leases of the current activation, or 0 without one |
| `PresenceStores.PresenceStore.FindLease` | service/presence.go:428-437 | finds the lease of this token, peer and activation, and reports none only if there is none |
| `PresenceStores.PresenceStore.StartPresenceLease` | service/presence.go:85-162 | accepted exactly when the register allows it; a higher epoch ends every older lease, and no start ends one of its own activation; the new row expires 45 seconds later; the cached scalar equals the aggregate; errors change nothing |
| `PresenceStores.PresenceStore.RenewPresenceLease` | service/presence.go:164-231 | accepted exactly for an unexpired lease of the current, un-retired activation; the row of that lease, and no other, expires 45 seconds later, and the cached scalar reaches at least there |
| `PresenceStores.PresenceStore.EndPresenceLease` | service/presence.go:233-290 | ends that lease alone; with an older activation the presence of the device is unchanged |
| `PresenceStores.PresenceStore.DeactivatePresenceActivation` | service/presence.go:292-333 | refused when stale without a change; otherwise retires the activation, ends all its leases and clears the scalar |
| `Base64.RoundTrip` | internal/servercontrolregistry/types.go:59-72 | decoding an encoding gives the bytes back, for both alphabets, padded or not |
| `Base64.SymbolsStandInTheTable` | internal/servercontrolregistry/types.go:71 | each symbol is the one at its index in tables 1 and 2 of RFC 4648 |
| `Base64.QuantumIsOneNumber` | internal/servercontrolregistry/types.go:71 | a quantum read in base 64 is its three bytes read in base 256 |
| `Base64.EncodeInjective` | service/presence.go:382-389 | different credentials never share a spelling |
| `Base64.CanonicalIsImage` | service/presence.go:372-380 | the re-encoding check accepts exactly the spellings the encoder produces for that many bytes |
| `Base64.TrailingBitsAreIgnored` | internal/servercontrolregistry/types.go:63-64 | in every text and encoding, decoding ignores exactly the unused bits of the last symbol |
| `Base64.CanonicalExactly` | internal/servercontrolregistry/types.go:186-193 | the re-encoding check accepts exactly the texts that decode to that many bytes, stand on one line and leave unused bits zero |
| `Base64.LineBreaksAreSkipped` | internal/servercontrolregistry/types.go:63-64 | a line feed or carriage return anywhere changes nothing for decoding |
| `ClientConfig.BackwardsTwice` | service/rustdesk_client_config.go:50-60 | reversing twice restores the text |
| `ClientConfig.EncodeRustDeskServerConfig` | service/rustdesk_client_config.go:50-60 | the two-index loop reverses the encoding in place, and reversing and decoding recovers the payload |
| `Pairing.LinesInjective` | internal/servercontrolregistry/types.go:201-219 | joining fields by line feeds is injective when all but the last are single lines |
| `Pairing.DigestPreimage` | internal/servercontrolregistry/types.go:201-219 | the digest is the hash of eight lines, the first naming the frozen version |
| `Pairing.ShapedExactly` | internal/servercontrolregistry/types.go:221-244 | a claim is well shaped if and only if purpose and action go together, its digests are spelled as digests, its CSR is 1 to 32768 long, its secret spells 32 bytes canonically, it names an instance exactly as a control agent, and its digest is its own |
| `Pairing.DigestBindsTheClaim` | internal/servercontrolregistry/types.go:201-244 | two well-shaped claims with one digest are the same claim if and only if their enrollment ids are equally long |
| `Pairing.LongerIDSwallowsADigest` | internal/servercontrolregistry/types.go:208-216 | where one of the two ids is longer, it is longer by at least 72 characters |
| `Pairing.BindingHoldsExactlyUpTo72` | internal/servercontrolregistry/types.go:201-244 | one digest means one claim for all enrollment ids up to a length if and only if that length is at most 72 |
| `Pairing.LineFeedsBreakTheBinding` | internal/servercontrolregistry/types.go:208-216 | for any hash, two different well-shaped claims with one digest, their ids 1 and 73 characters long |
| `Pairing.TheAssumptionsCanBeMet` | internal/servercontrolregistry/types.go:195-244 | a hash and two claims that meet what these results assume |
| `Pairing.OneSpellingPerSecret` | internal/servercontrolregistry/types.go:186-193 | a digest exists for exactly one spelling of each 32-byte secret; two secrets share one only on a collision of the hash |
| `Pairing.CodeRoundTrip` | internal/servercontrolregistry/types.go:59-72 | the payload text is read back from a pairing code, so two payloads with one code have one text |
| `Pairing.EncodesExactly` | internal/servercontrolregistry/types.go:59-66 | which payloads have a code: version 1, a known purpose, both digests, a 32-byte secret and a deadline after the epoch |
| `Pairing.CodesAcceptUnusableSecrets` | internal/servercontrolregistry/types.go:59-72 | Encode also accepts a spelling of the secret that no claim can use; a secret is usable if and only if it is canonical |
| `Registry.Store.CreateEnrollment` | internal/servercontrolregistry/registry.go:249-327 | succeeds exactly when the input is complete, no active enrollment holds the managed id after lapsed ones expired, and the action fits the managed row; the row holds every column of the input, its recovery time at most ten minutes; keeps the joint invariant; errors change nothing |
| `Registry.FreeExactlyWhenReleased` | internal/servercontrolregistry/registry.go:270-295 | a managed id is free exactly when each of its active enrollments is a pending one past its deadline or a bound one past its recovery time |
| `Registry.ReleaseExactly` | internal/servercontrolregistry/registry.go:276-283 | what expiring lapsed enrollments does to every row |
| `Registry.Store.RefuseClaim` | internal/servercontrolregistry/registry.go:329-372 | passes exactly the well-shaped claims that match an enrollment neither revoked nor expired, and says when a claim is unknown, revoked, expired or carries the wrong secret |
| `Registry.Store.BeginClaim` | internal/servercontrolregistry/registry.go:329-407 | succeeds exactly on a pending enrollment, or as a replay of the same claim within the recovery window, which changes nothing |
| `Registry.Store.CreateThenClaim` | internal/servercontrolregistry/registry.go:249-407 | after an accepted create a shaped claim succeeds if and only if purpose, action, configuration digest and secret are those of the input, the target fits and the deadline is ahead; the same claim replays exactly until the clamped recovery time after it was bound |
| `Registry.Store.ShapedClaimsAreBound` | internal/servercontrolregistry/registry.go:329-340 | among claims whose ids parse as UUIDs one digest always means one claim |
| `Registry.Store.CompleteControlClaim` | internal/servercontrolregistry/registry.go:409-463 | succeeds exactly for the bound instance when no other id has it, upserts the row and closes the enrollment; a replay of the same identity changes nothing |
| `Registry.Store.CompleteRelayClaim` | internal/servercontrolregistry/registry.go:465-480 | closes a bound relay enrollment once; a replay changes nothing |
| `Registry.Store.RevokeEnrollment` | internal/servercontrolregistry/registry.go:482-497 | revokes exactly pending and bound enrollments |
| `Registry.Store.SetManagedReadOnly` | internal/servercontrolregistry/registry.go:555-579 | changes the access mode alone, stamped with the new generation |
| `RegistrySpec.InstanceNeverChanges` | internal/servercontrolregistry/registry.go:270-313 | over every run a managed id keeps its row and its instance UUID |
| `RegistrySpec.InstancesNeverShared` | internal/servercontrolregistry/registry.go:933 | over every run two managed ids never have one instance UUID, even at different times |
| `RegistrySpec.EnrollmentHistory` | internal/servercontrolregistry/registry.go:474-497 | an enrollment moves only pending to bound to claimed, or to revoked or expired, and its first claim is never rewritten |
| `RegistrySpec.SuccessfulClaimsAgree` | internal/servercontrolregistry/registry.go:346-406 | all claims that succeed on one enrollment carry one digest, key, CSR digest and instance, and one CSR unless the hash collides |
| `RegistrySpec.GenerationNeverFalls` | internal/servercontrolregistry/registry.go:641-674 | the generation never falls, and equal generations mean equal tables |
| `ProviderCaches.ProviderCache.Clear` | service/starryControl.go:906-910 | the first loop forgets exactly the managed ids |
| `ProviderCaches.ProviderCache.Apply` | service/starryControl.go:899-946 | leaves the cache alone when the tag matches, and otherwise holds exactly the rows no static id hides, with their problems |
| `RefreshProtocol.StepStaysGood` | service/starryControl.go:873-947 | every step of interleaved writers and refreshers keeps: carried rows are current if their generation is |
| `RefreshProtocol.TagAlwaysCertifies` | service/starryControl.go:873-947 | in every reachable state a current tag means the cached entries are exactly the current rows not colliding with static ids |
| `RefreshProtocol.UndisturbedRefreshCatchesUp` | service/starryControl.go:911-946 | a refresh with no commit in between leaves a certified cache |
| `RefreshProtocol.StaticEntriesUntouched` | service/starryControl.go:906-916 | static entries and providers come through every run unchanged |
| `RefreshProtocol.RowsFirstWouldMislead` | service/starryControl.go:873-880 | reading rows before the generation would certify stale rows after one commit |
| `AccountStores.AccountStore.getAdminUserCount` | service/user.go:1090-1094 | counts the enabled users whose stored role is super administrator |
| `AccountStores.AccountStore.revokeUserTokens` | service/user.go:801-804 | revokes every token of the user and no other |
| `AccountStores.AccountStore.bumpAuthVersionAndRevoke` | service/maintenance.go:311-323 | raises the version by one and revokes all tokens of the user; without a row it fails and changes nothing |
| `AccountStores.AccountStore.UpdateContext` | service/user.go:528-629 | refuses to take the last enabled super administrator, writes role and status, and bumps on a role change or disabling |
| `AccountStores.AccountStore.DeleteContext` | service/user.go:433-521 | refuses to delete the last enabled super administrator; otherwise the user goes and its tokens are revoked |
| `AccountStores.AccountStore.RecoverAdministrator` | service/maintenance.go:143-180 | restores role and status, bumps the version and revokes |
| `AccountEffects.RequestedRoles` | service/user.go:556-573 | which role an update asks for, from the named role and the legacy flag |
| `AccountEffects.UpdateSucceedsExactly` | service/user.go:528-607 | an update is refused for an unknown status or user, and for taking an enabled super administrator while at most one is counted, and for nothing else |
| `AccountEffects.UpdateWrites` | service/user.go:573-629 | what an accepted update leaves in every column of both tables: only the user itself, and its tokens alone when it bumps |
| `AccountEffects.DeleteExactly` | service/user.go:433-521 | when a delete succeeds, and that it removes one row and revokes exactly its tokens |
| `AccountEffects.RecoverWrites` | service/maintenance.go:143-180 | what recovery leaves in every column |
| `AccountStores.AccountStore.FindToken` | service/user.go:121-128 | prefers a row by hash and falls back to plain text only without one |
| `AccountStores.AccountStore.AuthenticateAccessToken` | service/user.go:99-154 | a user comes back only through an unrevoked, unexpired row of the current version of an enabled user that fits the presented token; a row alone with its hash decides both ways, on its columns |
| `AuthRuns.SupersededTokensStayDead` | service/user.go:163-277 | in every run whose updates write no older version back, no token of a superseded version authenticates, including rows stored later by logins that read the user before |
| `AuthRuns.BumpKillsEarlierTokens` | service/maintenance.go:311-323 | after a bump every token of the old version or an older one is dead in every continuation |
| `AuthRuns.AuthorityChangeKillsEarlierTokens` | service/user.go:616-627 | whatever step changes a role, disables or removes a user, no earlier token of that user authenticates in any continuation |
| `AuthRuns.SafeExactlyWhenPositive` | service/user.go:167-172 | the guarantee holds for all runs if and only if no row, and no unissued login of an existing user, holds version zero |
| `AuthRuns.UpdateLowersExactly` | service/user.go:608 | an update lowers a version if and only if it carries an older non-zero one, counted with its bump |
| `AuthRuns.SafeExactlyWhenUpdateKeepsVersion` | service/user.go:608-627 | an update is followed by no revival of a superseded token, in any continuation, if and only if it carries no older version |
| `AuthRuns.StalePayloadResurrects` | service/ldap.go:256-269 | a request that writes back the version it read undoes a recovery in between and brings a token back |
| `TokenRuns.DeadRowsStayDead` | service/user.go:141-143 | a row revoked at any earlier state authenticates in no continuation, and none does from its expiry on |
| `TokenRuns.LogoutKillsOne` | service/user.go:402-417 | a single logout kills that token in every continuation and leaves every other as it was |
| `TokenRuns.TokenLivesExactly` | service/user.go:141-153 | over any run whose requests carry no older version, a live row authenticates exactly before its expiry, while its user is there, enabled and of its version, unless that row itself was revoked |
| `TokenRuns.LoginLives` | service/user.go:163-277 | reading a user, issuing and storing adds one row of the version the user has, which then lives exactly so |
| `AdminLock.StepKeepsSuper` | service/user.go:1096-1107 | every step of interleaved transactions keeps an enabled super administrator and that no holder can take the last one |
| `AdminLock.SomeSuperAlwaysRemains` | service/user.go:549-610 | once one exists and no transaction is past taking the lock, an enabled super administrator remains in every run of commits, aborts and recoveries |
| `AdminLock.SuperRemainsExactlyWhenGuarded` | service/user.go:594-602 | from any state it remains in all runs if and only if the lock holder did not decide from a row read while none existed |
| `AdminLock.UndisturbedIsAtomic` | service/user.go:445-463 | lock, read, count and commit, undisturbed, do what the atomic update or delete does |
| `AdminLock.RecoveryCanBeUndone` | service/maintenance.go:143-154 | recovery takes no lock: an update that read its target before can take the recovered role away |
| `AdminLock.WithoutTheLockBothGo` | service/user.go:455-463 | without the lock two deletes that each count two leave none |
| `LoginLimiters.LoginLimiter.RecordFailedAttempt` | utils/login_limiter.go:92-120 | the pruned maps answer as a log that forgets nothing, whose content `LimiterSpec.LogIsTheCount` states: the failure is noted, and the one that reaches the threshold bans |
| `LoginLimiters.LoginLimiter.CheckSecurityStatus` | utils/login_limiter.go:204-223 | both answers equal those computed from the full log |
| `LoginLimiters.LoginLimiter.isBanned` | utils/login_limiter.go:241-251 | equals the full ban record; dropping a lapsed ban is invisible |
| `LoginLimiters.LoginLimiter.pruneAttempts` | utils/login_limiter.go:262-275 | keeps exactly the attempts after the cutoff in order and touches no other address |
| `LoginLimiters.LoginLimiter.banIP` | utils/login_limiter.go:253-260 | bans until the given end and forgets attempts and captcha |
| `LoginLimiters.LoginLimiter.RequireCaptcha` | utils/login_limiter.go:123-154 | purges expired captchas, refuses at capacity, stores the generated one until now plus its expiration |
| `LoginLimiters.LoginLimiter.VerifyCaptcha` | utils/login_limiter.go:157-185 | accepts an open captcha with the right answer at most once |
| `LoginLimiters.LoginLimiter.cleanupExpired` | utils/login_limiter.go:285-307 | the sweep drops exactly what has lapsed, and changes no entry of the full log, so no later answer |
| `LimiterSpec.AfterAfter` | utils/login_limiter.go:262-275 | pruning twice with a later cutoff equals pruning once |
| `LimiterSpec.CaptchaAnswerAsDocumented` | utils/login_limiter.go:11 | the captcha answer matches the comment if and only if the threshold is not negative, bans are off or the address is banned |
| `LimiterSpec.FailuresStayBelowTheThreshold` | utils/login_limiter.go:92-120 | at its last failure an address that is not being banned is below the threshold |
| `LimiterSpec.ThresholdBans` | utils/login_limiter.go:92-120 | the failure that reaches the threshold bans for exactly the duration through any run of further failures and resets, and none of them counts |
| `LimiterSpec.BansAreEarned` | utils/login_limiter.go:108-119 | over any run an address is banned only by a failure with which enough of its failures fell into one window |
| `LimiterSpec.LogIsTheCount` | utils/login_limiter.go:92-120 | over any run with limiting on, the failures in any window are exactly the failure events of the address after its last reset and its last ban, and outside that ban; it is banned exactly until its last ban ends |
| `LimiterSpec.LastBanExactly` | utils/login_limiter.go:113-117 | the last ban is the last failure outside any ban with which as many failures as the threshold count in its window; there is one if there is any such failure |
| `LimiterSpec.StatusFromEvents` | utils/login_limiter.go:204-223 | both answers after any run, from its failures and resets alone, including limiting off and the banned answer |
| `Totp.TruncatedByBytes` | service/two_factor.go:356-357 | the truncation equals the one of section 5.3 of RFC 4226 with the top bit masked |
| `Totp.OneCodePerValue` | service/two_factor.go:341-344 | exactly one acceptable six-digit code spells each value |
| `Totp.StepsAreThirtySeconds` | service/two_factor.go:345 | which instants a step covers: thirty seconds, twice that around the epoch |
| `Totp.verifyTOTP` | service/two_factor.go:340-363 | returns the earliest step within one of the clock and beyond the last used one that the code fits, or none if none fits |
| `TwoFactors.TwoFactorService.BeginSetup` | service/two_factor.go:123-158 | its three statements, undisturbed, leave the drawn secret pending for ten minutes unless already enabled |
| `TwoFactors.TwoFactorService.writePending` | service/two_factor.go:148-150 | on its own, writes the pending secret to the row that was found, whatever has become of it, and nowhere else |
| `TwoFactors.TwoFactorService.ConfirmSetup` | service/two_factor.go:160-200 | enables exactly on a fitting code for an unexpired pending secret ; the pending secret becomes the secret, its step the last used one, and no other row changes |
| `TwoFactors.TwoFactorService.Disable` | service/two_factor.go:202-239 | exactly on a fitting, unused code: the row is then disabled and without secrets |
| `TwoFactors.TwoFactorService.CreateLoginChallenge` | service/two_factor.go:241-262 | drops expired challenges and opens one with its binding and deadline |
| `TwoFactors.TwoFactorService.CompleteLoginChallenge` | service/two_factor.go:264-316 | succeeds exactly on an open challenge with its own binding and an unused code; counts every evaluation; marks the challenge used and raises the last used step |
| `TwoFactors.TwoFactorService.ResetTwoFactorMaintenance` | service/maintenance.go:247-256 | removes factor and challenges of an existing user |
| `TwoFactorRuns.NoStepIsAcceptedTwice` | service/two_factor.go:181-232 | over any run, with other transactions between the statements of a setup, the steps accepted for one secret at setup, login and disable strictly increase |
| `TwoFactorRuns.AcceptedCodesAreCurrent` | service/two_factor.go:346-361 | every accepted code is the one-time password of a step within one of the clock's |
| `TwoFactorRuns.ChallengesAreOneShot` | service/two_factor.go:276-307 | each challenge evaluates at most five codes, succeeds at most once and then never again, and only for its own account name, binding and deadline |
| `TwoFactorRuns.EnabledFactorsHaveUsers` | service/two_factor.go:309-312 | an enabled factor always belongs to an existing user, so no fitting login code is rolled back uncounted |
| `Identities.NormalizeFixes` | utils/rustdesk.go:8-22 | exactly the ids without white space and invisible marks are left alone |
| `Identities.NormalizeJoins` | utils/rustdesk.go:14-22 | every character is kept or dropped by itself, in its place: normalizing a joined text joins the normalized parts |
| `Identities.NormalizeIsIdempotent` | utils/rustdesk.go:8-22 | normalizing twice changes nothing more |
| `PeerServices.PeerService.BindLoginIdentity` | service/peer.go:120-173 | the branches decide as one condition: the claim meets at most one row by id or UUID and that row does not contradict it; conflicts change nothing |
| `PeerServices.PeerService.BindRegistryIdentity` | service/peer.go:179-241 | the same condition, with any owner fitting an anonymous report |
| `PeerServices.PeerService.bindMigratedNativePeer` | cmd/apimain.go:608-650 | the same condition without normalization or early return |
| `PeerBindingSpec.BindKeepsUnique` | service/peer.go:134-172 | a bind keeps ids and non-empty UUIDs unique and never changes a non-empty UUID or a non-zero owner |
| `PeerBindingSpec.BindSucceedsExactly` | service/peer.go:120-172 | a bind succeeds if and only if no two rows have the id or UUID and the one that has, if any, has no other UUID and no other owner |
| `PeerBindingSpec.BindEstablishes` | service/peer.go:145-172 | after success one row alone has the id, and the same row alone the UUID |
| `PeerBindingSpec.RebindRefreshes` | service/peer.go:155-158 | binding an established pair again only refreshes source and time |
| `PeerBindingSpec.MigratedIsLoginExactlyOnNormalizedInput` | cmd/apimain.go:608-650 | migration and login agree on every table if and only if the input is normalized and non-empty |
| `PeerBindingSpec.BindingsAreForGood` | service/peer.go:120-241 | over any run of binds uniqueness holds and bound UUIDs and owners stay |
| `TagSync.TagService.updateTags` | service/tag.go:42-82 | afterwards the user's personal tags are one row per requested name with its colour, even over stored duplicates; rows of other users or collections are untouched and kept rows change in colour alone |
| `TagSync.SyncingAgainChangesNothing` | service/tag.go:52-69 | sending the same set again changes no row |
| `TagSync.LastSetWins` | service/tag.go:42-82 | after two syncs there are as many rows as names in the last set, and other rows are as at the start |
| `AddressBooks.AddressBookService.updateAddressBook` | service/addressBook.go:75-136 | the loops leave one updated row per stored wanted id, one new row per other wanted id, and no chosen row that is not wanted |
| `AddressBookSpec.LastUploadIsWanted` | service/addressBook.go:84-88 | of the uploads with one normalized id, the last one counts |
| `AddressBookSpec.WantedWasUploaded` | service/addressBook.go:84-88 | nothing is wanted that was not uploaded |
| `AddressBookSpec.UpdatedColumns` | service/addressBook.go:95-124 | the stored row of a wanted id after the sync, column by column: verified inventory over what was sent, what was sent over what was stored |
| `AddressBookSpec.NewEntryColumns` | service/addressBook.go:97-117 | the row of a wanted id that had none, column by column |
| `AddressBookSpec.HoldsExactlyWhenClean` | service/addressBook.go:87-134 | the book holds exactly the wanted ids, one row each, if and only if stored ids were unique and no entry was created under an empty id |
| `AddressBookSpec.HiddenRowsRemain` | service/addressBook.go:90-93 | a duplicate row hidden by another of the same id is neither updated nor deleted |
| `AddressBookSpec.OthersUntouched` | service/addressBook.go:79 | rows of other users and shared collections are untouched |
| `AddressBookSpec.RepeatedSyncSettles` | service/addressBook.go:116-124 | once the book holds the wanted ids and was updated once, the same upload changes no row |
| `AddressBookSpec.NewEntrySettlesExactly` | service/addressBook.go:100-115 | a new entry survives the next upload unchanged if and only if no own device's inventory contradicts what is sent |

## Left out

- MemoryCaches.MemoryCache.Set: a returned `Hangs` stands for the loop that never ends, because a method that does not return has no contract; `used` is unbounded, so 64-bit overflow of the byte counter is not modelled.
- MemoryCaches.MemoryCache.Get: the value codec and the reflection into the caller's pointer; the stored text is returned.
- RecencyLists.RecencyList.MoveToBack: `container/list` is the sequence of its nodes, so its link fields are not modelled.
- PresenceStores.PresenceStore.StartPresenceLease: a positive clock that does not run back is required, and the fallback to legacy heartbeats before the first v2 request is not part of the theorems.
- PresenceStores.OnlineExactlyWhileLeased: legacy heartbeats that write `last_online_time` after v2 was used are outside the model.
- Registry.Store.BeginClaim: `uuid.Parse` is a parameter, of which only the longest text it accepts is used, and which failing check of a malformed request is reported first is not stated.
- Pairing.CodeRoundTrip: the JSON encoder is a parameter.
- ProviderCaches.ProviderCache.Apply: building a provider is one of three outcomes; static exports, key files and registry reopening are not modelled, and the message of a static id that has collided once stays until the next refill.
- AccountStores.AccountStore.UpdateContext: columns other than role, status and version, the scope and ownership tables, and the audit trail.
- AccountStores.AccountStore.AuthenticateAccessToken: signature checks are one argument, and among several rows that share a legacy plain-text token the choice is left open.
- AdminLock.SomeSuperAlwaysRemains: reads inside a transaction see the committed tables; isolation anomalies below the row lock are not modelled.
- TwoFactorRuns.NoStepIsAcceptedTwice: assumes that setup never draws the same 20-byte secret twice.
- TwoFactorRuns.ChallengesAreOneShot: assumes that no login is marked used at clock zero, because a used-at time of zero means unused.
- TwoFactors.TwoFactorService.CompleteLoginChallenge: the configuration switch that makes the service unavailable, the version bump of setup and disable (see `AccountStores.AccountStore.bumpAuthVersionAndRevoke`) and the encryption at rest.
- PeerServices.PeerService.BindLoginIdentity: columns that no bind writes are one value.
- AddressBooks.AddressBookService.updateAddressBook: the look-ups of verified and own devices are functions of the id, and the tag list is one text.
- Text is a sequence of characters; lengths in bytes and invalid UTF-8 are not modelled.
- HTTP routing, controllers, web front ends, CLI output, configuration validation, migrations' backfills, metrics and audit text: no property that spans operations.
- LDAP, OAuth, GeoIP, log reading, media uploads and calls to the rendezvous server: foreign calls.
- Cryptography, X.509, JWT parsing, password hashing and file permissions: replaced by ideal functions or left out.
- Device route proofs and `VerifyActivationIdentity`: an external verifier decides them.
