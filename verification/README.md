# Verified models of the platform's stateful algorithms and codecs

A Dafny model of the parts of this TypeScript monorepo that carry real guarantees, with proofs of what
they promise. `dafny verify dfyconfig.toml` checks the whole project.

| component | files | what is proved |
|---|---|---|
| Idempotency keys | `Idempotency*.dfy`, `WithLock.dfy`, `MemoryLock.dfy`, `CacheEviction.dfy`, `CacheLifetime.dfy`, `MemoryCache.dfy` | The claim protocol as a transition system over any number of concurrent calls, with the in-process lock's own table as its lock: bounded execution, single flight, stable commit, replay provenance, exactly one settling step for every answer, completion as the check decides, a call alone as one atomic operation, the deadlines that are exactly its assumptions, concrete runs that fail once one is missed, and the proof that an execution over a shared cache is such a run. Underneath, token leases exclude each other, and the cache refines a TTL map with FIFO loss and exact lifetimes. |
| Authorization | `Permissions.dfy`, `Inheritance.dfy`, `Policy.dfy`, `CycleReport.dfy`, `Expansion.dfy`, `Resolver.dfy` | Validation accepts exactly the well-formed policies and reports one definite cycle; the memoised recursion computes exactly the transitive closure; the memoising resolver is transparent. |
| Circuit breaking | `CircuitBreaker.dfy`, `CircuitRecovery.dfy` | Rate bound over whole runs, invariant of every reachable state, no wedge, and exactly when calls pass again or stop passing. |
| Event capture | `RingBuffer.dfy`, `Recorder.dfy`, `RecorderTasks.dfy` | A modular-index queue under a serialised task chain: conservation, FIFO order, no stranded event, every task served once and in order. |
| Database | `Transactions.dfy`, `TransactionOutcomes.dfy` | The promise-chain hand-off keeps concurrent transactions from interleaving on one connection, and each ends as its callback settled. |
| Codecs and parsers | `Int32.dfy`, `Base32Numerals.dfy`, `Base32.dfy`, `Bytes.dfy`, `Fingerprint.dfy`, `Percent.dfy`, `Cookies.dfy`, `CookieAttributes.dfy`, `ServerSentEvents.dfy` | Base32 over 32-bit shifts, length-prefixed framing, percent-encoding and cookies, and the chunked `data:` line reader. |
| Shared | `Wrappers.dfy`, `Text.dfy`, `Arithmetic.dfy` | Option and Result, the ECMAScript string operations the others use, and product and quotient bounds. |

How the model stands to the code:

- An object whose methods update its fields is a class with those fields. Each method's contract gives the
  whole new state as a function of the old one, and the lemmas are about that function. Concurrent
  protocols are transition systems in which every `await` separates two steps.
- Clocks are parameters. Where the code reads its clock several times in one call, every reading is a
  separate parameter; readings are only assumed not to run backwards.
- Functions handed in by a caller (`recordable`, the digest, the guarded work) are arbitrary.
- Strings are sequences of Unicode scalar values, that is, ECMAScript strings without lone surrogates.
- Loggers, spans and metric instruments are transparent.

What the proofs brought out about the code:

- The comments on `#stillOurs` (`packages/idempotency/src/manager.node.ts:402-405`) say that a lost claim is
  not written through. The check and the write are separate store calls, so a call whose claim expires between
  them writes over whatever stands there (`LateWriteHitsAnotherRecord`), and that stray write can make a call
  that was prompt write over a record that is not its own (`PromptCallHitsAnotherRecord`). With claims written
  under a live lock and none evicted, all commits and releases stay on their own records exactly when every
  commit and release, of whichever call, comes less than `inFlightTtlMs` after its claim was written
  (`OwnRecordsExact`). The bound on executions and the provenance of replays hold even so.
- A claim lock whose lease runs out between the re-read and the claim write lets two executions start with
  no loss and no release (`LapsedLockRunsTwice`). Exactly when a claim is written less than `lockTtlMs` after
  the lock was granted is it written under a live lease (`ClaimInTime`).
- `base32Decode` strips padding before spaces, so padding followed by a space is an invalid secret; among
  inputs of letters, spaces and padding nothing else is (`PaddingMustComeLast`; `DecodableExact` for every
  input).
- `memoKey` joins on NUL and role names are not checked for it. Two lists share a memo entry exactly when
  their sorted names, cut at every NUL, are the same pieces (`MemoKeyExact`), and then the second is answered
  with the first one's permissions (`AskTwice`, `Mislead`).
- A connection from `sqlitePool` still executes queries after it was released, so a callback that keeps it
  can write into the next transaction (`LateQueryInterleaves`). Transactions stay whole and in order exactly
  when each late query still comes before its own COMMIT or ROLLBACK (`SerialTransactionsExact`).
- Two calls a cooldown apart are not enough to get one through a stalled half-open breaker; three are
  (`NoWedgeNeedsThree`, `NoWedge`).

## Model

| member | source | states |
|---|---|---|
| `Idempotency.ShapePreserved` | packages/idempotency/src/manager.node.ts:166-484 | Every step of the protocol (loads, lock attempts, claim writes, errors, crashes, clock ticks and evictions) keeps lock handles and claim ids of different calls distinct, and keeps started calls among those that claimed. |
| `IdempotencyGuarantees.OwnershipShrinks` | packages/idempotency/src/manager.node.ts:285-318 | No step gives a call back a claim lock it had lost. |
| `IdempotencyGuarantees.ClaimLockExclusive` | packages/idempotency/src/manager.node.ts:285-318 | At most one call stands between its re-read and its claim write with the lock still its own. |
| `IdempotencyGuarantees.BoundedExecution` | packages/idempotency/src/manager.node.ts:189-230 | In every run, whatever the interleaving, errors, crashes and late writes, the work starts at most 1 + record losses + claim releases times, provided claims are written under a live lock lease. |
| `IdempotencyGuarantees.BoundedAlways` | packages/idempotency/src/manager.node.ts:189-230 | With no assumption at all, lapsed locks included: at most 1 + record losses + claim releases + claims written over a record still standing. |
| `IdempotencyGuarantees.StartsCounted` | packages/idempotency/src/manager.node.ts:213-219 | The executions counted by the bound are exactly the start steps of the run: no call starts its work twice. |
| `IdempotencyGuarantees.SingleFlight` | packages/idempotency/src/manager.node.ts:277-435 | If no record is lost while its owner works, at most one call is between its claim and its completion. |
| `IdempotencyGuarantees.OwnRecordOnly` | packages/idempotency/src/manager.node.ts:348-397 | Under the same assumption a commit or release only ever hits the caller's own in-flight record, though check and write are separate steps. |
| `IdempotencyGuarantees.StableCommit` | packages/idempotency/src/manager.node.ts:348-378 | Once a result is recorded, the work does not start again before a record is lost. |
| `IdempotencyReplay.BackedPreserved` | packages/idempotency/src/manager.node.ts:241-378 | Every step keeps each completed record, and each answer taken from one, backed by an execution that returned that value for that fingerprint. |
| `IdempotencyReplay.ReturnedEarlier` | packages/idempotency/src/manager.node.ts:213-230 | Every value in the history was returned by a definite earlier step of the run, for the fingerprint recorded with it. |
| `IdempotencyReplay.ReplayProvenance` | packages/idempotency/src/manager.node.ts:241-270 | With no assumption on locks or losses: a replayed value was returned earlier by another call's execution for the very same fingerprint and accepted by `recordable`; so another fingerprint is never answered with a value. |
| `IdempotencyAnswers.VerdictStands` | packages/idempotency/src/manager.node.ts:166-270 | Once a step of a call has failed, given up on the lock, read a record or ended the work, no later step, error or interleaving changes the answer this settles, short of a crash. |
| `IdempotencyAnswers.AnswersExact` | packages/idempotency/src/manager.node.ts:166-270 | In every run a call is answered so if and only if one of its own steps settled that answer: `executed` by the return of its work; `replayed`, `in-flight` or a mismatch by a record one of its reads met, compared by fingerprint first; `in-flight` also by giving up on the lock; a failure by one of its failing steps. |
| `IdempotencyAnswers.CommitExact` | packages/idempotency/src/manager.node.ts:185-230 | A commit records the value the call's own execution returned, under the fingerprint and for the lifetime the call arrived with. |
| `IdempotencyAnswers.InFlightIsRecent` | packages/idempotency/src/manager.node.ts:295-305 | A claim in the way was written less than `inFlightTtlMs` ago, so a crashed or unreleased call blocks its key no longer than that. |
| `IdempotencyCompletion.OwnClaim` | packages/idempotency/src/manager.node.ts:285-318 | The claim a call works on is the one it wrote itself. |
| `IdempotencyCompletion.CheckDecides` | packages/idempotency/src/manager.node.ts:211-229 | In every run, after its work and its check a call that found its claim has one thing left to do, short of crashing: write its result if the value is to be recorded, delete its claim if not; a call that did not find it is done; the answer is the same either way. |
| `IdempotencyCompletion.CompletesFirst` | packages/idempotency/src/manager.node.ts:348-397 | A call whose check found its claim is not answered before it has written its result or deleted its claim. |
| `IdempotencyCompletion.WritesLand` | packages/idempotency/src/manager.node.ts:295-397 | Whether a write or deletion lands decides the record slot, whatever the call is told, and what a landed claim or result is; nothing else touches the slot but the clock and an eviction. |
| `IdempotencyCompletion.ReleaseReopens` | packages/idempotency/src/manager.node.ts:387-397 | A deletion that lands leaves no record, so a call that then looks, before or under the lock, goes on to claim. |
| `IdempotencyCompletion.UnlockFrees` | packages/idempotency/src/manager.node.ts:285-318 | After a claim lock release that lands, its handle owns nothing, no other handle is affected, and if the lease was still its own the next attempt of any waiting call is granted; one that does not land changes nothing. |
| `IdempotencyAlone.AloneIsAtomic` | packages/idempotency/src/manager.node.ts:166-230 | From any state, a call with nobody in its way is one atomic operation: answered from the record if there is one, and otherwise it does its work, leaves a completed record exactly when the value is to be recorded and no record when not, and leaves the lock free. |
| `IdempotencyAlone.SecondCall` | packages/idempotency/src/manager.node.ts:166-262 | Of two calls one after the other: a recorded value is replayed to the same fingerprint and refused to another until its lifetime is over; after that, or when the first call recorded nothing, the second does its own work. |
| `IdempotencyDeadlines.ClaimInTime` | packages/idempotency/src/manager.node.ts:285-318 | Every claim is written under a handle that some earlier lock attempt granted, and the lease is still live if and only if less than `lockTtlMs` has passed since. |
| `IdempotencyDeadlines.LockDeadlinesExact` | packages/idempotency/src/manager.node.ts:285-318 | A run keeps that deadline at every claim write if and only if it meets what the guarantees assume about the lock. |
| `IdempotencyDeadlines.WorkDeadlinesExact` | packages/idempotency/src/manager.node.ts:295-397 | With positive lifetimes and no claim evicted: if every call finishes less than `inFlightTtlMs` after writing its claim, no record is lost while its owner works; and the other way round if all claims are written under a live lock. |
| `IdempotencyDeadlines.BoundedOnTime` | packages/idempotency/src/manager.node.ts:189-230 | The bound on executions, under the lock deadline alone. |
| `IdempotencyDeadlines.SingleFlightOnTime` | packages/idempotency/src/manager.node.ts:277-435 | Single flight, when claims are written and finished within their deadlines and none is evicted. |
| `IdempotencyOwnership.OwnRecordsExact` | packages/idempotency/src/manager.node.ts:348-435 | With positive lifetimes, claims written under a live lock and none evicted: every commit and release hits its own in-flight record if and only if every one comes less than `inFlightTtlMs` after its call wrote its claim. Calls whose check fails may be as late as they like. |
| `IdempotencyOwnership.OwnRecordOnTime` | packages/idempotency/src/manager.node.ts:348-397 | A commit or release only ever hits its own record, under the lock deadline and the deadlines of the completing steps alone. |
| `IdempotencyDeadlines.StableCommitOnTime` | packages/idempotency/src/manager.node.ts:348-378 | Under the same deadlines the work does not start again after a recorded result before a record is lost. |
| `IdempotencyLimits.LapsedLockRunsTwice` | packages/idempotency/src/manager.node.ts:285-318 | A concrete run in which a claim is written under a lapsed lock lease: two executions, no loss, no release. |
| `IdempotencyLimits.LateWriteHitsAnotherRecord` | packages/idempotency/src/manager.node.ts:402-435 | A concrete run, on time with its lock and without evictions, in which a claim expires after the ownership check: the write about to happen lands on another call's record. |
| `IdempotencyLimits.PromptCallHitsAnotherRecord` | packages/idempotency/src/manager.node.ts:402-435 | The run goes on so that a call that claims and completes within one instant is about to write over a record that is not its own. |
| `IdempotencyStore.StepsOnCache` | packages/idempotency/src/manager.node.ts:295-305 | Each store step of a call is one cache call on its key: if the cache represents the record slot before, it does afterwards, and expiry needs no call. |
| `IdempotencyStore.OthersOnCache` | packages/cache/src/providers/memory.ts:75-136 | A cache call on another key leaves the record slot alone or evicts the record, and it evicts only into a full house of live entries. |
| `IdempotencyStore.ExecutionIsRun` | packages/idempotency/src/manager.node.ts:166-484 | Every execution of the protocol over a cache shared with others is a run of the model, the cache representing its record slot all along. |
| `WithLock.Run` | packages/idempotency/src/with-lock.node.ts:43-76 | The retry loop ends exactly at the first attempt that is not merely busy or comes after the deadline, for a poll interval of any sign; with a positive one it makes at most ceil(waitMs / pollMs) + 1 attempts. The function is called, and the lock given back, for a granted attempt only. |
| `WithLock.DeadlineComes` | packages/idempotency/src/with-lock.node.ts:71-74 | With a positive poll interval the sleeps alone bring the deadline, so the loop ends in every environment. |
| `MemoryLock.MemoryDistributedLock.Acquire` | packages/distributedlock/src/providers/memory.ts:56-76 | The whole new lease table and the answer, as a function of the old table and the three clock readings. |
| `MemoryLock.MemoryDistributedLock.SweepExpired` | packages/distributedlock/src/providers/memory.ts:87-97 | Exactly the live leases remain, and the count is the number dropped. |
| `MemoryLock.MemoryDistributedLock.Release` | packages/distributedlock/src/providers/memory.ts:105-115 | Removes the lease if and only if the handle owns it. |
| `MemoryLock.MemoryDistributedLock.Refresh` | packages/distributedlock/src/providers/memory.ts:117-132 | Moves the expiry if and only if the handle owns the lease. |
| `MemoryLock.MemoryDistributedLock.Holds` | packages/distributedlock/src/providers/memory.ts:99-102 | Ownership is the same token and an expiry still ahead. |
| `MemoryLock.AcquireExact` | packages/distributedlock/src/providers/memory.ts:56-76 | A key is granted exactly when no handle owns it; the new handle, which carries its ttl, owns it until that runs out and no other handle's standing changes; no lapsed lease of another key stays in the table. |
| `MemoryLock.ReleaseAndRefreshExact` | packages/distributedlock/src/providers/memory.ts:105-132 | On a lost handle both report so and change no lease; on an owned one release ends ownership, refresh extends it, and no other handle is affected. |
| `MemoryLock.IssuedTokensDistinct` | packages/distributedlock/src/providers/memory.ts:71-74 | No two grants of a history share a token. |
| `MemoryLock.LeaseExclusion` | packages/distributedlock/src/providers/memory.ts:56-135 | After any history, at any instant, at most one issued handle per key owns its lease. |
| `MemoryLock.NeverRegained` | packages/distributedlock/src/providers/memory.ts:99-135 | Over any history with a monotone clock, a handle that lost its lease never owns it again. |
| `MemoryCache.InMemoryCache.constructor` | packages/cache/src/providers/memory.ts:63-73 | An empty cache; a non-positive default expiry means none, the cap defaults to 100000, and a non-positive cap disables it. |
| `MemoryCache.InMemoryCache.Get` | packages/cache/src/providers/memory.ts:75-94 | Returns exactly what is promised, and what the history of calls has left stored: the latest write, unless deleted, expired or evicted; and records the read. |
| `MemoryCache.InMemoryCache.Set` | packages/cache/src/providers/memory.ts:96-107 | Adds one write to the history of calls, which fixes the slots and their insertion order; promises the value for exactly its lifetime (its own TTL if positive, otherwise the cache's, otherwise for ever); and takes one other promise away exactly when it inserts into a full house of live entries: that of the oldest inserted. |
| `MemoryCache.InMemoryCache.Delete` | packages/cache/src/providers/memory.ts:131-136 | Withdraws the promise of its key and nothing else, and adds one deletion to the history. |
| `MemoryCache.InMemoryCache.SweepExpired` | packages/cache/src/providers/memory.ts:118-123 | Deleting while walking the map leaves exactly the live slots, in order. |
| `MemoryCache.InMemoryCache.EvictIfNeeded` | packages/cache/src/providers/memory.ts:114-129 | The sweep and the eviction loop leave exactly the slots `Trimmed` describes. |
| `MemoryCache.InMemoryCache.Overwrite` | packages/cache/src/providers/memory.ts:101-105 | Overwriting keeps the key's place in the eviction order. |
| `CacheEviction.SweptKeeps` | packages/cache/src/providers/memory.ts:118-123 | A slot survives the sweep exactly if it was there and is live, and insertion order is kept. |
| `CacheEviction.TrimmedKeeps` | packages/cache/src/providers/memory.ts:114-129 | Making room goes below the cap and loses no live entry unless all of them are live, and then exactly the oldest inserted. |
| `CacheEviction.HistoryOrdered` | packages/cache/src/providers/memory.ts:75-136 | After any history of calls the slots stand in the order of their insertions and never exceed the cap. |
| `CacheEviction.BornAtInsertion` | packages/cache/src/providers/memory.ts:101-105 | A stored key's insertion number is that of the write that found it absent and since when it has been stored throughout; overwriting does not change it. |
| `CacheEviction.FirstInFirstOut` | packages/cache/src/providers/memory.ts:96-129 | After any history, a write takes a live entry of another key away if and only if it inserts into a full house of live entries and that entry was inserted before all others. |
| `MemoryCache.OverwriteFaithful` | packages/cache/src/providers/memory.ts:101-105 | An overwrite keeps the slots in agreement with the ideal TTL map. |
| `MemoryCache.FairWasPromised` | packages/cache/src/providers/memory.ts:114-129 | A fairly evicted entry was still promised, so eviction never hides an expired or deleted one. |
| `CacheLifetime.LifetimeExact` | packages/cache/src/providers/memory.ts:75-107 | In any history, a read finds the value of the last write exactly while its lifetime lasts (its own TTL if positive, otherwise the cache's, otherwise for ever), as long as nothing deleted or evicted it. |
| `CacheLifetime.SparedKept` | packages/cache/src/providers/memory.ts:75-136 | No call on other keys changes what a later read of this key finds, short of an eviction. |
| `CacheLifetime.WriteKeeps` | packages/cache/src/providers/memory.ts:96-107 | Right after any history, a write is found until it expires. |
| `Permissions.Build` | packages/authorization/src/permission.ts:32-40 | Members are exactly the non-empty strings given. |
| `Permissions.Union` | packages/authorization/src/permission.ts:113-121 | Members are exactly those of the set and of the others. |
| `Permissions.IsSubsetOf` | packages/authorization/src/permission.ts:124-131 | True exactly for a subset. |
| `Permissions.Equals` | packages/authorization/src/permission.ts:134-136 | Equal sizes and one inclusion decide equality exactly. |
| `Inheritance.TopologicalAcyclic` | packages/authorization/src/policy.ts:163-190 | A graph that can be listed parents first has no cycle: what a finished search means. |
| `Inheritance.GrantsUnfold` | packages/authorization/src/policy.ts:134-153 | A role is granted exactly what it lists and what its parents are granted, with grants defined by reachability. |
| `Policy.SearchCorrect` | packages/authorization/src/policy.ts:166-183 | The three-colour walk either reports a genuine chain that runs into itself or extends the parents-first listing with the name it was given. |
| `Policy.FirstCycleExact` | packages/authorization/src/policy.ts:163-190 | Detection reports a cycle if and only if the graph has one, and the path is a genuine chain of `inherits` edges whose last name occurs earlier in it. |
| `Policy.ReportIsStable` | packages/authorization/src/policy.ts:185-189 | The reported cycle depends on the graph alone, not on the order roles are declared in. |
| `Policy.CycleDetector.Walk` | packages/authorization/src/policy.ts:166-183 | The recursion over a shared, mutated mark table terminates and computes the specified search. |
| `Policy.DetectCycles` | packages/authorization/src/policy.ts:163-190 | Reports the first cycle met walking from every name in sorted order. |
| `Policy.IndexByName` | packages/authorization/src/policy.ts:90-99 | Fails exactly when a name is empty or repeated, with the error of the first such role, and otherwise gives the policy's graph. |
| `Policy.CheckParents` | packages/authorization/src/policy.ts:101-116 | Passes exactly when every parent is defined and no role names itself, and otherwise gives the error of the first offending parent. |
| `Policy.ValidateRoles` | packages/authorization/src/policy.ts:89-119 | Accepts exactly the well-formed policies (names non-empty and unique, parents defined, no cycle); every other gets the error that comes first: names before parents before cycles, each at its first offence, and the cycle the search over sorted names meets first. |
| `Policy.ErrorDetermined` | packages/authorization/src/policy.ts:89-119 | A policy has at most one such error, so the contract fixes which one is thrown. |
| `Policy.CycleErrorIsStable` | packages/authorization/src/policy.ts:185-189 | Declaring the same roles in another order gives the same cycle error. |
| `CycleReport.ReportExact` | packages/authorization/src/policy.ts:163-190 | Which cycle is reported, without the search: the chain that starts at the first name in sorted order from which a cycle can be reached, goes on each time to the first parent listed from which one can, and stops at the first name met again. |
| `CycleReport.FirstReportUnique` | packages/authorization/src/policy.ts:185-189 | Only one chain fits that description. |
| `Expansion.Expander.Resolve` | packages/authorization/src/policy.ts:134-153 | Despite memo entries written before recursion and updated part-way, the result is exactly the closure of the name, and entries already there do not change. |
| `Expansion.NotOnStack` | packages/authorization/src/policy.ts:143-145 | In an acyclic graph the recursion never meets a name still being resolved, so a memo hit is complete. |
| `Expansion.ExpandInheritance` | packages/authorization/src/policy.ts:128-160 | Succeeds exactly for well-formed policies, and maps each role to exactly the non-empty permissions of all roles it reaches. |
| `Resolver.MemoKeyIdentifiesPermutations` | packages/authorization/src/providers/static.ts:113-115 | For NUL-free names two lists share a memo key if and only if they are permutations of each other. |
| `Resolver.MemoKeyExact` | packages/authorization/src/providers/static.ts:113-115 | For any names, two non-empty lists share a memo key if and only if their sorted names, cut at every NUL, give the same pieces in the same order. |
| `Resolver.NulMakesKeysCollide` | packages/authorization/src/providers/static.ts:113-115 | Two lists with NUL in a name share a key though they are granted different permissions. |
| `Resolver.AskTwice` | packages/authorization/src/providers/static.ts:80-96 | After a first list, a second is answered rightly if and only if the two do not share a key or the first one's permissions are also the second's. |
| `Resolver.Mislead` | packages/authorization/src/providers/static.ts:69-115 | A concrete policy and question that is answered with permissions none of its names has. |
| `Resolver.StaticPolicyResolver.Resolve` | packages/authorization/src/providers/static.ts:69-97 | Whatever was asked before, the answer is exactly the union over the known names when no name asked about holds NUL. In any case a remembered key is answered from the memo, and a new one with the union, which is then remembered. |
| `Resolver.StaticPolicyResolver.Known` | packages/authorization/src/providers/static.ts:89-91 | The sets found are those of the known names; unknown names contribute nothing. |
| `Resolver.Create` | packages/authorization/src/providers/static.ts:37-53 | A resolver exists exactly for well-formed policies; it serves that very policy and has been asked nothing; otherwise the policy's error comes out. |
| `Resolver.StaticPolicyResolver.PermissionsForRoles` | packages/authorization/src/providers/static.ts:59-61 | Whatever was asked before, with no NUL in any name the answer is exactly what the policy grants the names by reachability. |
| `Resolver.Ask` | packages/authorization/src/providers/static.ts:37-97 | End to end from a list of roles: answered exactly for well-formed policies, and with exactly what the policy grants NUL-free names. |
| `Resolver.UnionOfClosures` | packages/authorization/src/providers/static.ts:69-97 | Over a true expansion the union of the known names' sets is what the policy grants the names by reachability. |
| `CircuitBreaker.PartitionBreaker.CanProceed` | packages/circuitbreaking/src/providers/partitioned.ts:91-116 | The new state and the answer, as a function of the old state and the clock readings. |
| `CircuitBreaker.PartitionBreaker.Succeeded` | packages/circuitbreaking/src/providers/partitioned.ts:118-124 | The new state after a success report, as a function of the old one. |
| `CircuitBreaker.PartitionBreaker.Failed` | packages/circuitbreaking/src/providers/partitioned.ts:126-136 | The new state after a failure report. |
| `CircuitBreaker.PartitionedCircuitBreaker.ForPartition` | packages/circuitbreaking/src/providers/partitioned.ts:215-228 | Repeated lookups give the same object, and creating one disturbs no partition. |
| `CircuitBreaker.PartitionedCircuitBreaker.CanProceedFor` | packages/circuitbreaking/src/providers/partitioned.ts:215-232 | An ask for one key moves that key's breaker by one event and no other key's. |
| `CircuitBreaker.PartitionedCircuitBreaker.FailedFor` | packages/circuitbreaking/src/providers/partitioned.ts:215-240 | A failure report for one key moves only that key's breaker. |
| `CircuitBreaker.PartitionedCircuitBreaker.SucceededFor` | packages/circuitbreaking/src/providers/partitioned.ts:215-236 | A success report for one key moves only that key's breaker. |
| `CircuitBreaker.ReachableInvariant` | packages/circuitbreaking/src/providers/partitioned.ts:91-176 | In every reachable state closed means the count is the current consecutive failures and below the threshold, half-open never hands out more than its cap, and no stamp lies in the future. |
| `CircuitBreaker.RateInvariantHolds` | packages/circuitbreaking/src/providers/partitioned.ts:91-167 | Each half-open episode begins at least one cooldown after the one before and hands out at most the cap, over every run that stays tripped. |
| `CircuitBreaker.ProbeRateBound` | packages/circuitbreaking/src/providers/partitioned.ts:91-176 | From a closed-to-open transition at t0 until the circuit next closes, the calls granted by t number at most halfOpenMaxAttempts x floor((t - t0) / openDurationMs), for any mix of calls and late reports. |
| `CircuitBreaker.NoWedge` | packages/circuitbreaking/src/providers/partitioned.ts:91-149 | From every reachable state, of three consecutive asks a cooldown apart one is let through. |
| `CircuitBreaker.NoWedgeNeedsThree` | packages/circuitbreaking/src/providers/partitioned.ts:91-149 | Two asks a cooldown apart can both be refused. |
| `CircuitRecovery.RecoveryExact` | packages/circuitbreaking/src/providers/partitioned.ts:91-136 | One success report on a half-open circuit lets every later ask through until `failureThreshold` failures in a row have been reported; the report that makes it so many, and no other, refuses the asks of the next cooldown. |
| `CircuitRecovery.TripExact` | packages/circuitbreaking/src/providers/partitioned.ts:91-136 | The same for a new breaker. |
| `CircuitRecovery.FailedProbe` | packages/circuitbreaking/src/providers/partitioned.ts:126-136 | One failure report on a half-open circuit refuses every ask for a whole cooldown from its stamp, whatever else is asked or reported. |
| `CircuitRecovery.CooldownExact` | packages/circuitbreaking/src/providers/partitioned.ts:91-136 | An open circuit lets an ask through exactly from one cooldown after its trip, or after the last late failure report that found or made the failures in a row too many. |
| `CircuitRecovery.ProbesExact` | packages/circuitbreaking/src/providers/partitioned.ts:91-116 | Within a cooldown of the start of a half-open period, and before any report, exactly the first `halfOpenMaxAttempts` asks pass. |
| `CircuitRecovery.StalledExact` | packages/circuitbreaking/src/providers/partitioned.ts:91-149 | With all probes spent and unreported, asks are refused for a cooldown, the next one restarts the cooldown, and asks pass again exactly after that. |
| `RingBuffer.RingBuffer.constructor` | packages/eventcapture/src/ring-buffer.ts:16-18 | An empty queue of the given capacity, or of none if that is not positive. |
| `RingBuffer.RingBuffer.Push` | packages/eventcapture/src/ring-buffer.ts:31-38 | Appends to the contents, or reports fullness exactly at capacity and stores nothing. |
| `RingBuffer.RingBuffer.Shift` | packages/eventcapture/src/ring-buffer.ts:44-55 | Removes the oldest item, and its slot keeps no reference to it. |
| `Recorder.Recorder.Record` | packages/eventcapture/src/recorder.ts:188-202 | The new state after an event is offered: accepted with a drain scheduled, or dropped and counted. |
| `Recorder.Recorder.Flush` | packages/eventcapture/src/recorder.ts:208-213 | Queues a drain and flush behind everything queued before. |
| `Recorder.Recorder.Close` | packages/eventcapture/src/recorder.ts:226-236 | Stops accepting at once; later calls change nothing. |
| `Recorder.Recorder.EnqueueClose` | packages/eventcapture/src/recorder.ts:238-248 | The closing task joins the chain. |
| `Recorder.Recorder.Begin` | packages/eventcapture/src/recorder.ts:195-201 | A task starts when the one before it ended; a drain task clears its flag first. |
| `Recorder.Recorder.Drain` | packages/eventcapture/src/recorder.ts:277-281 | One turn of the drain loop: the oldest event, or on to the flush. |
| `Recorder.Recorder.RunFlush` | packages/eventcapture/src/recorder.ts:322-350 | Reports drops and goes on to closing for the closing task. |
| `Recorder.Recorder.ReportDropped` | packages/eventcapture/src/recorder.ts:352-361 | The reported total becomes the drop count and never goes down. |
| `Recorder.InvPreserved` | packages/eventcapture/src/recorder.ts:188-281 | Every step keeps conservation, a drain scheduled for a non-empty buffer, and exactly one closing task for a closed recorder. |
| `Recorder.ConservationAndOrder` | packages/eventcapture/src/recorder.ts:188-281 | In every run each offered event is exactly one of refused, buffered, in progress or consumed; the consumed are a prefix of the accepted; drops are counted exactly; the buffer never exceeds its capacity. |
| `Recorder.NothingStranded` | packages/eventcapture/src/recorder.ts:188-281 | When the chain has nothing left to do, everything accepted has been consumed, and a closed recorder has closed its sink. |
| `Recorder.RunsDry` | packages/eventcapture/src/recorder.ts:269-281 | From any point of any run, the chain's own steps are bounded by a rank of the state, so left alone it stops. |
| `Recorder.CloseConsumesEverything` | packages/eventcapture/src/recorder.ts:226-248 | When the sink is closed, every event the recorder ever accepts has been consumed. |
| `Recorder.RefusedExact` | packages/eventcapture/src/recorder.ts:188-202 | An event is refused if and only if the recorder has been told to close or already holds as many unconsumed events as fit. |
| `RecorderTasks.TasksInOrder` | packages/eventcapture/src/recorder.ts:269-275 | In every run the tasks queued are those ended, then the one in progress, then those waiting, in the order they were queued: none is lost, repeated or overtaken. A flush or tick ends only with its flush of the sink, a closing task only with the closing. |
| `RecorderTasks.FlushesCounted` | packages/eventcapture/src/recorder.ts:208-213 | Each flush asked for is queued, in progress or has run. |
| `RecorderTasks.FlushServed` | packages/eventcapture/src/recorder.ts:208-213 | A flush that has ended flushed the sink after every event accepted before the request had been consumed, and brought the reported drops up to date. |
| `RecorderTasks.FlushReports` | packages/eventcapture/src/recorder.ts:322-361 | Each flush of the sink, for whatever task, brings the reported drops up to the events refused so far. |
| `RecorderTasks.TicksConsumeNothing` | packages/eventcapture/src/recorder.ts:162-164 | A timer tick flushes the sink and consumes nothing. |
| `RecorderTasks.ClosingFlushes` | packages/eventcapture/src/recorder.ts:238-248 | The sink is closed only after a flush for the closing task, with everything ever accepted consumed. |
| `RecorderTasks.AllServed` | packages/eventcapture/src/recorder.ts:269-281 | When the chain has nothing left to do, every task queued has ended and every flush asked for has run. |
| `Base32.Base32Encode` | packages/authentication/src/providers/totp.ts:32-48 | The text is the zero-padded bit string of the bytes cut into five-bit letters, as section 6 of RFC 4648 defines it, under 32-bit shifts of an accumulator that is never masked. |
| `Base32.EncodingUnique` | packages/authentication/src/providers/totp.ts:32-48 | The definition fixes the text: two texts that encode the same bytes are equal. |
| `Base32.Base32Decode` | packages/authentication/src/providers/totp.ts:55-73 | Accepts exactly the inputs that are in the alphabet once normalized, and gives the whole octets of their bit string. |
| `Base32.RoundTrip` | packages/authentication/src/providers/totp.ts:32-73 | For every byte string, the encoded text in any mixture of cases, with spaces anywhere and any padding after it, is accepted by the decoder, and nothing but the bytes can come out. |
| `Base32.EncodeAndDecode` | packages/authentication/src/providers/totp.ts:32-73 | Decoding what either encoder wrote, padded or not, gives the bytes back. |
| `Base32.VariantNormalizes` | packages/authentication/src/providers/totp.ts:56 | Case changes, spaces and trailing padding disappear in normalization. |
| `Base32.DecodableExact` | packages/authentication/src/providers/totp.ts:55-65 | For every input: it decodes if and only if each character before its trailing padding is a space or upper-cases to letters of the alphabet. |
| `Base32.ToleratedExact` | packages/authentication/src/providers/totp.ts:56-64 | The characters that upper-case to letters of the alphabet, one by one: ASCII letters in either case, the digits 2 to 7, spaces, and ten others. |
| `Base32.PaddingMustComeLast` | packages/authentication/src/providers/totp.ts:56-64 | Padding followed by anything, a space included, makes any input invalid; for inputs of letters in any case, spaces and padding nothing else does. |
| `Base32.BytesToBase32` | packages/random/src/encoding.ts:21-40 | The same text as the unpadded encoder, followed by the padding of section 6 of RFC 4648 to a multiple of eight. |
| `Base32.PaddingCompletes` | packages/random/src/encoding.ts:36-38 | Exactly that much padding, and no less, completes the last group of eight. |
| `Int32.DigitIn` | packages/authentication/src/providers/totp.ts:37 | Shifting an unmasked 32-bit accumulator left and or-ing a digit in appends the digit, as far as the bits still in use go. |
| `Int32.DigitOut` | packages/authentication/src/providers/totp.ts:40 | The unsigned shift and mask take out exactly the oldest unread digit, also when the accumulator is negative. |
| `Transactions.SqlitePool.Connect` | packages/database/src/adapters.ts:171-180 | Claims the next slot at once and gives the caller the old tail to wait for. |
| `Transactions.PooledConnection.Release` | packages/database/src/adapters.ts:185-189 | Hands the connection on the first time and does nothing afterwards. |
| `Transactions.WithTransaction` | packages/database/src/database.ts:306-354 | What one call executes and answers: a failed BEGIN alone, or BEGIN, the body and one COMMIT or ROLLBACK, as the callback settled; the connection goes back on every path, exactly once. |
| `Transactions.CallIsRun` | packages/database/src/database.ts:318-353 | That call, step by step, is a run of the concurrent system with the same statements, outcome, settlement and hand-off. |
| `Transactions.ScriptDecides` | packages/database/src/database.ts:326-344 | A fulfilled callback is committed and never rolled back, a rejected one rolled back and never committed, and only a successful COMMIT returns the value. |
| `TransactionOutcomes.CallsFollowCode` | packages/database/src/database.ts:318-353 | In every run, late queries or not, each call takes the steps of the code in their order: connect, BEGIN, settle, COMMIT or ROLLBACK as it settled, hand back. |
| `TransactionOutcomes.OutcomeExact` | packages/database/src/database.ts:326-344 | In every run each outcome has exactly one cause: the value is returned if and only if the COMMIT succeeded, the callback's error passed on if and only if it rejected, and so on. |
| `TransactionOutcomes.EndsAsSettled` | packages/database/src/database.ts:326-344 | Each COMMIT in the log was issued after its own callback fulfilled, each ROLLBACK after it rejected, and no callback does both. |
| `Transactions.SettledUpTo` | packages/database/src/adapters.ts:176-180 | The tail a slot waits for is settled exactly when all slots before it have handed off. |
| `Transactions.OnlyHeadActs` | packages/database/src/adapters.ts:171-190 | Only the first slot not handed off can take a step, late queries after the end of a transaction apart. |
| `Transactions.SerialTransactions` | packages/database/src/adapters.ts:164-191 | For every interleaving, what the connection executed is contiguous transactions in arrival order, each whole and agreeing with its caller's outcome, if no callback uses its connection after settling. |
| `Transactions.SerialTransactionsExact` | packages/database/src/adapters.ts:164-191 | For every run: that holds if and only if each late query still comes before the COMMIT or ROLLBACK of its own transaction. |
| `Transactions.ArrivalOrderExact` | packages/database/src/adapters.ts:164-191 | For every run: the log is in arrival order if and only if each late query comes while no later call has executed anything. |
| `Transactions.ReleasedOnceInOrder` | packages/database/src/adapters.ts:185-190 | In every run, late queries included, each finished call hands the connection on exactly once, in arrival order, and calls behind the first unfinished one have executed nothing. |
| `Transactions.EveryRunDrains` | packages/database/src/adapters.ts:171-190 | After any run, late queries included, some continuation brings every call to its end: no hand-off is lost. |
| `Transactions.QueueDrains` | packages/database/src/adapters.ts:171-190 | The same from any state whose queue is in order. |
| `Transactions.LateQueryInterleaves` | packages/database/src/adapters.ts:183-184 | Whatever the first transaction did, its callback's query after settling lands inside the next one. |
| `ServerSentEvents.SseDataLines` | packages/llm/src/providers/support.ts:126-164 | A missing body is an error; otherwise the payloads are exactly those of the batch form, however the text is cut into chunks, each delivered with the chunk that completes its line; reading stops early only at `[DONE]`. |
| `ServerSentEvents.TakeLines` | packages/llm/src/providers/support.ts:142-154 | The inner loop takes off the complete lines, delivers their payloads and stops at `[DONE]`. |
| `ServerSentEvents.BatchAfter` | packages/llm/src/providers/support.ts:126-164 | Once some lines are complete, what they delivered stands whatever text follows. |
| `ServerSentEvents.DataLine` | packages/llm/src/providers/support.ts:144-146 | A payload comes out of its `data:` line unchanged, whatever spaces, or none, stand before and after it. |
| `ServerSentEvents.PayloadExact` | packages/llm/src/providers/support.ts:144-172 | A line has a payload exactly when it starts with `data:`, and then it is what follows without the spaces at its ends. |
| `ServerSentEvents.OtherLine` | packages/llm/src/providers/support.ts:167-172 | A line that is not a `data:` line delivers nothing. |
| `ServerSentEvents.StreamRoundTrip` | packages/llm/src/providers/support.ts:126-172 | Every payload sent before `[DONE]` comes out in order and unchanged, and nothing sent after it does. |
| `Bytes.Utf8Exact` | packages/idempotency/src/fingerprint.ts:39 | The UTF-8 decoder accepts exactly the encoder's output: no overlong form, no surrogate. |
| `Fingerprint.Frame` | packages/idempotency/src/fingerprint.ts:36-50 | The fill loop writes exactly the concatenation of prefixes and parts into a buffer of exactly that size. |
| `Fingerprint.Set` | packages/idempotency/src/fingerprint.ts:48 | Copies a chunk at an offset and leaves the rest of the buffer alone. |
| `Fingerprint.FramingRoundTrip` | packages/idempotency/src/fingerprint.ts:38-43 | Decimal length and colon parse back to the very same parts, whatever they contain. |
| `Fingerprint.FramingInjective` | packages/idempotency/src/fingerprint.ts:38-43 | Two lists of byte parts give the same buffer if and only if they are equal. |
| `Fingerprint.ToHex` | packages/idempotency/src/fingerprint.ts:16-22 | The loop gives the hexadecimal form of the octets. |
| `Fingerprint.HexInjective` | packages/idempotency/src/fingerprint.ts:16-22 | Different digests have different hexadecimal forms. |
| `Fingerprint.HexExact` | packages/idempotency/src/fingerprint.ts:16-22 | Two lower-case digits an octet, the high one first, and nothing over. |
| `Fingerprint.FramedExample` | packages/idempotency/src/fingerprint.ts:38-43 | The framed form of one example, octet by octet. |
| `Fingerprint.FingerprintOf` | packages/idempotency/src/fingerprint.ts:31-53 | The hexadecimal digest of the framed parts. |
| `Fingerprint.SharedOnlyByCollision` | packages/idempotency/src/fingerprint.ts:31-53 | Two lists share a fingerprint only if they are equal part by part or the digest itself collides. |
| `Fingerprint.SameTexts` | packages/idempotency/src/fingerprint.ts:39 | For parts given as text, equal octets are equal texts. |
| `Percent.RoundTrip` | packages/cookies/src/serialize.ts:67-129 | Percent-decoding undoes percent-encoding for every string. |
| `Percent.EncodedIsCookieValue` | packages/cookies/src/serialize.ts:67 | An encoded value holds only the characters section 4.1.1 of RFC 6265 allows. |
| `Percent.DecodeExact` | packages/cookies/src/serialize.ts:127-133 | A text decodes to exactly what it spells: each character itself, unless it is a percent sign, or given by the escapes of its UTF-8 octets in either case; any other text is malformed. |
| `Percent.UnreservedExact` | packages/cookies/src/serialize.ts:67 | The characters left unescaped, as visible ASCII outside the reserved ones. |
| `Percent.EscapedExact` | packages/cookies/src/serialize.ts:67 | Encoding writes one upper-case escape an octet. |
| `Cookies.SerializeCookie` | packages/cookies/src/serialize.ts:59-101 | Refuses an invalid name, Max-Age, domain or path, in that order, and otherwise joins the pair and the attributes asked for. |
| `Cookies.NothingInjected` | packages/cookies/src/serialize.ts:47-101 | Splitting an accepted cookie at its semicolons gives its own pair and exactly the attributes asked for: no name, value, domain or path can add another. |
| `CookieAttributes.CookieReadsBack` | packages/cookies/src/serialize.ts:59-101 | The reader of an accepted cookie gets back the name and value, each attribute's own value, the two flags as they were set, and no further attribute. |
| `CookieAttributes.ObjectionExact` | packages/cookies/src/serialize.ts:64-85 | Each error is raised exactly when its own field is at fault and every field checked before it is fine. |
| `CookieAttributes.NameCharExact` | packages/cookies/src/serialize.ts:49 | Names are made of the token characters of section 2.2 of RFC 2616. |
| `CookieAttributes.DomainExact` | packages/cookies/src/serialize.ts:50-51 | Domains are labels of at most 63 alphanumeric characters and inner hyphens, joined by dots, with at most one dot in front. |
| `CookieAttributes.PathExact` | packages/cookies/src/serialize.ts:52-53 | Paths hold every printable ASCII character but the semicolon and the less-than sign. |
| `CookieAttributes.MaxAgeExact` | packages/cookies/src/serialize.ts:71-76 | The Max-Age written is the whole number next to the one given, on the side of zero, in decimal. |
| `Cookies.ParseCookieHeader` | packages/cookies/src/serialize.ts:108-140 | For any header, never failing: each name maps to the value of its first well-formed pair, raw where the percent-encoding is malformed. |
| `Cookies.ParsePairExact` | packages/cookies/src/serialize.ts:119-133 | A pair is read exactly when it has a name before its first equals sign; name and value come without the spaces around them, the value percent-decoded or, where it spells nothing, raw. |
| `Cookies.PairRoundTrip` | packages/cookies/src/serialize.ts:67-136 | A serialized pair parses back to its name and value. |
| `Cookies.LeadingSpace` | packages/cookies/src/serialize.ts:119-126 | The space after a semicolon does not matter. |
| `Cookies.HeaderRoundTrip` | packages/cookies/src/serialize.ts:59-140 | A header joined from cookie pairs reads back as the first value given for each name. |
| `Cookies.PlainCookieIsPair` | packages/cookies/src/serialize.ts:64-100 | A cookie serialized without attributes is its pair, and is refused exactly for an invalid name. |
| `Cookies.Header` | packages/cookies/src/serialize.ts:59-140 | A header built by serializing cookies one by one exists exactly if all names are valid, and reads back as the first value given for each. |

## Left out

- Network, SDK and vendor providers (email, LLM HTTP calls, push, message queues, storage, search, feature flags, analytics): I/O over libraries that are not part of this model.
- Redis and Postgres lock and cache providers: their guarantees live in scripts, SQL and server clocks.
- Fail-open reads and records of another version or in an unknown state in the idempotency manager: they give the guarantee up on purpose, so reads fail closed and records are current.
- Key validation, key prefixes, record timestamps and telemetry of the idempotency manager. Claim ids are fresh numbers, and one key is modelled, since keys share no record and no lock.
- WithLock.Run: the clock is taken to reach the deadline eventually, which with no positive poll interval is up to the environment.
- MemoryCache: values are strings, so `structuredClone` is not modelled; `getMany`, `setMany` and a fractional cap are left out.
- MemoryLock and CircuitBreaker: clocks and durations are integers.
- Recorder: `transform`, `observe`, `onFlush` and sink failures, which the code swallows, do not appear; an aborted `close` is left out.
- RingBuffer: a fractional capacity is left out.
- Transactions: queries sent to the pool outside a transaction, the detection of nested transactions and the pg and mysql adapters are left out.
- ServerSentEvents.SseDataLines: works on decoded text; UTF-8 decoding across chunks and the reader's lock are left out, and the result is the list of everything yielded.
- Fingerprint: `canonicalJson`, `fingerprintJson` and `fingerprintRequest` are left out.
- Cookies.ParseCookieHeader: the insertion order of the resulting map is not modelled.
- Cookies.SerializeCookie: takes the `Expires` date already formatted, and writes a Max-Age of 10^21 or more in digits where JavaScript switches to exponents.
- Base32: the HMAC, the counter and `verify` of the one-time passwords are left out, as are `bytesToHex` and the base64 encoder. Upper-casing is modelled as far as it can produce letters of the alphabet.
- Resolver: the copies `roles` hands out and `hasAll`, `hasAny` and the sorted views of permission sets are left out.
- `AsyncLocalStorage`, `AbortSignal`, retry, number utilities, file rotation, transports, configuration schemas and factories.
