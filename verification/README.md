# pvemaster: a verified model of its core services

pvemaster manages Proxmox clusters: it hands out IP addresses, runs durable operations
against Proxmox, keeps login sessions and imports inventories. This project models the
parts of it that carry state or arithmetic and proves what they promise. It is checked with

    dafny verify dfyconfig.toml

## How the model is built

* **IP address manager** (`FirstFree`, `Networks`, `IpamModel`, `IpamService`,
  `IpamInvariants`, `IpamTheorems`, `IpamEffects`, `IpamChoice`, `IpamPools`,
  `IpamAnswers`). `FirstFree` proves the interval merge and wrap-around search equal to a
  naive cyclic scan. `IpamModel` gives the outcome of each service call as a function of the
  tables, `IpamService` carries the calls out field by field on mutable tables and is proved
  to do what those functions say. `IpamTheorems` holds what is true of whole runs;
  `IpamEffects`, `IpamChoice`, `IpamPools` and `IpamAnswers` say of each call when it
  succeeds, what it answers otherwise, which address it takes and all it changes, in terms of
  addresses, clusters and the requests' fields. A table is a
  sequence and a row's id its index, because `ipam.py` never deletes a row of these tables;
  `uuid4()` is the next index. A call is one atomic transaction: the source takes row locks
  and an advisory lock. The clock, the random draws, the clusters and workloads that exist
  and the number of provisioning requests in flight are inputs. Text parsing of addresses
  and CIDRs is an input (`CidrText`), masking of host bits is modelled. /31 and /32 blocks
  behave as coded: their only offsets are blocked.
* **Backup runner** (`BackupRunner`, `BackupRunnerService`). One operation, its backup run
  and task rows, and any number of runners that interleave at their awaits, crash, are
  delivered again and see leases expire. Asking Proxmox, hearing its answer and committing
  what follows are separate steps; only the first transaction is one step, because it holds
  the row lock. Proxmox is a nondeterministic environment. A session keeps what it has
  loaded across commits (`backend/app/db.py:27`) and writes only what it changed, so a
  runner polls with its own copy of the task. `BackupRunnerService` is `run` as a method; it
  is proved to be a run of the step system.
* **Admission** (`Admission`, `AdmissionService`). The five request paths that share the
  operations table. A request reads the table, waits, inserts and answers; between these
  steps any other request or worker may commit, and the request may die, before its commit
  or after it. Hashes of keys and bodies are taken as injective.
* **Sessions** (`Sessions`, `SessionEffects`, `SessionService`, `LoginThrottle`). Refresh-token families,
  reuse detection, session epochs, and the login throttle. A token's secret is its index.
* **Browser token map** (`TokenMap`). The map of replaced access tokens with its path
  compression, and the requests that write it between their awaits. A refresh yields a
  token never seen before.
* **SSH keys** (`SshWire`, `SshKeyLine`). The wire form of a generated RSA key against a
  reader of section 5 of RFC 4251 and section 6.6 of RFC 4253, Base64 in both alphabets, and
  the two validators the printed line has to pass. White space is modelled below U+0080.
* **Inventory import** (`InventoryImport`).

Where the code does not do what one would expect of it, the model follows the code and
states exactly when it does:

* `_first_free_offset` stays inside the pool for all interval lists exactly when the cursor
  is inside (`FirstFree.InsidePoolIffCursorInside`); the cursor invariant provides that.
* Reserving for a provisioning request is idempotent, but a request whose address went into
  quarantine cannot reserve again, in any pool: the unique index refuses it
  (`IpamEffects.ReservationExact`, `IpamEffects.FailedProvisioningCannotReserve`, and the
  calls that lead there in `IpamEffects.RetryIsRefused`).
* A disabled address can never be released, so its pool can never be deleted
  (`IpamTheorems.TerminalStatesStay`).
* A terminal status of a backup is not final while another runner is alive that can still
  write a different one (`BackupRunner.TerminalIsFinalIff`). There are two ways to get there:
  a submission that outlasts its lease (`BackupRunner.FailedMayBecomeSucceeded`), and two
  runners that poll one task, which no lease prevents, because the lease is looked at only
  while there is no task row (`BackupRunner.TimeoutMayBecomeSucceeded`). In both the
  operation ends as a success that still carries the error of the failure.
* An SSH field comes back from the wire exactly while its length fits 32 bits
  (`SshWire.FieldRoundTripIff`), an mpint is minimal exactly when no needless leading zero
  byte was given (`SshWire.MpintIsMinimalIff`).

## Model

| member | source | states |
|---|---|---|
| FirstFree.CyclicScanIsFirstFit | backend/app/services/ipam.py:802-830 | The result is a free offset that no free offset precedes in cyclic order from the cursor, and none is returned exactly when all are covered. |
| FirstFree.InsidePoolIffCursorInside | backend/app/services/ipam.py:814-830 | The search stays inside the pool for every interval list if and only if the cursor lies in 0..size. |
| FirstFree.MergeBlocked | backend/app/services/ipam.py:804-812 | The merged list covers the clipped union of the given intervals, in order; non-empty intervals give separated pieces with gaps between them. |
| FirstFree.ScanRange | backend/app/services/ipam.py:814-829 | One pass over the merged list finds the first uncovered offset of its range. |
| FirstFree.FirstFreeOffset | backend/app/services/ipam.py:802-830 | The sorted, merged two-pass search equals the naive cyclic scan for every size, cursor and interval list. |
| Networks.ParseNetwork | backend/app/services/ipam.py:953-958 | A block parses exactly for a prefix of at most 32 or 128 bits; it has that prefix, is aligned, and contains the address it was written with: host bits are masked away. |
| Networks.SizeDoubles | backend/app/services/ipam.py:953-958 | A block of full prefix is one address, and every bit less doubles it. |
| Networks.ContainsIsInterval | backend/app/services/ipam.py:861 | The netmask test of membership is membership in the block's interval of addresses. |
| Networks.OverlapsIsIntersection | backend/app/services/ipam.py:97 | The overlap test of two blocks holds exactly when they share an address. |
| IpamModel.ExclusionProblem | backend/app/services/ipam.py:69-80 | No complaint is raised exactly when every excluded range lies in the block, in order and in its family. |
| IpamModel.FirstAvailable | backend/app/services/ipam.py:735-746 | The available row with the lowest address of the pool, and none exactly when the pool has none. |
| IpamModel.FirstDraw | backend/app/services/ipam.py:771-777 | A random probe yields an unblocked offset of the pool; without one, every draw was blocked. |
| IpamInvariants.BlockedMeans | backend/app/services/ipam.py:748-767 | The list of blocked intervals covers exactly the offsets that have a row or may not be handed out. |
| IpamInvariants.ChosenOffsetIsFree | backend/app/services/ipam.py:769-790 | The offset chosen at random or by scan lies in the pool and is not blocked, so a new row never leaves the pool. |
| IpamInvariants.StepKeepsInv | backend/app/services/ipam.py:55-712 | Every call keeps the full invariant: disjoint pools, placed and unique rows, cursors, and agreement of addresses with allocations. |
| IpamTheorems.UniqueHolderInEveryRun | backend/app/services/ipam.py:86-102 | In every run, across all pools that serve a cluster, deleted ones included, an IP value has at most one active holder. |
| IpamTheorems.TablesAgree | backend/app/models/ipam.py:139-153 | A row is reserved, assigned or quarantined exactly when one active allocation of that status points at it; otherwise none does. |
| IpamTheorems.OnlyUsableAddressesInEveryRun | backend/app/services/ipam.py:844-876 | In every run no address that is not disabled is the network address, the IPv4 broadcast, the current gateway or excluded. |
| IpamTheorems.Lifecycle | backend/app/services/ipam.py:370-712 | Whatever is called, addresses and allocations move only along their life cycles, quarantine ending only after its deadline. |
| IpamTheorems.TerminalStatesStay | backend/app/services/ipam.py:325-354 | Over every run disabled addresses stay disabled and keep their pool active, and released allocations never revive. |
| IpamTheorems.QuarantineHolds | backend/app/services/ipam.py:677-689 | A quarantined row is untouched until a call comes at or after its deadline. |
| IpamTheorems.QuarantineOverWholeRuns | backend/app/services/ipam.py:610-712 | An address put into quarantine at time t is not handed out again before t plus the period its pool had at t. |
| IpamTheorems.ReleaseIsIdempotent | backend/app/services/ipam.py:651-661 | A second release changes nothing, in particular not the deadline. |
| IpamTheorems.ReservationIsIdempotent | backend/app/services/ipam.py:500-512 | Asking again for a provisioning address returns the reservation already made and changes nothing. |
| IpamTheorems.AutomaticReservationFailsIffQuarantined | backend/app/models/ipam.py:145-153 | In a pool with room, an automatic reservation fails exactly when the request already has a quarantined allocation. |
| IpamTheorems.CidrChangeFindsCursorAtZero | backend/app/services/ipam.py:216-224 | A change of block always finds the cursor at 0 and leaves it there. |
| IpamTheorems.HarmlessUpdateNeverOverlaps | backend/app/services/ipam.py:237-253 | An update that leaves block and cluster alone is never refused for overlap. |
| IpamTheorems.OverlapRefusalIsExact | backend/app/services/ipam.py:86-102 | A new pool clashes exactly when it shares an address with an active pool of a common scope. |
| IpamTheorems.AutomaticRefusedIffNoRoom | backend/app/services/ipam.py:734-800 | Exhaustion is reported exactly when no usable offset is unmaterialized or available, under both strategies and for all draws. |
| IpamTheorems.AutomaticAllocation | backend/app/services/ipam.py:394-492 | An automatic allocation takes exactly one free offset, or reports exhaustion and changes nothing. |
| IpamTheorems.Capacity | backend/app/services/ipam.py:734-800 | Of successive automatic allocations exactly as many succeed as offsets are free, all different, and enough of them take every one. |
| IpamEffects.FreshPoolCapacity | backend/app/services/ipam.py:104-131 | A new pool has free exactly the offsets that are not special, not the gateway and not in an excluded range of the request. |
| IpamEffects.AllocateHandsOut | backend/app/services/ipam.py:394-492 | A successful allocation holds one usable address of the pool, the requested one if any, free until then; other rows and pools stay, but for the cursor of an automatic choice. |
| IpamEffects.ManualAllocationExact | backend/app/services/ipam.py:419-452 | A requested address is granted exactly when pool and workload match and the address is usable and vacant. |
| IpamEffects.ReservationHandsOut | backend/app/services/ipam.py:494-573 | A first reservation holds one usable, vacant address for the request. |
| IpamEffects.ReservationExact | backend/app/services/ipam.py:494-573 | For a requested address as for any, a reservation succeeds exactly when the request holds one already, or there is room and none of its addresses is in quarantine. |
| IpamEffects.FailedProvisioningCannotReserve | backend/app/services/ipam.py:610-633 | Once a failed provisioning has put its address into quarantine, its request reserves nothing in any pool; with room, the error is that the address is unavailable. |
| IpamEffects.RetryIsRefused | backend/app/services/ipam.py:559-572 | Three calls from empty tables lead to a pool with a free usable address that the request asks for and does not get. |
| IpamEffects.ReserveAddressExact | backend/app/services/ipam.py:370-392 | An address can be disabled exactly when it is in the block, not special and vacant; excluded ranges do not matter. |
| IpamEffects.ConfirmExact | backend/app/services/ipam.py:575-608 | Confirmation succeeds exactly for a request with a reservation, leaves its address assigned, and repeating it changes nothing. |
| IpamEffects.ReleaseStartsQuarantine | backend/app/services/ipam.py:635-661 | Releasing a held address quarantines allocation and row until now plus the pool's period; a failed provisioning does the same. |
| IpamEffects.ApproveExact | backend/app/services/ipam.py:667-712 | Approval succeeds exactly for a quarantined address past its deadline and frees it; the missing-allocation error never occurs. |
| IpamEffects.ApproveFreesOneOffset | backend/app/services/ipam.py:704-708 | Approval gives back exactly the offset that handing out took. |
| IpamEffects.DeleteExact | backend/app/services/ipam.py:317-368 | A pool is deleted exactly when the version matches, no provisioning waits and nothing of it is held or disabled. |
| IpamEffects.DeletedPoolsAreDrained | backend/app/services/ipam.py:325-354 | In every run every active allocation lies in an active pool. |
| IpamEffects.UpdateTouchesOnePool | backend/app/services/ipam.py:171-315 | An update is all or nothing, changes one pool, and once addresses exist never its block, gateway or cluster. |
| IpamChoice.AutomaticAllocationFollowsStrategy | backend/app/services/ipam.py:734-800 | An automatic allocation takes the lowest available row and leaves the pools; without one a sequential pool takes the free offset next after its cursor, a random one the first draw that is free or else the sequential answer, and the cursor moves just past it. |
| IpamChoice.AutomaticReservationFollowsStrategy | backend/app/services/ipam.py:545-546 | So does a first automatic reservation for a provisioning request. |
| IpamPools.CreateExact | backend/app/services/ipam.py:55-153 | A pool is created exactly when each of seven conditions holds, the first that fails being the answer; it holds what was asked for and no other row changes. |
| IpamPools.RangeProblemIsFirst | backend/app/services/ipam.py:69-80 | What is said of excluded ranges is said of the first that is no good, by its family or its bounds. |
| IpamPools.UpdateExact | backend/app/services/ipam.py:171-315 | A pool is updated exactly when each of nine conditions holds, the first that fails being the answer; every field has the requested value or, if the request does not name it, its old one. |
| IpamPools.DeleteAnswers | backend/app/services/ipam.py:317-368 | A deletion answers with the first thing in its way; otherwise the pool is inactive and nothing else changes. |
| IpamAnswers.ReserveAddressAnswers | backend/app/services/ipam.py:370-392 | An administrative exclusion answers with the first thing in its way; otherwise one row, made if need be, is disabled and nothing else changes. |
| IpamAnswers.AllocateAnswers | backend/app/services/ipam.py:394-492 | An allocation answers with the first of: no workload, another cluster, outside, special, excluded, taken, or nothing left; a refusal leaves no trace. |
| IpamAnswers.ReservationAnswers | backend/app/services/ipam.py:494-573 | A reservation already held is returned; any other answers with the first thing in its way, last an address of the request in quarantine; a refusal leaves no trace. |
| IpamAnswers.ConfirmAnswers | backend/app/services/ipam.py:575-608 | Confirmation assigns exactly the reserved address and its allocation to the workload, is refused exactly without a reservation, and changes nothing else. |
| IpamAnswers.FailedProvisioningAnswers | backend/app/services/ipam.py:610-633 | A failed provisioning sends exactly the reserved address of its request into quarantine for its pool's period, and changes nothing for a request without one or a confirmed one. |
| IpamAnswers.ReleaseAnswers | backend/app/services/ipam.py:635-665 | A release sends exactly a reserved or assigned address into quarantine for its pool's period, and changes nothing else or otherwise. |
| IpamAnswers.ApproveAnswers | backend/app/services/ipam.py:667-712 | An approval answers with the first thing in its way; otherwise the address is available, its allocation released, and nothing else changes. |
| IpamService.IpamService.CreatePool | backend/app/services/ipam.py:55-153 | The method leaves the tables and answer the model gives, with the same order of errors, and keeps the invariant. |
| IpamService.IpamService.FindsOverlap | backend/app/services/ipam.py:241-253 | The walk over the pools finds a clash exactly when there is one. |
| IpamService.IpamService.CheckUpdate | backend/app/services/ipam.py:172-253 | The checks of an update fail in the order of the source. |
| IpamService.IpamService.UpdatePool | backend/app/services/ipam.py:171-315 | The method does what the model of an update says and keeps the invariant. |
| IpamService.IpamService.DeletePool | backend/app/services/ipam.py:317-368 | The method does what the model of a deletion says and keeps the invariant. |
| IpamService.IpamService.ReserveAddress | backend/app/services/ipam.py:370-392 | The method does what the model of an administrative exclusion says and keeps the invariant. |
| IpamService.IpamService.BlockedIntervals | backend/app/services/ipam.py:748-767 | The intervals collected in the loop are those of the model. |
| IpamService.IpamService.TakeAutomaticCandidate | backend/app/services/ipam.py:734-800 | The available row, the random probes with their fallback, the new row and the moved cursor are those of the model. |
| IpamService.IpamService.Allocate | backend/app/services/ipam.py:394-492 | The method does what the model of an allocation says, undoing everything on failure, and keeps the invariant. |
| IpamService.IpamService.ReserveForProvisioning | backend/app/services/ipam.py:494-573 | The method does what the model of a reservation says, undoing everything on failure, and keeps the invariant. |
| IpamService.IpamService.ConfirmProvisioningIp | backend/app/services/ipam.py:575-608 | The method does what the model of a confirmation says and keeps the invariant. |
| IpamService.IpamService.QuarantineProvisioningIp | backend/app/services/ipam.py:610-633 | The method does what the model of a failed provisioning says and keeps the invariant. |
| IpamService.IpamService.Release | backend/app/services/ipam.py:635-665 | The method does what the model of a release says and keeps the invariant. |
| IpamService.IpamService.ApproveRelease | backend/app/services/ipam.py:667-712 | The method does what the model of an approval says and keeps the invariant. |
| BackupRunner.NextKeepsInv | backend/app/services/backup_runner.py:128-266 | Every step of every runner keeps: one runner at most on its way to submitting, one submission, one task row, agreeing statuses, no error before an end and one after every failure or timeout. |
| BackupRunner.StepsKeepTheirPlace | backend/app/services/backup_runner.py:128-266 | Only the first transaction and commits change rows, only the call of Proxmox counts as a submission, only its answer as seen; a crash takes its runner alone, and no step moves another. |
| BackupRunner.AtMostOneSubmission | backend/app/services/backup_runner.py:190-266 | In every interleaving of deliveries, pending answers and commits, crashes and lease expiries the backup is submitted at most once, operation and run agree, and success means the one task was seen to end well. |
| BackupRunner.TerminalIsFinalIff | backend/app/services/backup_runner.py:381-426 | A terminal status is final if and only if no runner still alive can write another: none awaits Proxmox or a commit of another status, and one between polls only where the row says timeout and its polling is over. |
| BackupRunner.FailedMayBecomeSucceeded | backend/app/services/backup_runner.py:190-205 | A concrete run in which a failed operation becomes succeeded because a submission outlasts its lease; the error stays. |
| BackupRunner.TimeoutMayBecomeSucceeded | backend/app/services/backup_runner.py:268-379 | A concrete run, with no lease expiring, in which one of two pollers times out while the other awaits an answer, and that answer turns the timeout into a success. |
| BackupRunner.TerminalStaysWithoutOverlap | backend/app/services/backup_runner.py:134-139 | In crash-and-restart runs that do not overlap, a terminal operation never changes again, and carries an error exactly when it did not succeed. |
| BackupRunner.LeaseProtectsSubmission | backend/app/services/backup_runner.py:189-205 | A delivery leaves an unanswered submission alone exactly while its lease lasts, fails it afterwards, and never submits again. |
| BackupRunner.SubmissionKeepsItsLease | backend/app/services/backup_runner.py:189-214 | The delivery that marks an operation as running is given its full lease: no other delivery before its end declares the submission lost. |
| BackupRunner.PollsAreBounded | backend/app/services/backup_runner.py:278-285 | However many runners poll, and whatever commits are pending, no task records more polls than allowed. |
| BackupRunnerService.BackupOperationRunner.Acquire | backend/app/services/backup_runner.py:128-214 | The locked first transaction refuses, defers to the lease holder or marks as running as the step system says. |
| BackupRunnerService.BackupOperationRunner.Poll | backend/app/services/backup_runner.py:268-379 | The status is success exactly when the first deciding answer comes within deadline and polls and is OK, failure exactly when it is any other, timeout exactly without one; the task's row, error and count go with it. Polling takes three steps (ask, hear, count) for each poll that is left and two to give up. |
| BackupRunnerService.BackupOperationRunner.Run | backend/app/services/backup_runner.py:128-266 | What a run that does not crash comes to, in every case of rows, permissions, lease, client, submission and answers, with its error and the number of submissions; it is a run of the step system, each step at its own time, of bounded length. |
| Admission.AdmissionInEveryInterleaving | backend/app/models/operation.py:118-127 | In every interleaving, requests that die before or after their commit included: one operation per user and key, one active per workload, one active restore per target, one request that made each operation, and accepted replies for a key all name the one operation of that body. |
| Admission.ReplayFindsTheOperation | backend/app/services/operations.py:81-94 | However the system moves on, a request with a used key gets the operation of that key for the same body and a refusal for another. |
| Admission.InsertIsExact | backend/app/services/operations.py:133-142 | After any stale read the insert succeeds exactly when key, workload and restore target are free at that moment. |
| Admission.InsertStores | backend/app/services/operations.py:108-133 | An admitted insert adds the request's operation, queued and active on its workload, with its owner (none for a restore) and its run or restore row, and changes no other row. |
| Admission.AdmittedHoldsTheWorkload | backend/app/models/operation.py:118-127 | Until a worker ends it, an admitted operation keeps out every other insert for its workload, in every interleaving. |
| Admission.AdmittedHoldsTheTarget | backend/app/models/backup.py:88-94 | Until a worker ends it, an admitted restore keeps out every other restore to its target, in every interleaving. |
| Admission.LookupsExact | backend/app/services/operations.py:81-106 | A request with an unused key looks for a conflict (to restore, inserts), gives up exactly when its workload is held, and after its commit answers with its operation. |
| Admission.StepsKeepTheirPlace | backend/app/services/backups.py:488-528 | Requests change rows only by inserting, a worker's ending always takes effect on one status, and a request that dies leaves its rows. |
| Admission.RowsPersist | backend/app/services/backups.py:248-262 | Operations never disappear and never change user, key, body, workload or owner; replies are final. |
| Admission.NextKeepsInv | backend/app/services/customer_portal.py:112-174 | Every step of every request and worker keeps the indexes, the run rows, the replies and one maker per operation, whether or not it lived to answer. |
| AdmissionService.OperationService.Admit | backend/app/services/operations.py:79-182 | Alone, a request is answered from the operation of its key, else refused exactly when its workload or restore target is held, else adds one queued operation with its rows; it is five steps of the interleaving system. |
| Sessions.FamiliesAreChains | backend/app/services/auth.py:141-152 | In every run each token family is one chain of replacements of which only the newest may be unrevoked. |
| Sessions.EndedFamiliesStayEnded | backend/app/services/auth.py:115-134 | After reuse or logout no token of the family ever refreshes, it gains no member, and no access token issued to the user before is accepted. |
| Sessions.EndedUsersStayEnded | backend/app/services/accounts.py:50-69 | A new password, a deletion or a change of activity ends all refresh and access tokens issued to the user before, for ever. |
| Sessions.RefreshIsExact | backend/app/services/auth.py:102-169 | Refreshing succeeds exactly for an unrevoked, unexpired token of an active user, and then once. |
| Sessions.ExpiryIsExact | backend/app/services/auth.py:135-138 | An issued token refreshes exactly until its expiry; presented later it is revoked, and presented again it counts as reuse. |
| Sessions.StepKeepsInv | backend/app/services/auth.py:102-213 | Every authentication and account call keeps the parent and replacement links, the tails and the epochs. |
| SessionEffects.SetActiveExact | backend/app/services/accounts.py:143-151 | The account is active as asked afterwards; if it was not before, its sessions end; no other account or user's token changes. |
| SessionEffects.DeleteUserExact | backend/app/services/accounts.py:212-233 | A deleted account is inactive and its sessions end; nothing else changes. |
| SessionEffects.NewPasswordExact | backend/app/services/accounts.py:50-69 | A new password ends the account's sessions, leaves its activity alone, and changes nothing else. |
| SessionEffects.CreateUserExact | backend/app/services/accounts.py:71-75 | A new account is active, in its first epoch, and nothing else changes. |
| SessionEffects.LoginExact | backend/app/services/auth.py:65-100 | A right password issues a pair exactly for an active account: a token with a new family and its expiry, and an access token that is accepted. |
| SessionEffects.RefreshExact | backend/app/services/auth.py:102-169 | What each case of a refresh answers and changes: unknown or inactive, reused, expired, exchanged. |
| SessionEffects.LogoutExact | backend/app/services/auth.py:171-194 | A logout ends one family and one epoch and changes nothing else. |
| SessionEffects.InactiveStayOut | backend/app/dependencies.py:35-42 | In every run an inactive account gets no login, no refresh and no access until a call makes it active. |
| SessionEffects.DeletedStayOut | backend/app/services/accounts.py:221-233 | In every run after its deletion an account gets no login, no refresh and no access. |
| SessionService.SessionService.Login | backend/app/services/auth.py:32-100 | A locked key is turned away unevaluated; a failure is recorded; success clears the throttle and issues a pair. |
| SessionService.SessionService.RecordFailure | backend/app/services/auth.py:215-239 | The throttle row after a failure and whether the key is now locked. |
| SessionService.SessionService.Refresh | backend/app/services/auth.py:102-169 | The method rotates, revokes or refuses as the model says and keeps the invariant. |
| SessionService.SessionService.Logout | backend/app/services/auth.py:171-194 | The method revokes the family and ends the epoch as the model says. |
| SessionService.SessionService.RevokeFamily | backend/app/services/auth.py:241-246 | Every unrevoked token of the family is revoked and no other is touched. |
| SessionService.SessionService.NewPassword | backend/app/services/accounts.py:248-264 | The method revokes all tokens of the user and ends the epoch as the model says. |
| SessionService.SessionService.SetActive | backend/app/services/accounts.py:143-151 | The method revokes and ends the epoch exactly when the activity changes. |
| SessionService.SessionService.DeleteUser | backend/app/services/accounts.py:221-233 | The method revokes, deactivates and ends the epoch as the model says. |
| LoginThrottle.WindowBound | backend/app/services/auth.py:215-239 | One throttle window evaluates at most limit + ceil(window / lockout) - 1 failures. |
| LoginThrottle.WindowBoundIsReached | backend/app/services/auth.py:235-238 | Some run of attempts reaches that bound, so none smaller holds. |
| LoginThrottle.RateBound | backend/app/services/auth.py:41-59 | A run of failures lasting T has at most floor(T / window) + 1 times the window bound evaluated. |
| LoginThrottle.LocksAtTheLimit | backend/app/services/auth.py:235-239 | Within a window the failure that reaches the limit locks the key, for exactly the lockout, and no earlier one does. |
| LoginThrottle.AnotherFailure | backend/app/services/auth.py:215-239 | After any run of failures one more is turned away, or counts and from the limit on locks anew, or starts a new window, as its time says. |
| TokenMap.CurrentIsFinalOrOnCycle | frontend/lib/authenticated-fetch.ts:9-18 | On every map the walk stops at the final replacement or on a cycle. |
| TokenMap.CompressionPreservesMeaning | frontend/lib/authenticated-fetch.ts:16 | On an acyclic map path compression changes no token's final replacement and creates no cycle. |
| TokenMap.SecondLookIsDirect | frontend/lib/authenticated-fetch.ts:12-17 | A second look finds the same token, one replacement away. |
| TokenMap.MapStaysAcyclic | frontend/lib/authenticated-fetch.ts:42-86 | Over every interleaving of requests, shared refreshes and resets the map stays acyclic and no request is sent more than twice. |
| TokenMap.OlderGenerationNeverWrites | frontend/lib/authenticated-fetch.ts:67-75 | A request begun before a reset never writes the map, whenever it goes on. |
| TokenMap.ExpiredJoinsTheRefresh | frontend/lib/authenticated-fetch.ts:42-55 | An expired request joins the refresh in flight, and starts one only if there is none. |
| TokenMap.WaiterGoesOn | frontend/lib/authenticated-fetch.ts:56-79 | A waiter of the current generation leaves its token replaced by the new one and is sent again with it; an older one or one without a token settles and leaves the map. |
| TokenMap.OtherStepsExact | frontend/lib/authenticated-fetch.ts:67-86 | A request begins with its token followed to the end, answers settle it, and a reset forgets map and refresh. |
| TokenMap.NextRequestSendsTheNewToken | frontend/lib/authenticated-fetch.ts:76-77 | After a successful refresh a request that begins with the old token sends the new one, or what has replaced that. |
| TokenMap.ReplacedTokenIsNotSentAgain | frontend/lib/authenticated-fetch.ts:67-69 | Until a reset, in every interleaving, a request that begins with a replaced token sends one that nothing replaces. |
| TokenMap.AuthenticatedFetch.CurrentToken | frontend/lib/authenticated-fetch.ts:9-18 | The loops terminate on every map and leave the token and the compressed map of the model. |
| TokenMap.AuthenticatedFetch.Begin | frontend/lib/authenticated-fetch.ts:67-69 | Beginning a request compresses the map and sends the current token, as a step of the system. |
| TokenMap.AuthenticatedFetch.JoinRefresh | frontend/lib/authenticated-fetch.ts:42-55 | An expired request joins the refresh in flight or starts one, as a step of the system. |
| TokenMap.AuthenticatedFetch.Resume | frontend/lib/authenticated-fetch.ts:56-79 | After the refresh it is taken down, and the map is written and the request retried only in its own generation, as a step of the system. |
| TokenMap.AuthenticatedFetch.Reset | frontend/lib/authenticated-fetch.ts:82-86 | A reset forgets the map and the refresh in flight and starts a new generation. |
| SshWire.ConcatBytes | frontend/lib/ssh-keypair.ts:8-17 | The filled buffer holds the chunks one after another. |
| SshWire.BuildBlob | frontend/lib/ssh-keypair.ts:87-91 | The assembled buffer is the key blob. |
| SshWire.FieldRoundTripIff | frontend/lib/ssh-keypair.ts:19-30 | A length-prefixed field reads back as sent if and only if its length is below 2^32. |
| SshWire.MpintIsItsValue | frontend/lib/ssh-keypair.ts:32-35 | An mpint reads back, in two's complement, as the non-negative number given. |
| SshWire.MpintIsMinimalIff | frontend/lib/ssh-keypair.ts:32-35 | An mpint is minimal if and only if the number was given without a needless leading zero byte. |
| SshWire.BlobRoundTrip | frontend/lib/ssh-keypair.ts:86-91 | A reader of the wire form gets exactly "ssh-rsa", e and n from the blob, with nothing left over. |
| SshKeyLine.Base64RoundTrip | frontend/lib/ssh-keypair.ts:45-49 | Decoding an encoding returns the bytes. |
| SshKeyLine.Base64UrlRoundTrip | frontend/lib/ssh-keypair.ts:37-43 | Every byte string carried in a JSON Web Key is recovered by the URL-safe decoder with its padding. |
| SshKeyLine.DigitsInOrder | frontend/lib/ssh-keypair.ts:45-49 | The digits are those of RFC 4648 in their order, and there are no others. |
| SshKeyLine.UrlSafeDigits | frontend/lib/ssh-keypair.ts:37-43 | The URL-safe digits differ in the last two, and read back as the others. |
| SshKeyLine.GeneratedLineAcceptedIff | frontend/lib/ssh-public-key.ts:12-60 | For every ASCII name the generated line passes the browser's validator as one key, and the API's validator, if and only if it fits the two size limits. |
| SshKeyLine.PrintedLineCarriesTheKey | frontend/lib/ssh-keypair.ts:86-99 | The second word of a generated line, decoded and read as SSH does, is the key that was exported. |
| SshKeyLine.LineAccepted | backend/app/schemas/provisioning.py:115-133 | Both validators accept a line of any kind, encoding and comment exactly when the kind is one of the three, the encoding is Base64 of 16 to 2048 bytes, and the line has at most 4096 characters. |
| SshKeyLine.EightKeysAtMost | frontend/lib/ssh-public-key.ts:12-30 | The browser takes one to eight keys, one a line, exactly when it takes each of them. |
| SshKeyLine.CommentIsTheName | frontend/lib/ssh-keypair.ts:95 | The comment is the words of the key name joined by hyphens, and `pvemaster` for a name without any. |
| InventoryImport.Inventory.ImportWorkloads | backend/app/services/clusters.py:727-822 | All or nothing: the import succeeds exactly for acceptable items with distinct ids, then each has its row, the counts add up, and all else is unchanged. |
| InventoryImport.Inventory.WriteRow | backend/app/services/clusters.py:763-796 | One guest's row is created or overwritten, keeping owner and counting the version. |
| InventoryImport.CodeMeans | backend/app/services/clusters.py:744-762 | The kind is accepted and stored in capitals whatever its case, and the state shown in capitals, or as unknown if absent or too long. |
| InventoryImport.ImportIsDetermined | backend/app/services/clusters.py:743-796 | The rows an import may leave are determined. |
| InventoryImport.ReimportOnlyRefreshes | backend/app/services/clusters.py:784-796 | Importing the same list again creates nothing and changes only observation time and version of the reported rows. |
| InventoryImport.OwnershipSurvives | backend/app/services/clusters.py:764-783 | Ownership survives every import, new rows have no owner, and no row goes away. |

## Left out

- Lock order and isolation: each service call is one atomic step, except for the requests of `Admission`, the runners of `BackupRunner` and the browser requests of `TokenMap`, which interleave; a commit takes effect at one moment.
- Columns nothing reads back: bridge, VLAN, reasons, allocation kind, release and confirmation times, row versions other than the pool's.
- Stripping of pool names: names are compared as stored.
- The response objects; `release` also asserts a workload when it builds its response, after the commit.
- Validation before admission: a request in `Admission` has found its workload, and the Proxmox checks of a restore are the possibility that it dies.
- Workers in `Admission` may write any status the unique indexes admit; the power, restore and provisioning runners are not part of this model.
- The snapshot metadata and transferred bytes that a successful backup records, and the parsing of its log.
- Role and version checks of the account methods, and the rule about the last super administrator.
- Expiry of access tokens: acceptance is modelled without it, which makes the revocation theorems stronger.
- IntegrityError on concurrent imports, and the validation of raw guest items before `import_workloads` sees them.
- White space and letters above U+007F in key names, node names and guest kinds.
- Cryptography and hashing; the PEM wrapping of the private key; the fingerprint.
- The overview figures of a cluster: guest counts, load, and the sums of used and total storage in which a shared storage counts once (`_storage_capacity`). They are read for display, and nothing is stored from them.
