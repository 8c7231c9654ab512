# Verified model of the agent-events server

A Dafny model of the stateful core of the server: the in-memory rate limiter, the agent
table and its creation transaction, user tokens and sign-ins, the event use cases, and the
choice of a client address. `dafny verify dfyconfig.toml` checks everything.

## How it is built

- **Limiter.** `RateLimiter` holds the class with its counter map. A ghost history records
  every call with the buckets that `evict` removed; the order in which Go ranges over a map
  is left open, so the lemmas of `LimiterBounds` hold for every eviction order. They
  compare a history with the ideal limiter, which keeps an unbounded counter per bucket.
- **Agents.** `AgentProtocol` is a state machine with one event per SQL statement and any
  number of transactions. A statement that is not enabled changes nothing, so every sequence
  of events is an interleaving. `AgentGuarantees` proves what all of them have in common,
  `AgentRevocation` says when a reported revocation is one, and `AgentTouches` bounds the
  writes of the time of last use. `AgentRepository` has the repository and use-case methods,
  statement by statement: between two statements the others run an arbitrary sequence of
  events.
- **Sessions.** `Sessions` splits an authentication into reading the row and judging it with
  a clock reading taken since, and interleaves it with sign-ins, issues, logouts and
  cleanups. `Users` has the upsert, and `AuthService` the use cases over both.
- **Events.** `EventProtocol` splits a create into limiter call and save, and an update or
  delete into ownership check and write. `EventService` has the use cases.
- **Client address.** `ClientIp` has the header scan, `GoStrings` the splitting and trimming.

A time is a number of nanoseconds since Go's zero time, which is also the NULL time. Clock
readings, drawn ids and random token bodies are parameters; so is the failure of any
statement. Token hashes are collision free (`HashOf`). Assumed of Postgres: a FOR UPDATE
lock lasts until its transaction ends, a statement sees all earlier commits, single
statements are atomic, and unique columns and references are enforced.

## What turned out otherwise than documented

- The repository's README promises per-user and per-IP limits. The code keeps them only as
  long as no open bucket is evicted: `LimiterBounds.EvictionReadmits` is a run that admits
  twice the limit. `LimitKeptIff` has the exact condition: as long as nothing has been
  evicted, the next call is certain to keep a positive limit if and only if it is below
  that limit or fewer than 4096 pairs of action and key are open (`AnswerCertainIff` says
  the same of its answer). After evictions `LimitStaysKeptIff` decides by the stored counter.
  `EvictionExactlyUnderLoad` says exactly when evictions start, and
  `AdmissionBound` how much each can add.
- `prune` is harmless exactly for windows of whole seconds
  (`OwnBucketAliveIffWholeSeconds`). Both configured windows are.
- The repository's `Revoke` can report success without revoking, on a row committed between
  its update and its second look (`AgentRevocation.LateRowEscapesRevoke`). Its success means
  revoked, whatever the others do, if and only if the row is there at the call
  (`SuccessMeansRevokedIff`). No caller in the program reaches the failing case, because
  the use case `RevokeAgent` reads the row first and rows are never removed.
- An update or delete that loses a race against a delete reports an internal error, not a
  missing event: `EventService.LostRace` has both on the run of `DeleteWins`. For the owner
  and a valid name that is the answer exactly if a statement fails or the row is gone by the
  write (`EventService.Update`, `EventService.Delete`).

## Model

| member | source | states |
|---|---|---|
| GoTime.InOwnWindow | server/internal/adapters/memory/rate_limiter.go:51-53 | with a window of whole seconds every instant lies between its truncated start and that start plus the window, in Unix seconds |
| RateLimiter.RateLimiter.constructor | server/internal/adapters/memory/rate_limiter.go:29-40 | a new limiter has the empty history |
| RateLimiter.RateLimiter.Allow | server/internal/adapters/memory/rate_limiter.go:42-63 | each call extends the history by one call that is legal for the map it found, and the map is the one that the history determines; what that means for the answer is Exactness and AdmissionBound; an action without a limit is allowed and changes nothing |
| RateLimiter.RateLimiter.Evict | server/internal/adapters/memory/rate_limiter.go:65-73 | removes entries, whichever they are, until 4095 are left, and none where there are fewer than 4096 |
| RateLimiter.RateLimiter.Prune | server/internal/adapters/memory/rate_limiter.go:75-87 | removes exactly the entries whose window has ended or whose action has no limit |
| LimiterBounds.OwnBucketAliveIffWholeSeconds | server/internal/adapters/memory/rate_limiter.go:75-87 | no instant finds its own bucket dead if and only if the window is a positive whole number of seconds |
| LimiterBounds.HitsIff | server/internal/adapters/memory/rate_limiter.go:51-53 | a call counts in the bucket of an action, a key and an instant if and only if it is for that action and that key and lies in the same window |
| LimiterBounds.WindowCounts | server/internal/adapters/memory/rate_limiter.go:51-62 | the measures of a bucket count the calls, and the admitted calls, for its action and key in its window |
| LimiterBounds.DeadIffEnded | server/internal/adapters/memory/rate_limiter.go:75-87 | a bucket may be pruned exactly from the end of its window on |
| LimiterBounds.OpenKeysCount | server/internal/adapters/memory/rate_limiter.go:51-53 | over a monotone run as many buckets are open as there are pairs of action and key with a call in an open window |
| LimiterBounds.DeadNeverCurrent | server/internal/adapters/memory/rate_limiter.go:83-85 | a bucket that may be pruned is never the bucket of a later call |
| LimiterBounds.StoredAtMostIdeal | server/internal/adapters/memory/rate_limiter.go:55-62 | any clock, any windows: a stored counter is positive and at most the ideal one |
| LimiterBounds.NeverStricter | server/internal/adapters/memory/rate_limiter.go:42-63 | any clock, any windows, any evictions: a call that the ideal limiter allows is allowed |
| LimiterBounds.BoundedMemory | server/internal/adapters/memory/rate_limiter.go:55-58 | after every call the map has at most 4096 entries |
| LimiterBounds.AccountedAlways | server/internal/adapters/memory/rate_limiter.go:55-62 | the invariant of an open bucket: its counter accounts for every admission since its last eviction, and for every call if it was never evicted |
| LimiterBounds.AdmissionBound | server/internal/adapters/memory/rate_limiter.go:55-73 | a bucket admits at most its limit times one more than its evictions, and exactly its first `max` calls if never evicted |
| LimiterBounds.ExactWithoutEviction | server/internal/adapters/memory/rate_limiter.go:51-62 | a call whose bucket was never evicted gets the ideal answer although dead buckets were pruned |
| LimiterBounds.EvictionExactlyUnderLoad | server/internal/adapters/memory/rate_limiter.go:55-73 | a run evicts nothing if and only if every limited call finds fewer than 4096 pairs of action and key open |
| LimiterBounds.Exactness | server/internal/adapters/memory/rate_limiter.go:42-87 | under that load a call is allowed if and only if its action has no limit or fewer than `max` calls for its action and key came before it in its window |
| LimiterBounds.RefusalCertainIff | server/internal/adapters/memory/rate_limiter.go:42-73 | after any run with any clock: whatever gets evicted the next call is refused, if and only if the limit is below one, or its stored counter is used up and fewer than 4096 stored buckets are open |
| LimiterBounds.AnswerCertainIff | server/internal/adapters/memory/rate_limiter.go:42-73 | before the call, nothing evicted so far: the answer is certain to be the one that the limit asks for if and only if the call is below its limit, or fewer than 4096 pairs of action and key are open, or the limit is below one |
| LimiterBounds.LimitKeptIff | server/internal/adapters/memory/rate_limiter.go:42-73 | under exactly that condition every possible next call keeps the calls admitted in the window within the limit |
| LimiterBounds.LimitStaysKeptIff | server/internal/adapters/memory/rate_limiter.go:42-73 | after any run, with any clock and any evictions: every possible next call leaves the bucket's admissions within the limit if and only if they are still below it, or have just reached it and the call is certain to be refused |
| LimiterBounds.SlidingBound | server/internal/adapters/memory/rate_limiter.go:51-62 | any interval of one window length admits at most two limits per action and key, plus one for each eviction of the two buckets that it meets |
| LimiterBounds.EvictionReadmits | server/internal/adapters/memory/rate_limiter.go:65-73 | a concrete run in which an evicted bucket admits twice its limit, so the limit alone is no bound and AdmissionBound is tight |
| AgentProtocol.CountStep | server/internal/adapters/postgres/gen/agents.sql.go:14-16 | no statement raises a user's active count but a commit, and that only to within its own transaction's limit |
| AgentProtocol.CountInvStep | server/internal/adapters/postgres/agent_repository.go:35-46 | every statement keeps that the counted value is an upper bound until the transaction ends |
| AgentProtocol.InvAlways | server/internal/adapters/postgres/agent_repository.go:22-53 | lock ownership, counts, keys and references hold after every interleaving |
| AgentProtocol.ClashIff | server/internal/adapters/postgres/migrations/001_init.sql:20-28 | an insert breaks a constraint if and only if a committed or pending row has its id or its key hash |
| AgentGuarantees.CapHolds | server/internal/adapters/postgres/agent_repository.go:22-53 | no interleaving of creates, failures and revokes takes a user's committed active agents above the cap |
| AgentGuarantees.Linearizable | server/internal/transport/http/handler/fakes_test.go:196-214 | every interleaving has the answers, of creates and of revokes, and the final table of the atomic operations taken one after the other |
| AgentGuarantees.EachCallOnce | server/internal/adapters/postgres/agent_repository.go:31-52 | a true is one atomic create, a false one refusal, an error nothing unless an unacknowledged commit happened |
| AgentGuarantees.RealTimeOrder | server/internal/adapters/postgres/agent_repository.go:31-52 | at any moment of any run the atomic creates of calls not yet begun are still to come and those of ended calls are past, so a call that ended before another began comes first |
| AgentGuarantees.Undisturbed | server/internal/adapters/postgres/agent_repository.go:22-53 | with the user there and unlocked and no row, committed or pending, with the id or key hash, a call's statements all run and add the row exactly below the limit |
| AgentGuarantees.SlotsConserved | server/internal/adapters/postgres/gen/agents.sql.go:141-145 | active agents are the initial ones plus committed creates minus effective revokes |
| AgentGuarantees.AtMostOneEffectiveRevoke | server/internal/adapters/postgres/gen/agents.sql.go:141-145 | however many revokes target an agent at most one frees its slot |
| AgentGuarantees.RevocationPermanent | server/internal/adapters/postgres/gen/agents.sql.go:141-162 | from any reachable state on, no later statement removes a row, changes its owner or key, or moves a revocation time once set |
| AgentRepository.AgentDatabase.Others | server/internal/adapters/postgres/agent_repository.go:22-53 | interference between two statements runs every scheduled event of the others, leaves the caller's transaction alone and keeps every row's fixed parts |
| AgentRepository.AgentDatabase.LockUserForUpdate | server/internal/adapters/postgres/gen/agents.sql.go:130-139 | locked exactly if the statement runs, the user has a row and nobody holds its lock; the missing-user error exactly if the statement runs and there is no row; otherwise a store error |
| AgentRepository.AgentDatabase.CountActiveAgentsByUser | server/internal/adapters/postgres/gen/agents.sql.go:14-23 | the count is that of the committed active rows of the user |
| AgentRepository.AgentDatabase.InsertAgent | server/internal/adapters/postgres/gen/agents.sql.go:67-93 | the row is pending exactly when the statement runs and no committed or pending row has its id or key hash |
| AgentRepository.AgentDatabase.CreateIfUnderLimit | server/internal/adapters/postgres/agent_repository.go:22-53 | the two results report how the transaction ended; a true means that every statement ran and leaves the row in the table; with nobody else about and user, lock, id and key hash free, the row is added exactly below the limit |
| AgentRepository.AgentDatabase.CreateAgent | server/internal/core/usecase/auth.go:213-248 | success returns "aea_" and the drawn part as the key and stores its hash on an active row; a blank name never reaches the database; the limit error is given exactly if the transaction refused; undisturbed the answer and the table are exactly given by the number of the user's active rows |
| AgentRepository.AgentDatabase.SetRevokedAt | server/internal/adapters/postgres/gen/agents.sql.go:141-158 | sets the time only on an existing row that has none, and says whether it did |
| AgentRepository.AgentDatabase.Revoke | server/internal/adapters/postgres/agent_repository.go:87-100 | the exact new state and answer, whether or not the row is there at the call; on a row that is, success means revoked and an earlier time is kept |
| AgentRevocation.SuccessMeansRevokedIff | server/internal/adapters/postgres/agent_repository.go:87-100 | from any state of the invariant, success of the repository's Revoke means revoked whatever the others do, if and only if the row is there at the call |
| AgentRepository.AgentDatabase.RevokeAgent | server/internal/core/usecase/auth.go:260-291 | a nil error means the agent is the caller's and revoked; refusals have their exact cause and leave no mark; for an owner the answer and the table are given exactly, with the time of this call where none was set, and no other row changed |
| AgentRepository.AgentDatabase.GetByKeyHash | server/internal/adapters/postgres/agent_repository.go:64-71 | finds the only row with the hash, whose user exists, or there is none |
| AgentRepository.AgentDatabase.TouchIfNeeded | server/internal/core/usecase/auth.go:203-208 | a recent use writes nothing; otherwise the one touch statement runs and the time of last use becomes now; nothing else of any row changes |
| AgentRepository.AgentDatabase.TouchLastUsed | server/internal/adapters/postgres/agent_repository.go:102-104 | the row stays, its time of last use becomes now, and with nobody else about nothing else of it changes |
| AgentRepository.AgentDatabase.AuthenticateAgent | server/internal/core/usecase/auth.go:178-211 | by the row with the key's hash when it was read: none is an unknown key, a revoked one is refused, an active one is returned, and internal exactly if a needed read fails; an authenticated agent's user exists; the statements added are those of the throttle |
| AgentRepository.AgentDatabase.AuthenticateEach | server/internal/core/usecase/auth.go:178-211 | any number of authentications of one key in a row leave the time of last use, and issue the touch statements, of which TouchThrottle speaks |
| AgentRepository.AgentDatabase.RevokeThenAuthenticate | server/internal/core/usecase/auth.go:178-191 | after a reported revocation no later authentication with the key succeeds, whatever happens in between |
| AgentRevocation.LateRowEscapesRevoke | server/internal/adapters/postgres/agent_repository.go:93-97 | a concrete run in which the repository's second look succeeds on a row that is not revoked |
| AgentTouches.TouchThrottle | server/internal/core/usecase/auth.go:203-208 | the stored time is within a minute of the latest authentication, and a run makes at most one touch per full minute spanned, and one more |
| Users.UserRepository.UpsertByIdentity | server/internal/adapters/postgres/gen/users.sql.go:33-65 | a known identity gets the new email and keeps id and creation time, an unknown one a new row with the given id and time, a taken id changes nothing; the stored row is returned |
| Users.IdentityStable | server/internal/adapters/postgres/gen/users.sql.go:33-38 | through every later sign-in an identity keeps its id and creation time, and shares the id with no other |
| Users.LatestEmail | server/internal/adapters/postgres/gen/users.sql.go:33-38 | an identity's email is that of its latest sign-in |
| Sessions.UserTokenRepository.Create | server/internal/adapters/postgres/user_token_repository.go:21-28 | stores the token exactly when its hash is free |
| Sessions.UserTokenRepository.DeleteExpired | server/internal/adapters/postgres/user_token_repository.go:48-50 | removes exactly the tokens past their expiry, all of them expired by the domain's own test |
| Sessions.UserTokenRepository.CleanupExpiredTokens | server/cmd/api/main.go:119-134 | after any rounds, failing or not, a token remains exactly if no successful round came after its expiry |
| Sessions.Bisimulation | server/internal/adapters/postgres/gen/user_tokens.sql.go:14-16 | a store with cleanups and one without stay related: they differ only in stored tokens that every call still to read finds expired, and in read rows that their own call finds expired |
| Sessions.CleanupInvisible | server/internal/core/usecase/auth.go:143-167 | runs that differ only in their cleanups give every caller the same results, error messages included |
| Sessions.RowWasIssued | server/internal/adapters/postgres/gen/user_tokens.sql.go:23-53 | every stored token was issued and neither logged out nor cleaned up since |
| Sessions.IssuedIsRow | server/internal/adapters/postgres/gen/user_tokens.sql.go:23-53 | every token issued and neither logged out nor cleaned up since is stored as issued |
| Sessions.TokenHistory | server/internal/core/usecase/auth.go:115-176 | a token authenticates exactly when an exchange issued it less than the time to live ago and no logout named it since, and as the user of that exchange |
| Sessions.AnswerHistory | server/internal/core/usecase/auth.go:143-167 | the same for an authentication with anything between its two steps: the history up to its read decides the answer |
| AuthService.AuthService.Exchange | server/internal/core/usecase/auth.go:83-141 | succeeds, past limiter and verifier, exactly if no statement fails and the drawn values are free; the token is "aeu_" and the drawn part, stored by its hash, and authenticates as the returned user until it expires and not after; failures store none and have their causes; the call is a sign-in and, on success, an issue of the session protocol, and otherwise nothing |
| AuthService.AuthService.AuthenticateUser | server/internal/core/usecase/auth.go:143-167 | each answer by its cause: failed read, no row, expired, failed user read, no user, or the stored user; and it is the session protocol's, which TokenHistory characterises |
| AuthService.AuthService.RevokeUserToken | server/internal/core/usecase/auth.go:169-176 | removes its own token and changes the answer for no other, at any time; it is the session protocol's logout |
| EventProtocol.OnlyTheOwnerWrites | server/internal/core/usecase/event.go:111-179 | in any interleaving a step that changes or removes a row acts for the row's owner |
| EventProtocol.UpdateReturnsTheRow | server/internal/core/usecase/event.go:131-148 | what an update returns, built from its earlier read, is the row that it has just stored: the given name, description and time on the old id, owner and creation time |
| EventProtocol.WritesTakeEffect | server/internal/adapters/postgres/gen/events.sql.go:105-109 | a checked write takes effect exactly if its row is still there, on the given columns, and an admitted save exactly on an unused id |
| EventProtocol.RowIdentity | server/internal/adapters/postgres/gen/events.sql.go:105-109 | owner and creation time never change while a row exists, and a removed id stays removed |
| EventProtocol.EventQuota | server/internal/core/usecase/event.go:39-83 | the events that a user saves on the answers of one window number at most the limit, once more for each eviction of the user's own bucket |
| EventProtocol.RowsAreLedgered | server/internal/core/usecase/event.go:44-70 | every row that was not there at the start was saved on an admission of its owner |
| EventProtocol.LedgerInvStep | server/internal/core/usecase/event.go:44-70 | every step keeps that admissions, waiting or spent, are true limiter answers, each used once |
| EventService.RunsEvolve | server/internal/adapters/postgres/gen/events.sql.go:105-109 | every run of the protocol leaves the surviving rows with their owner and creation time, as the use cases below require of a gap |
| EventService.EventService.Create | server/internal/core/usecase/event.go:39-83 | each call with a user takes one limiter answer for that user alone, a blank name included; an admitted call with a name that is not all space succeeds exactly if its save does; each error has its exact cause |
| EventService.EventService.Update | server/internal/core/usecase/event.go:111-149 | success returns and stores the given name, description and time on the old id, owner and creation time; not found, forbidden and invalid have their exact causes; for a valid update by the owner the error is internal exactly on a failed statement or a lost race |
| EventService.EventService.Delete | server/internal/core/usecase/event.go:151-179 | success removes exactly the caller's row; not found and forbidden have their exact causes; for the owner the error is internal exactly on a failed statement or a lost race |
| EventService.DeleteWins | server/internal/core/usecase/event.go:151-179 | a run in which two calls check one row and a delete by one of them leaves the other with nothing to write |
| EventService.LostRace | server/internal/core/usecase/event.go:111-179 | after that delete a checked update and a checked delete by the owner, with no failing statement, both report an internal error |
| GoStrings.TrimSpaceBlank | server/internal/core/domain/event.go:23-29 | a name is rejected exactly when it is all white space |
| GoStrings.TrimSpaceIff | server/internal/transport/http/handler/auth.go:103-104 | a text is the trimmed one if and only if it neither starts nor ends with space and only space was taken off either end |
| GoStrings.SplitInvertsJoin | server/internal/transport/http/handler/auth.go:101-101 | the parts contain no separator and join to the text |
| GoStrings.SplitConcat | server/internal/transport/http/handler/auth.go:101-101 | a separator between two texts splits them apart |
| ClientIp.IsTrustedProxy | server/internal/transport/http/handler/auth.go:118-126 | true exactly if some trusted network contains the address |
| ClientIp.ScanFromRight | server/internal/transport/http/handler/auth.go:102-113 | the descending loop finds the right-most entry that names a client, or none |
| ClientIp.ClientIP | server/internal/transport/http/handler/auth.go:85-116 | an untrusted peer is the client; behind a trusted one it is the right-most entry, freed of the space around it, that is neither empty nor a trusted address, or the peer where there is none |
| ClientIp.ResolvedIsClient | server/internal/transport/http/handler/auth.go:85-116 | the recursive form of the choice is the right-most one |
| ClientIp.PrependedText | server/internal/transport/http/handler/auth.go:96-113 | text put in front of a header changes nothing if the header already names a client, and otherwise alone decides |

## Left out

- OIDC verification: its verdict is a parameter of `Exchange`.
- SHA-256, base64, UUIDs and randomness: an injective hash and drawn values as parameters.
- HTTP routing, JSON, validation tags, status codes, logging, configuration loading and wiring.
- Address parsing, network membership and the host/port split: abstract in `ClientIp`.
- `Get` and `List` of events, `ListByUser` of agents: reads that add no state.
- 64-bit overflow of counters and of seconds, and the precision of database timestamps: integers are unbounded.
- Invalid UTF-8 in headers and names: strings are sequences of code points.
- Idle-transaction termination and deadlock detection: they appear as a failing statement.
- AgentRepository.AgentDatabase.CreateIfUnderLimit: does not say when a blocked lock comes free, because that depends on the other transactions' progress.
- AgentRepository.AgentDatabase.AuthenticateAgent: returns the agent alone and of its user states only that it exists, because the agent model keeps no user fields.
- AgentRepository.AgentDatabase.AuthenticateAgent: states the stored time of last use only when nobody else acts between its reads, because concurrent touches overwrite each other.
- LimiterBounds.LimitKeptIff: about runs with nothing evicted so far, where the ideal limiter decides; for every other run `LimitStaysKeptIff` has the exact condition, on the stored counter.
- AuthService.AuthService.Exchange: one call at a time, with nobody between its upsert and its insert; `Sessions` interleaves the two with all others.
- Lost acknowledgements of single statements: only a transaction's commit can take effect and still report an error; a failing insert, upsert, update or delete outside a transaction is taken not to have happened.
- Sessions.CleanupInvisible: assumes that issued hashes are new, which random tokens are, and that a cleanup's clock reading is not later than that of an authentication which reads its row after that cleanup, as with one shared clock.
- Sessions.UserTokenRepository.CleanupExpiredTokens: a finite number of rounds of the loop that the source leaves only on shutdown.
- EventService.EventService.Create: one call at a time; creates interleaved between limiter and save are in `EventProtocol`.
