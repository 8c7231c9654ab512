/**
 The agent operations of the repository and of the auth service, statement by statement,
 against a shared database in which anybody else may act between any two statements.
 What the others do is an arbitrary sequence of protocol events, so a contract below holds
 for every interleaving.
 */
module AgentRepository {
  import opened AgentGuarantees
  import opened AgentProtocol
  import opened AgentRevocation
  import opened AgentTouches
  import opened AppErr
  import opened Credentials
  import opened GoStrings

  const TOKEN_PREFIX_AGENT := "aea_"

  /** The statements that return an error instead of running. */
  datatype CommitFault = Commits | RollsBack | LosesAcknowledgement

  datatype CreateFaults = CreateFaults(begin: bool, lock: bool, count: bool, insert: bool, commit: CommitFault)

  datatype RepoError = ErrUserNotFound | ErrStore

  /** What the others do in each gap between two statements of a call. */
  datatype Gaps = Gaps(first: seq<Event>, second: seq<Event>, third: seq<Event>, fourth: seq<Event>)

  /** Nothing stands between transaction `t` and its commit. */
  ghost predicate Clear(s: State, t: TxId, agent: Agent) {
    && agent.userId in s.users && (agent.userId in s.locks ==> s.locks[agent.userId] == t)
    && !Clash(s, agent)
  }

  ghost predicate Quiet(gaps: Gaps, faults: CreateFaults) {
    && gaps == Gaps([], [], [], []) && faults == CreateFaults(false, false, false, false, Commits)
  }

  lemma {:induction false} OthersKeepTx(s: State, es: seq<Event>, t: TxId)
    requires t in s.txs && forall i :: 0 <= i < |es| ==> !es[i].IsOf(t)
    ensures t in Final(s, es).txs && Final(s, es).txs[t] == s.txs[t]
  {
    if es != [] {
      OthersKeepTx(s, es[..|es| - 1], t);
      OtherKeepsTx(Final(s, es[..|es| - 1]), es[|es| - 1], t);
    }
  }

  lemma {:induction false} UsersStay(s: State, es: seq<Event>)
    ensures s.users <= Final(s, es).users
  {
    if es != [] {
      UsersStay(s, es[..|es| - 1]);
    }
  }

  /** The events of a schedule that are not transaction `mine`'s own. */
  function Foreign(schedule: seq<Event>, mine: Option<TxId>): seq<Event> {
    if schedule == [] then []
    else
      var e := schedule[|schedule| - 1];
      Foreign(schedule[..|schedule| - 1], mine) + if mine.Some? && e.IsOf(mine.value) then [] else [e]
  }

  lemma {:induction false} ForeignIsForeign(schedule: seq<Event>, mine: Option<TxId>)
    ensures mine.Some? ==>
              forall i :: 0 <= i < |Foreign(schedule, mine)| ==> !Foreign(schedule, mine)[i].IsOf(mine.value)
    ensures mine == None ==> Foreign(schedule, mine) == schedule
  {
    if schedule != [] {
      ForeignIsForeign(schedule[..|schedule| - 1], mine);
    }
  }

  /** The row that carries a key hash. */
  ghost function RowWithKey(agents: Table, hash: TokenHash): Option<Agent> {
    if id :| id in agents && agents[id].keyHash == hash then Some(agents[id]) else None
  }

  /** `row` is in the table, and no other row has this hash. */
  ghost predicate OnlyRow(agents: Table, hash: TokenHash, row: Agent) {
    && row.id in agents && agents[row.id] == row && row.keyHash == hash
    && forall id :: id in agents && agents[id].keyHash == hash ==> id == row.id
  }

  /** What a table says of a key: unknown, revoked, or its agent. */
  ghost function KeyVerdict(agents: Table, hash: TokenHash): Result<Agent> {
    match RowWithKey(agents, hash)
    case None => Err(Unauthorized("invalid agent key"))
    case Some(row) => if row.Revoked() then Err(Unauthorized("agent key has been revoked")) else Ok(row)
  }

  lemma KeyIsUnique(agents: Table, users: set<UserId>, hash: TokenHash, id: AgentId)
    requires TableInv(agents, users) && id in agents && agents[id].keyHash == hash
    ensures RowWithKey(agents, hash) == Some(agents[id]) && OnlyRow(agents, hash, agents[id])
  {
    forall other | other in agents && agents[other].keyHash == hash ensures other == id {
      assert SameKeys(agents[other], agents[id]);
    }
  }

  class AgentDatabase {
    var state: State
    ghost const origin: State
    ghost var trace: seq<Event>

    ghost predicate Valid()
      reads this
    {
      Initial(origin) && state == Final(origin, trace)
    }

    constructor (s: State)
      requires Initial(s)
      ensures Valid() && state == s && trace == []
    {
      state, origin, trace := s, s, [];
    }

    /** Runs one statement. */
    method Do(e: Event)
      requires Valid()
      modifies this
      ensures Valid() && state == Next(old(state), e) && trace == old(trace) + [e]
    {
      state := Next(state, e);
      trace := trace + [e];
      assert trace[..|trace| - 1] == old(trace);
    }

    /** The others act: all events of the schedule but those of transaction `mine`. */
    method Others(schedule: seq<Event>, mine: Option<TxId>)
      requires Valid()
      modifies this
      ensures Valid() && trace == old(trace) + Foreign(schedule, mine)
      ensures state == Final(old(state), Foreign(schedule, mine))
      ensures mine == None ==> state == Final(old(state), schedule) && trace == old(trace) + schedule
      ensures schedule == [] ==> state == old(state)
      ensures mine.Some? && mine.value in old(state).txs ==>
                mine.value in state.txs && state.txs[mine.value] == old(state).txs[mine.value]
      ensures AllKept(old(state).agents, state.agents)
      ensures old(state).users <= state.users
    {
      for i := 0 to |schedule|
        invariant Valid() && trace == old(trace) + Foreign(schedule[..i], mine)
      {
        assert schedule[..i + 1][..i] == schedule[..i];
        if mine == None || !schedule[i].IsOf(mine.value) {
          Do(schedule[i]);
        }
      }
      assert schedule[..|schedule|] == schedule;
      OthersKeep(old(trace), schedule, mine);
      ForeignIsForeign(schedule, mine);
    }

    /** What a stretch of the others' events preserves. */
    lemma OthersKeep(before: seq<Event>, schedule: seq<Event>, mine: Option<TxId>)
      requires Initial(origin)
      ensures var s, fs := Final(origin, before), Foreign(schedule, mine);
              var s' := Final(origin, before + fs);
              && s' == Final(s, fs) && s.users <= s'.users
              && (mine.Some? && mine.value in s.txs ==>
                    mine.value in s'.txs && s'.txs[mine.value] == s.txs[mine.value])
              && AllKept(s.agents, s'.agents)
    {
      var s, fs := Final(origin, before), Foreign(schedule, mine);
      FinalConcat(origin, before, fs);
      ForeignIsForeign(schedule, mine);
      UsersStay(s, fs);
      if mine.Some? && mine.value in s.txs {
        OthersKeepTx(s, fs, mine.value);
      }
      RevocationPermanent(origin, before, fs);
    }

    /** Transaction `t` of this call has come as far as `phase`. */
    ghost predicate At(t: TxId, agent: Agent, max: int, phase: Phase)
      reads this
    {
      t in state.txs && state.txs[t] == Tx(agent, max, phase)
    }

    method BeginTx(t: TxId, agent: Agent, max: int)
      requires Valid() && t !in state.txs
      modifies this
      ensures Valid() && trace == old(trace) + [Begin(t, agent, max)] && At(t, agent, max, Begun)
      ensures state.agents == old(state).agents
      ensures Free(old(state), t, agent) ==> Clear(state, t, agent) && agent.userId !in state.locks
    {
      Do(Begin(t, agent, max));
    }

    /** `locked` is false for an error, which is `missing` when the user has no row; a lock that
        never comes free ends as the context's error. The deferred rollback has then run. */
    method LockUserForUpdate(t: TxId, fails: bool, ghost agent: Agent, ghost max: int)
      returns (locked: bool, missing: bool)
      requires Valid() && At(t, agent, max, Begun)
      modifies this
      ensures Valid() && old(trace) <= trace
      ensures At(t, agent, max, if locked then Locked else Done(if missing then UserNotFound else Failed(false)))
      ensures missing <==> !fails && agent.userId !in old(state).users
      ensures locked <==> !fails && agent.userId in old(state).users && agent.userId !in old(state).locks
      ensures locked ==> agent.userId in state.locks && state.locks[agent.userId] == t
      ensures state.agents == old(state).agents
      ensures !fails && Clear(old(state), t, agent) && agent.userId !in old(state).locks ==>
                locked && Clear(state, t, agent)
    {
      if fails || !Enabled(state, Lock(t)) {
        Do(Fail(t));
        return false, false;
      }
      Do(Lock(t));
      return state.txs[t].phase == Locked, state.txs[t].phase != Locked;
    }

    method CountActiveAgentsByUser(t: TxId, fails: bool, ghost agent: Agent, ghost max: int)
      returns (count: Option<nat>)
      requires Valid() && At(t, agent, max, Locked)
      modifies this
      ensures Valid() && old(trace) <= trace
      ensures count.Some? ==> count.value == ActiveCount(old(state).agents, agent.userId)
      ensures At(t, agent, max, if count.Some? then Counted(count.value) else Done(Failed(false)))
      ensures count.Some? <==> !fails
      ensures state.agents == old(state).agents
      ensures Clear(old(state), t, agent) ==> Clear(state, t, agent)
    {
      if fails {
        Do(Fail(t));
        return None;
      }
      Do(Count(t));
      return Some(state.txs[t].phase.count);
    }

    /** Fails also where a uniqueness constraint would be broken. */
    method InsertAgent(t: TxId, fails: bool, ghost agent: Agent, ghost max: int, ghost count: nat)
      returns (ok: bool)
      requires Valid() && At(t, agent, max, Counted(count)) && count < max
      modifies this
      ensures Valid() && old(trace) <= trace
      ensures At(t, agent, max, if ok then Inserted(count) else Done(Failed(false)))
      ensures ok <==> !fails && KeysFree(old(state), agent)
      ensures state.agents == old(state).agents
    {
      InvAlways(origin, trace);
      ClashIff(state, agent);
      if fails || !Enabled(state, Insert(t)) {
        Do(Fail(t));
        return false;
      }
      Do(Insert(t));
      return true;
    }

    method CommitTx(t: TxId, fault: CommitFault, ghost agent: Agent, ghost max: int, ghost count: nat)
      returns (ok: bool)
      requires Valid() && At(t, agent, max, Inserted(count))
      modifies this
      ensures Valid() && old(trace) <= trace
      ensures ok <==> fault == Commits
      ensures At(t, agent, max, Done(if ok then Created else Failed(fault == LosesAcknowledgement)))
      ensures fault != RollsBack ==> state.agents == old(state).agents[agent.id := agent]
    {
      match fault {
        case Commits => Do(Commit(t, true));
        case RollsBack => Do(Fail(t));
        case LosesAcknowledgement => Do(Commit(t, false));
      }
      return fault == Commits;
    }

    method RollbackRefused(t: TxId, ghost agent: Agent, ghost max: int, ghost count: nat)
      requires Valid() && At(t, agent, max, Counted(count)) && count >= max
      modifies this
      ensures Valid() && old(trace) <= trace && At(t, agent, max, Done(Refused))
      ensures state.agents == old(state).agents
    {
      Do(Refuse(t));
    }

    /** Begin and lock, with the others acting in between. */
    method BeginAndLock(t: TxId, agent: Agent, max: int, gap: seq<Event>, fails: bool)
      returns (locked: bool, missing: bool)
      requires Valid() && t !in state.txs
      modifies this
      ensures Valid() && old(trace) <= trace
      ensures At(t, agent, max, if locked then Locked else Done(if missing then UserNotFound else Failed(false)))
      ensures locked ==> !fails
      ensures gap == [] && !fails && Free(old(state), t, agent) ==>
                locked && state.agents == old(state).agents && Clear(state, t, agent)
    {
      BeginTx(t, agent, max);
      Others(gap, Some(t));
      locked, missing := LockUserForUpdate(t, fails, agent, max);
    }

    /** The first half of `CreateIfUnderLimit`: begin, lock, count. */
    method CountUnderLock(t: TxId, agent: Agent, max: int, gaps: Gaps, faults: CreateFaults)
      returns (counted: Option<nat>, missing: bool)
      requires Valid() && t !in state.txs
      modifies this
      ensures Valid() && old(trace) <= trace
      ensures At(t, agent, max, if counted.Some? then Counted(counted.value)
                                else Done(if missing then UserNotFound else Failed(false)))
      ensures counted.Some? ==> !faults.lock && !faults.count
      ensures Quiet(gaps, faults) && Free(old(state), t, agent) ==>
                && counted == Some(ActiveCount(old(state).agents, agent.userId))
                && state.agents == old(state).agents && Clear(state, t, agent)
    {
      var locked;
      locked, missing := BeginAndLock(t, agent, max, gaps.first, faults.lock);
      if !locked {
        return None, missing;
      }
      Others(gaps.second, Some(t));
      counted := CountActiveAgentsByUser(t, faults.count, agent, max);
      missing := false;
      Others(gaps.third, Some(t));
    }

    /** The second half: insert, commit. */
    method InsertAndCommit(t: TxId, gap: seq<Event>, insertFails: bool, fault: CommitFault,
                           ghost agent: Agent, ghost max: int, ghost count: nat)
      returns (ok: bool)
      requires Valid() && At(t, agent, max, Counted(count)) && count < max
      modifies this
      ensures Valid() && old(trace) <= trace
      ensures ok ==> At(t, agent, max, Done(Created)) && agent.id in state.agents && state.agents[agent.id] == agent
      ensures ok ==> !insertFails && fault == Commits
      ensures !ok ==> exists committed :: At(t, agent, max, Done(Failed(committed)))
      ensures Clear(old(state), t, agent) && gap == [] && !insertFails && fault == Commits ==>
                ok && state.agents == old(state).agents[agent.id := agent]
    {
      var inserted := InsertAgent(t, insertFails, agent, max, count);
      if !inserted {
        return false;
      }
      Others(gap, Some(t));
      ok := CommitTx(t, fault, agent, max, count);
    }

    /** `CreateIfUnderLimit` in transaction `t`. What it returns is how its transaction ended; and
        with nobody else about, nothing failing and nothing in its way, it is the atomic operation. */
    method CreateIfUnderLimit(t: TxId, agent: Agent, max: int, gaps: Gaps, faults: CreateFaults)
      returns (created: bool, err: Option<RepoError>)
      requires Valid() && t !in state.txs
      modifies this
      ensures Valid() && old(trace) <= trace
      ensures faults.begin ==> trace == old(trace) && !created && err == Some(ErrStore)
      ensures !faults.begin ==> t in state.txs && Reports(state.txs[t], agent, max, created, err)
      ensures created ==> agent.id in state.agents && state.agents[agent.id] == agent
      ensures created ==> faults == CreateFaults(false, false, false, false, Commits)
      ensures err == None ==> !faults.lock && !faults.count
      ensures Quiet(gaps, faults) && Unobstructed(old(state), agent) ==>
                && err == None && (created <==> ActiveCount(old(state).agents, agent.userId) < max)
                && state.agents == if created then old(state).agents[agent.id := agent] else old(state).agents
    {
      if faults.begin {
        return false, Some(ErrStore);
      }
      InvAlways(origin, trace);
      ClashIff(state, agent);
      var counted, missing := CountUnderLock(t, agent, max, gaps, faults);
      if counted == None {
        return false, Some(if missing then ErrUserNotFound else ErrStore);
      }
      if counted.value >= max {
        RollbackRefused(t, agent, max, counted.value);
        return false, None;
      }
      var ok := InsertAndCommit(t, gaps.fourth, faults.insert, faults.commit, agent, max, counted.value);
      if !ok {
        return false, Some(ErrStore);
      }
      return true, None;
    }

    /** The use case `CreateAgent`. The key it hands out is the one whose hash is stored, so it
        authenticates at once; a blank name never reaches the database; the limit error means exactly
        that the transaction refused; and undisturbed the call succeeds exactly below the limit. */
    method CreateAgent(t: TxId, userId: UserId, name: string, newId: AgentId, random: string, now: int, max: int,
                       randomFails: bool, gaps: Gaps, faults: CreateFaults)
      returns (r: Result<(Agent, string)>)
      requires Valid() && t !in state.txs
      modifies this
      ensures Valid() && old(trace) <= trace
      ensures r.Ok? ==>
                && r.value.1 == "aea_" + random
                && r.value.0 == Agent(newId, userId, name, HashOf("aea_" + random), now, 0, 0)
                && newId in state.agents && state.agents[newId] == r.value.0
      ensures r.Ok? ==> faults == CreateFaults(false, false, false, false, Commits)
      ensures r == Err(Invalid("agent name is required")) <==> AllSpace(name)
      ensures AllSpace(name) || randomFails ==> trace == old(trace)
      ensures !AllSpace(name) && randomFails ==> r.Err?
      ensures r.Err? && !AllSpace(name) && r != Err(Forbidden("agent limit reached, revoke an agent first")) ==>
                r == Err(Internal("could not create agent"))
      ensures r == Err(Forbidden("agent limit reached, revoke an agent first"))
              <==> t in state.txs && state.txs[t].phase == Done(Refused)
      ensures var agents, agent := old(state).agents, Agent(newId, userId, name, HashOf("aea_" + random), now, 0, 0);
              !AllSpace(name) && !randomFails && Quiet(gaps, faults) && Unobstructed(old(state), agent) ==>
                var count := |set id | id in agents && agents[id].userId == userId && agents[id].revokedAt == 0|;
                && r == (if count < max then Ok((agent, "aea_" + random))
                         else Err(Forbidden("agent limit reached, revoke an agent first")))
                && state.agents == if count < max then agents[newId := agent] else agents
    {
      TrimSpaceBlank(name);
      assert ActiveIds(state.agents, userId)
          == set id | id in state.agents && state.agents[id].userId == userId && state.agents[id].revokedAt == 0;
      if TrimSpace(name) == "" {
        return Err(Invalid("agent name is required"));
      }
      if randomFails {
        return Err(Internal("could not create agent"));
      }
      var rawKey := TOKEN_PREFIX_AGENT + random;
      var agent := Agent(newId, userId, name, HashOf(rawKey), now, 0, 0);
      var created, err := CreateIfUnderLimit(t, agent, max, gaps, faults);
      if err.Some? {
        return Err(Internal("could not create agent"));
      }
      if !created {
        return Err(Forbidden("agent limit reached, revoke an agent first"));
      }
      return Ok((agent, rawKey));
    }

    /** The guarded UPDATE: sets the time only where none is set. */
    method SetRevokedAt(id: AgentId, at: int) returns (affected: bool)
      requires Valid() && at != 0
      modifies this
      ensures Valid() && old(trace) <= trace
      ensures affected <==> id in old(state).agents && !old(state).agents[id].Revoked()
      ensures state.agents == if affected then old(state).agents[id := old(state).agents[id].(revokedAt := at)]
                              else old(state).agents
      ensures affected <==> Enabled(old(state), Event.Revoke(id, at))
      ensures state == Next(old(state), Event.Revoke(id, at))
    {
      affected := Enabled(state, Event.Revoke(id, at));
      Do(Event.Revoke(id, at));
    }

    /** The repository's `Revoke`: the guarded update, and a second look when it changed nothing. Its
        whole effect and its answer follow from the row before the call and what the others do in the
        gap; `SuccessMeansRevokedIff` says when success means revoked. */
    method Revoke(id: AgentId, at: int, gap: seq<Event>, updateFails: bool, readFails: bool)
      returns (ok: bool)
      requires Valid() && at != 0
      modifies this
      ensures Valid() && old(trace) <= trace
      ensures state == if updateFails then old(state) else AfterRevoke(old(state), id, at, gap)
      ensures updateFails ==> trace == old(trace)
      ensures ok <==> && !updateFails && id in state.agents
                      && (!readFails || (id in old(state).agents && old(state).agents[id].revokedAt == 0))
      ensures id in old(state).agents ==>
                && id in state.agents && Keeps(old(state).agents[id], state.agents[id])
                && (ok ==> state.agents[id].Revoked())
    {
      if updateFails {
        return false;
      }
      var affected := SetRevokedAt(id, at);
      if affected {
        return true;
      }
      Others(gap, None);
      return !readFails && id in state.agents;
    }

    /** The use case `RevokeAgent`. Success means that the agent is the caller's and is revoked;
        a refusal leaves no mark; and an agent that was already revoked keeps its time. */
    method RevokeAgent(userId: UserId, agentId: AgentId, at: int, first: seq<Event>, second: seq<Event>,
                       getFails: bool, updateFails: bool, readFails: bool)
      returns (err: Option<Error>)
      requires Valid() && at != 0
      modifies this
      ensures Valid() && old(trace) <= trace
      ensures err == None ==>
                && agentId in state.agents && state.agents[agentId].userId == userId && state.agents[agentId].Revoked()
      ensures agentId in old(state).agents ==>
                agentId in state.agents && Keeps(old(state).agents[agentId], state.agents[agentId])
      ensures !getFails ==>
                && (agentId !in old(state).agents <==> err == Some(NotFound("agent not found")))
                && (agentId in old(state).agents && old(state).agents[agentId].userId != userId
                    <==> err == Some(Forbidden("agent does not belong to you")))
      ensures getFails ==> err == Some(Internal("could not revoke agent"))
      ensures err.Some? && !err.value.Internal? ==> trace == old(trace)
      ensures err.Some? && err.value.Internal? ==> err == Some(Internal("could not revoke agent"))
      ensures !getFails && agentId in old(state).agents && old(state).agents[agentId].userId == userId ==>
                var mid := Final(old(state), first).agents;
                if old(state).agents[agentId].revokedAt != 0 then
                  err == None && trace == old(trace)
                else if updateFails then
                  err.Some? && trace == old(trace) + first
                else
                  && agentId in mid && (err == None <==> mid[agentId].revokedAt == 0 || !readFails)
                  && state.agents == if mid[agentId].revokedAt == 0 then mid[agentId := mid[agentId].(revokedAt := at)]
                                     else Final(Final(old(state), first), second).agents
    {
      if getFails {
        return Some(Internal("could not revoke agent"));
      }
      if agentId !in state.agents {
        return Some(NotFound("agent not found"));
      }
      var agent := state.agents[agentId];
      if agent.userId != userId {
        return Some(Forbidden("agent does not belong to you"));
      }
      if agent.Revoked() {
        return None;
      }
      Others(first, None);
      assert agentId in state.agents;
      var ok := Revoke(agentId, at, second, updateFails, readFails);
      if !ok {
        return Some(Internal("could not revoke agent"));
      }
      return None;
    }

    /** The one row with a key hash, whose user exists, or none. */
    method GetByKeyHash(hash: TokenHash) returns (found: Option<Agent>)
      requires Valid()
      ensures found == RowWithKey(state.agents, hash)
      ensures found.Some? ==> found.value.userId in state.users && OnlyRow(state.agents, hash, found.value)
      ensures found == None ==> forall id :: id in state.agents ==> state.agents[id].keyHash != hash
    {
      InvAlways(origin, trace);
      if id :| id in state.agents && state.agents[id].keyHash == hash {
        KeyIsUnique(state.agents, state.users, hash, id);
        return Some(state.agents[id]);
      }
      return None;
    }

    /** Records a use. With nobody else about, nothing but the row's time of last use changes. */
    method TouchLastUsed(id: AgentId, now: int, gap: seq<Event>, fails: bool)
      requires Valid() && id in state.agents
      modifies this
      ensures Valid()
      ensures trace == old(trace) + Foreign(gap, None) + if fails then [] else [Event.Touch(id, now)]
      ensures id in state.agents && (!fails ==> state.agents[id].lastUsedAt == now)
      ensures !fails && gap == [] ==> state.agents[id] == old(state).agents[id].(lastUsedAt := now)
      ensures AllKept(old(state).agents, state.agents)
    {
      Others(gap, None);
      if !fails {
        ghost var mid := state;
        InvAlways(origin, trace);
        AllKeptStep(mid, Event.Touch(id, now));
        Do(Event.Touch(id, now));
        AllKeptTwice(old(state).agents, mid.agents, state.agents);
      }
    }

    /** The throttled write. With nobody else about it adds the one statement that is due, or none. */
    method TouchIfNeeded(agent: Agent, now: int, gap: seq<Event>, touchFails: bool)
      requires Valid() && agent.id in state.agents
      modifies this
      ensures Valid() && old(trace) <= trace
      ensures NeedsTouch(agent.lastUsedAt, now) <==> agent.lastUsedAt == 0 || now - agent.lastUsedAt >= 60_000_000_000
      ensures !NeedsTouch(agent.lastUsedAt, now) ==> state == old(state) && trace == old(trace)
      ensures NeedsTouch(agent.lastUsedAt, now) ==>
                var others := old(trace) + Foreign(gap, None);
                trace == if touchFails then others else others + [Event.Touch(agent.id, now)]
      ensures NeedsTouch(agent.lastUsedAt, now) && !touchFails ==>
                agent.id in state.agents && state.agents[agent.id].lastUsedAt == now
      ensures !touchFails && old(state).agents[agent.id] == agent ==>
                agent.id in state.agents && state.agents[agent.id].lastUsedAt == LastUsed(agent.lastUsedAt, [now])
      ensures !touchFails && old(state).agents[agent.id] == agent && gap == [] ==>
                && trace == old(trace) + TouchEvents(agent.id, agent.lastUsedAt, [now])
                && agent.id in state.agents
                && state.agents[agent.id] == agent.(lastUsedAt := LastUsed(agent.lastUsedAt, [now]))
      ensures AllKept(old(state).agents, state.agents)
    {
      OneAuthentication(agent.id, agent.lastUsedAt, now);
      if NeedsTouch(agent.lastUsedAt, now) {
        TouchLastUsed(agent.id, now, gap, touchFails);
      } else {
        AllKeptSelf(state.agents);
      }
    }

    /** The use case `AuthenticateAgent`. The answer is the verdict on the table as it was when the key
        was read, unless a read fails; the reference from agent to user never dangles. With nobody
        else about, the statements added are those of the throttle. */
    method AuthenticateAgent(rawKey: string, now: int, first: seq<Event>, second: seq<Event>,
                             getFails: bool, userFails: bool, touchFails: bool)
      returns (r: Result<Agent>)
      requires Valid()
      modifies this
      ensures Valid() && old(trace) <= trace
      ensures var verdict := KeyVerdict(old(state).agents, HashOf(rawKey));
              r == if getFails || (verdict.Ok? && userFails) then Err(Internal("could not authenticate")) else verdict
      ensures getFails ==> r == Err(Internal("could not authenticate"))
      ensures !getFails
              && (forall id :: id in old(state).agents ==> old(state).agents[id].keyHash != HashOf(rawKey)) ==>
                r == Err(Unauthorized("invalid agent key"))
      ensures forall id :: !getFails && id in old(state).agents && old(state).agents[id].keyHash == HashOf(rawKey) ==>
                r == if old(state).agents[id].revokedAt != 0 then Err(Unauthorized("agent key has been revoked"))
                     else if userFails then Err(Internal("could not authenticate"))
                     else Ok(old(state).agents[id])
      ensures r.Ok? ==> OnlyRow(old(state).agents, HashOf(rawKey), r.value) && r.value.userId in old(state).users
      ensures AllKept(old(state).agents, state.agents)
      ensures r.Ok? && first == [] && !touchFails ==>
                && r.value.id in state.agents
                && state.agents[r.value.id].lastUsedAt == LastUsed(r.value.lastUsedAt, [now])
      ensures r.Ok? && first == [] && second == [] && !touchFails ==>
                && trace == old(trace) + TouchEvents(r.value.id, r.value.lastUsedAt, [now])
                && r.value.id in state.agents
                && state.agents[r.value.id] == r.value.(lastUsedAt := LastUsed(r.value.lastUsedAt, [now]))
      ensures r.Err? && first == [] ==> trace == old(trace)
    {
      AllKeptSelf(state.agents);
      if getFails {
        return Err(Internal("could not authenticate"));
      }
      var found := GetByKeyHash(HashOf(rawKey));
      if found == None {
        return Err(Unauthorized("invalid agent key"));
      }
      var agent := found.value;
      if agent.Revoked() {
        return Err(Unauthorized("agent key has been revoked"));
      }
      Others(first, None);
      if userFails {
        return Err(Internal("could not authenticate"));
      }
      if agent.userId !in state.users {
        assert false;
      }
      ghost var mid := state;
      TouchIfNeeded(agent, now, second, touchFails);
      AllKeptTwice(old(state).agents, mid.agents, state.agents);
      return Ok(agent);
    }

    /** One agent authenticating again and again, with nobody else about and nothing failing: the
        stored time of last use and the statements issued are those of `TouchThrottle`. */
    method AuthenticateEach(rawKey: string, agentId: AgentId, times: seq<int>)
      requires Valid() && agentId in state.agents
      requires state.agents[agentId].keyHash == HashOf(rawKey) && !state.agents[agentId].Revoked()
      modifies this
      ensures Valid() && agentId in state.agents
      ensures var start := old(state).agents[agentId].lastUsedAt;
              && state.agents[agentId] == old(state).agents[agentId].(lastUsedAt := LastUsed(start, times))
              && trace == old(trace) + TouchEvents(agentId, start, times)
              && |trace| == |old(trace)| + Touches(start, times)
    {
      ghost var start := state.agents[agentId].lastUsedAt;
      for i := 0 to |times|
        invariant Valid() && agentId in state.agents
        invariant state.agents[agentId] == old(state).agents[agentId].(lastUsedAt := LastUsed(start, times[..i]))
        invariant trace == old(trace) + TouchEvents(agentId, start, times[..i])
      {
        ghost var last := state.agents[agentId].lastUsedAt;
        InvAlways(origin, trace);
        KeyIsUnique(state.agents, state.users, HashOf(rawKey), agentId);
        var r := AuthenticateAgent(rawKey, times[i], [], [], false, false, false);
        assert r.Ok? && r.value.id == agentId && r.value.lastUsedAt == last;
        OneMoreAuthentication(agentId, start, times, i);
      }
      assert times[..|times|] == times;
    }

    /** A key whose revocation was reported as done is dead to every later authentication,
        whatever happens in between. */
    method RevokeThenAuthenticate(userId: UserId, agentId: AgentId, rawKey: string, at: int, between: seq<Event>,
                                  g1: seq<Event>, g2: seq<Event>, getFails: bool, updateFails: bool, readFails: bool,
                                  now: int, g3: seq<Event>, g4: seq<Event>,
                                  keyFails: bool, userFails: bool, touchFails: bool)
      returns (err: Option<Error>, r: Result<Agent>)
      requires Valid() && at != 0
      requires agentId in state.agents && state.agents[agentId].keyHash == HashOf(rawKey)
      modifies this
      ensures Valid()
      ensures err == None ==> r.Err?
      ensures err == None && !keyFails ==> r == Err(Unauthorized("agent key has been revoked"))
    {
      err := RevokeAgent(userId, agentId, at, g1, g2, getFails, updateFails, readFails);
      Others(between, None);
      InvAlways(origin, trace);
      KeyIsUnique(state.agents, state.users, HashOf(rawKey), agentId);
      r := AuthenticateAgent(rawKey, now, g3, g4, keyFails, userFails, touchFails);
    }
  }

  /** How a finished transaction shows in the two results of `CreateIfUnderLimit`. */
  ghost predicate Reports(tx: Tx, agent: Agent, max: int, created: bool, err: Option<RepoError>) {
    && tx.agent == agent && tx.max == max && tx.phase.Done?
    && match tx.phase.outcome
       case Created => created && err == None
       case Refused => !created && err == None
       case UserNotFound => !created && err == Some(ErrUserNotFound)
       case Failed(_) => !created && err == Some(ErrStore)
  }
}
