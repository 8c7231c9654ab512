/**
 Agent creation as Postgres sees it: any number of transactions, each going through begin,
 lock the user row, count, insert and commit, interleaved with autocommitted revokes and
 touches. Every event is one statement. Assumed of the database: a FOR UPDATE lock is held
 until the transaction ends, a statement sees what was committed before it, a single
 statement is atomic, and uniqueness constraints are enforced. Any statement may fail.
 */
module AgentProtocol {
  import opened Credentials

  type UserId = string
  type AgentId = string
  type TxId = nat

  /** A zero time is a NULL column. */
  datatype Agent = Agent(id: AgentId, userId: UserId, name: string, keyHash: TokenHash,
                         createdAt: int, revokedAt: int, lastUsedAt: int)
  {
    predicate Revoked() { revokedAt != 0 }
  }

  type Table = map<AgentId, Agent>

  /** What `CreateIfUnderLimit` returned: true; false; the missing-user error; or another
      error, which for a commit whose acknowledgement was lost hides a committed row. */
  datatype Outcome = Created | Refused | UserNotFound | Failed(committed: bool)

  datatype Phase =
    | Begun
    | Locked
    | Counted(count: nat)
    | Inserted(count: nat)
    | Done(outcome: Outcome)
  {
    predicate HoldsLock() { Locked? || Counted? || Inserted? }
  }

  datatype Tx = Tx(agent: Agent, max: int, phase: Phase)
  {
    /** The count leaves only `return false`. */
    predicate MustRefuse() { phase.Counted? && phase.count >= max }
  }

  datatype State = State(users: set<UserId>, agents: Table, locks: map<UserId, TxId>, txs: map<TxId, Tx>)

  datatype Event =
    | AddUser(userId: UserId)
    | Begin(t: TxId, agent: Agent, max: int)
    | Lock(t: TxId)
    | Count(t: TxId)
    | Refuse(t: TxId)
    | Insert(t: TxId)
    | Commit(t: TxId, acknowledged: bool)
    | Fail(t: TxId)
    | Revoke(id: AgentId, at: int)
    | Touch(id: AgentId, at: int)
  {
    predicate IsOf(tx: TxId) {
      !AddUser? && !Revoke? && !Touch? && t == tx
    }
  }

  function ActiveIds(agents: Table, u: UserId): set<AgentId> {
    set id | id in agents && agents[id].userId == u && !agents[id].Revoked()
  }

  function ActiveCount(agents: Table, u: UserId): nat {
    |ActiveIds(agents, u)|
  }

  predicate SameKeys(a: Agent, b: Agent) {
    a.id == b.id || a.keyHash == b.keyHash
  }

  /** A unique column of `a` is taken by a committed row or by one about to be committed. */
  predicate Clash(s: State, a: Agent) {
    || a.id in s.agents
    || (exists id :: id in s.agents && SameKeys(s.agents[id], a))
    || (exists t :: t in s.txs && s.txs[t].phase.Inserted? && SameKeys(s.txs[t].agent, a))
  }

  predicate Enabled(s: State, e: Event) {
    match e
    case AddUser(_) => true
    case Begin(t, _, _) => t !in s.txs
    case Lock(t) => t in s.txs && s.txs[t].phase.Begun? &&
                    (s.txs[t].agent.userId !in s.users || s.txs[t].agent.userId !in s.locks)
    case Count(t) => t in s.txs && s.txs[t].phase.Locked?
    case Refuse(t) => t in s.txs && s.txs[t].MustRefuse()
    case Insert(t) => t in s.txs && s.txs[t].phase.Counted? && !s.txs[t].MustRefuse() && !Clash(s, s.txs[t].agent)
    case Commit(t, _) => t in s.txs && s.txs[t].phase.Inserted?
    case Fail(t) => t in s.txs && !s.txs[t].phase.Done? && !s.txs[t].MustRefuse()
    case Revoke(id, at) => id in s.agents && !s.agents[id].Revoked() && at != 0
    case Touch(id, _) => id in s.agents
  }

  function WithPhase(s: State, t: TxId, phase: Phase): State
    requires t in s.txs
  {
    s.(txs := s.txs[t := s.txs[t].(phase := phase)])
  }

  /** The end of a transaction: the lock goes, and the deferred rollback finds nothing to undo. */
  function Finish(s: State, t: TxId, outcome: Outcome): State
    requires t in s.txs
  {
    var u := s.txs[t].agent.userId;
    var s' := WithPhase(s, t, Done(outcome));
    if s.txs[t].phase.HoldsLock() then s'.(locks := s'.locks - {u}) else s'
  }

  /** One statement. A statement that is not enabled changes nothing, so every sequence of
      events is an execution and every interleaving is such a sequence. */
  function Next(s: State, e: Event): State {
    if !Enabled(s, e) then s else
    match e
    case AddUser(u) => s.(users := s.users + {u})
    case Begin(t, agent, max) => s.(txs := s.txs[t := Tx(agent, max, Begun)])
    case Lock(t) =>
      if s.txs[t].agent.userId !in s.users then Finish(s, t, UserNotFound)
      else WithPhase(s, t, Locked).(locks := s.locks[s.txs[t].agent.userId := t])
    case Count(t) => WithPhase(s, t, Counted(ActiveCount(s.agents, s.txs[t].agent.userId)))
    case Refuse(t) => Finish(s, t, Refused)
    case Insert(t) => WithPhase(s, t, Inserted(s.txs[t].phase.count))
    case Commit(t, acknowledged) =>
      var agent := s.txs[t].agent;
      Finish(s, t, if acknowledged then Created else Failed(true)).(agents := s.agents[agent.id := agent])
    case Fail(t) => Finish(s, t, Failed(false))
    case Revoke(id, at) => s.(agents := s.agents[id := s.agents[id].(revokedAt := at)])
    case Touch(id, at) => s.(agents := s.agents[id := s.agents[id].(lastUsedAt := at)])
  }

  function Final(s: State, es: seq<Event>): State {
    if es == [] then s else Next(Final(s, es[..|es| - 1]), es[|es| - 1])
  }

  lemma {:induction false} FinalConcat(s: State, es: seq<Event>, fs: seq<Event>)
    ensures Final(s, es + fs) == Final(Final(s, es), fs)
  {
    if fs == [] {
      assert es + fs == es;
    } else {
      assert (es + fs)[..|es + fs| - 1] == es + fs[..|fs| - 1];
      FinalConcat(s, es, fs[..|fs| - 1]);
    }
  }

  // ----- Invariants -----

  /** A user's lock is held by exactly one transaction, and only for that transaction's user. */
  ghost predicate LockInv(s: State) {
    && (forall u :: u in s.locks ==>
          s.locks[u] in s.txs && s.txs[s.locks[u]].phase.HoldsLock() && s.txs[s.locks[u]].agent.userId == u)
    && (forall t :: t in s.txs && s.txs[t].phase.HoldsLock() ==>
          && s.txs[t].agent.userId in s.users
          && s.txs[t].agent.userId in s.locks && s.locks[s.txs[t].agent.userId] == t)
  }

  /** A count taken under the lock stays an upper bound until the transaction ends. */
  ghost predicate CountInv(s: State) {
    forall t :: t in s.txs ==> Bounded(s, t)
  }

  /** Primary key, unique key hash and the user reference. */
  ghost predicate TableInv(agents: Table, users: set<UserId>) {
    && (forall id :: id in agents ==> agents[id].id == id && agents[id].userId in users)
    && (forall i, j :: i in agents && j in agents && SameKeys(agents[i], agents[j]) ==> i == j)
  }

  /** The pending rows: what a commit would add. */
  ghost predicate Pending(s: State, t: TxId) {
    t in s.txs && s.txs[t].phase.Inserted?
  }

  ghost predicate PendingInv(s: State) {
    && (forall t, id :: Pending(s, t) && id in s.agents ==> !SameKeys(s.agents[id], s.txs[t].agent))
    && (forall t, t' :: Pending(s, t) && Pending(s, t') && t != t' ==> !SameKeys(s.txs[t].agent, s.txs[t'].agent))
  }

  ghost predicate RowInv(s: State) {
    TableInv(s.agents, s.users) && PendingInv(s)
  }

  ghost predicate Inv(s: State) {
    LockInv(s) && CountInv(s) && RowInv(s)
  }

  /** A database at rest, with any table of agents. */
  ghost predicate Initial(s: State) {
    s.txs == map[] && s.locks == map[] && RowInv(s)
  }

  /** No row, committed or about to be, has the id or the key hash of `a`. */
  ghost predicate KeysFree(s: State, a: Agent) {
    && (forall id :: id in s.agents ==> id != a.id && s.agents[id].keyHash != a.keyHash)
    && (forall t :: t in s.txs && s.txs[t].phase.Inserted? ==>
          s.txs[t].agent.id != a.id && s.txs[t].agent.keyHash != a.keyHash)
  }

  /** Only ids and key hashes are unique: nothing else of a row can stand in another's way. */
  lemma ClashIff(s: State, a: Agent)
    requires TableInv(s.agents, s.users)
    ensures Clash(s, a) <==> !KeysFree(s, a)
  {
  }

  lemma ActiveAfterAdd(agents: Table, a: Agent, u: UserId)
    requires a.id !in agents
    ensures ActiveCount(agents[a.id := a], u) == ActiveCount(agents, u) + if a.userId == u && !a.Revoked() then 1 else 0
  {
    if a.userId == u && !a.Revoked() {
      assert ActiveIds(agents[a.id := a], u) == ActiveIds(agents, u) + {a.id};
    } else {
      assert ActiveIds(agents[a.id := a], u) == ActiveIds(agents, u);
    }
  }

  lemma ActiveAfterRevoke(agents: Table, id: AgentId, at: int, u: UserId)
    requires id in agents && !agents[id].Revoked() && at != 0
    ensures ActiveCount(agents[id := agents[id].(revokedAt := at)], u)
            == ActiveCount(agents, u) - if agents[id].userId == u then 1 else 0
  {
    assert ActiveIds(agents[id := agents[id].(revokedAt := at)], u)
        == ActiveIds(agents, u) - if agents[id].userId == u then {id} else {};
  }

  lemma ActiveAfterTouch(agents: Table, id: AgentId, at: int, u: UserId)
    requires id in agents
    ensures ActiveCount(agents[id := agents[id].(lastUsedAt := at)], u) == ActiveCount(agents, u)
  {
    assert ActiveIds(agents[id := agents[id].(lastUsedAt := at)], u) == ActiveIds(agents, u);
  }

  lemma FinishKeepsLockInv(s: State, t: TxId, outcome: Outcome)
    requires LockInv(s) && t in s.txs
    ensures LockInv(Finish(s, t, outcome))
  {
  }

  lemma ProgressKeepsLockInv(s: State, t: TxId, phase: Phase)
    requires LockInv(s) && t in s.txs && s.txs[t].phase.HoldsLock() && phase.HoldsLock()
    ensures LockInv(WithPhase(s, t, phase))
  {
  }

  lemma LockInvStep(s: State, e: Event)
    requires LockInv(s)
    ensures LockInv(Next(s, e))
  {
    if Enabled(s, e) {
      match e
      case Lock(t) =>
        if s.txs[t].agent.userId !in s.users {
          FinishKeepsLockInv(s, t, UserNotFound);
        }
      case Count(t) => ProgressKeepsLockInv(s, t, Next(s, e).txs[t].phase);
      case Refuse(t) => FinishKeepsLockInv(s, t, Refused);
      case Insert(t) => ProgressKeepsLockInv(s, t, Next(s, e).txs[t].phase);
      case Commit(t, acknowledged) => FinishKeepsLockInv(s, t, if acknowledged then Created else Failed(true));
      case Fail(t) => FinishKeepsLockInv(s, t, Failed(false));
      case _ =>
    }
  }

  lemma TableInvStep(s: State, e: Event)
    requires LockInv(s) && RowInv(s)
    ensures TableInv(Next(s, e).agents, Next(s, e).users)
  {
    if Enabled(s, e) && e.Commit? {
      assert Pending(s, e.t);
      var agents := s.agents[s.txs[e.t].agent.id := s.txs[e.t].agent];
      forall i, j | i in agents && j in agents && SameKeys(agents[i], agents[j]) ensures i == j {
        assert SameKeys(agents[j], agents[i]);
      }
    }
  }

  /** A row becomes pending only by its own insert. */
  lemma PendingOnlyByInsert(s: State, e: Event, t: TxId)
    requires Pending(Next(s, e), t)
    ensures Next(s, e).txs[t].agent == s.txs[t].agent
    ensures Pending(s, t) || (e == Insert(t) && Enabled(s, e) && !Clash(s, s.txs[t].agent))
  {
  }

  lemma PendingAgainstRow(s: State, e: Event, t: TxId, id: AgentId)
    requires RowInv(s) && Pending(Next(s, e), t) && id in Next(s, e).agents
    ensures !SameKeys(Next(s, e).agents[id], Next(s, e).txs[t].agent)
  {
    PendingOnlyByInsert(s, e, t);
    if Enabled(s, e) && e.Commit? {
      assert Pending(s, e.t) && e.t != t;
    }
  }

  lemma PendingAgainstPending(s: State, e: Event, t: TxId, t': TxId)
    requires RowInv(s) && Pending(Next(s, e), t) && Pending(Next(s, e), t') && t != t'
    ensures !SameKeys(Next(s, e).txs[t].agent, Next(s, e).txs[t'].agent)
  {
    PendingOnlyByInsert(s, e, t);
    PendingOnlyByInsert(s, e, t');
  }

  lemma PendingInvStep(s: State, e: Event)
    requires RowInv(s)
    ensures PendingInv(Next(s, e))
  {
    var s' := Next(s, e);
    forall t, id | Pending(s', t) && id in s'.agents ensures !SameKeys(s'.agents[id], s'.txs[t].agent) {
      PendingAgainstRow(s, e, t, id);
    }
    forall t, t' | Pending(s', t) && Pending(s', t') && t != t' ensures !SameKeys(s'.txs[t].agent, s'.txs[t'].agent) {
      PendingAgainstPending(s, e, t, t');
    }
  }

  /** How one event moves a user's active count: only a commit raises it, by one, and only to
      within the limit of its own transaction. */
  lemma CountStep(s: State, e: Event, u: UserId)
    requires Inv(s)
    ensures ActiveCount(Next(s, e).agents, u) <= ActiveCount(s.agents, u) ||
            (e.Commit? && Enabled(s, e) && s.txs[e.t].agent.userId == u &&
             ActiveCount(Next(s, e).agents, u) <= s.txs[e.t].max)
  {
    if Enabled(s, e) {
      match e
      case Commit(t, _) => ActiveAfterAdd(s.agents, s.txs[t].agent, u);
      case Revoke(id, at) => ActiveAfterRevoke(s.agents, id, at, u);
      case Touch(id, at) => ActiveAfterTouch(s.agents, id, at, u);
      case _ =>
    }
  }

  ghost predicate Bounded(s: State, t: TxId)
    requires t in s.txs
  {
    var tx := s.txs[t];
    tx.phase.Counted? || tx.phase.Inserted? ==>
      && ActiveCount(s.agents, tx.agent.userId) <= tx.phase.count
      && (tx.phase.Inserted? ==> tx.phase.count < tx.max)
  }

  /** A transaction's own statement: the count is exact when taken, and an insert needs room. */
  lemma OwnStepBounded(s: State, e: Event, t: TxId)
    requires Inv(s) && t in Next(s, e).txs && e.IsOf(t)
    ensures Bounded(Next(s, e), t)
  {
  }

  /** Anyone else's statement: only the lock's holder could commit for this user. */
  lemma OtherStepBounded(s: State, e: Event, t: TxId)
    requires Inv(s) && t in Next(s, e).txs && !e.IsOf(t)
    ensures Bounded(Next(s, e), t)
  {
    assert t in s.txs && Next(s, e).txs[t] == s.txs[t];
    CountStep(s, e, s.txs[t].agent.userId);
  }

  lemma CountInvStep(s: State, e: Event)
    requires Inv(s)
    ensures CountInv(Next(s, e))
  {
    var s' := Next(s, e);
    forall t | t in s'.txs ensures Bounded(s', t) {
      if e.IsOf(t) {
        OwnStepBounded(s, e, t);
      } else {
        OtherStepBounded(s, e, t);
      }
    }
  }

  lemma InvStep(s: State, e: Event)
    requires Inv(s)
    ensures Inv(Next(s, e))
  {
    LockInvStep(s, e);
    TableInvStep(s, e);
    PendingInvStep(s, e);
    CountInvStep(s, e);
  }

  lemma {:induction false} InvKept(s: State, es: seq<Event>)
    requires Inv(s)
    ensures Inv(Final(s, es))
  {
    if es != [] {
      InvKept(s, es[..|es| - 1]);
      InvStep(Final(s, es[..|es| - 1]), es[|es| - 1]);
    }
  }

  lemma InvAlways(s: State, es: seq<Event>)
    requires Initial(s)
    ensures Inv(Final(s, es))
  {
    InvKept(s, es);
  }
}
