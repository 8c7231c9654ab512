/**
 What every execution of the agent protocol guarantees: the cap, linearizability against
 the atomic operations, the accounting of slots, and the permanence of revocation.
 */
module AgentGuarantees {
  import opened AgentProtocol

  // ----- The cap -----

  function Larger(x: int, y: int): int {
    if x >= y then x else y
  }

  ghost predicate LimitsAtMost(es: seq<Event>, limit: int) {
    forall i :: 0 <= i < |es| && es[i].Begin? ==> es[i].max <= limit
  }

  lemma {:induction false} TxLimits(s: State, es: seq<Event>, limit: int)
    requires Initial(s) && LimitsAtMost(es, limit)
    ensures forall t :: t in Final(s, es).txs ==> Final(s, es).txs[t].max <= limit
  {
    if es != [] {
      assert LimitsAtMost(es[..|es| - 1], limit);
      TxLimits(s, es[..|es| - 1], limit);
    }
  }

  /** However creates, failures and revokes interleave, no user ever has more committed active
      agents than the limit, or than at the start where that was already more. */
  lemma {:induction false} CapHolds(s: State, es: seq<Event>, limit: int, u: UserId)
    requires Initial(s) && LimitsAtMost(es, limit)
    ensures ActiveCount(Final(s, es).agents, u) <= Larger(limit, ActiveCount(s.agents, u))
  {
    if es != [] {
      var p, e := es[..|es| - 1], es[|es| - 1];
      assert LimitsAtMost(p, limit);
      CapHolds(s, p, limit, u);
      TxLimits(s, p, limit);
      InvAlways(s, p);
      CountStep(Final(s, p), e, u);
    }
  }

  // ----- Linearizability -----

  /** The operations that the service believes it has: each one indivisible. */
  datatype AtomicOp =
    | Create(t: TxId, agent: Agent, max: int, result: bool)
    | RevokeRow(id: AgentId, at: int, affected: bool)
    | TouchRow(id: AgentId, at: int)

  function Apply(agents: Table, op: AtomicOp): Table {
    match op
    case Create(_, agent, max, _) =>
      if ActiveCount(agents, agent.userId) < max then agents[agent.id := agent] else agents
    case RevokeRow(id, at, _) =>
      if id in agents && !agents[id].Revoked() then agents[id := agents[id].(revokedAt := at)] else agents
    case TouchRow(id, at) =>
      if id in agents then agents[id := agents[id].(lastUsedAt := at)] else agents
  }

  predicate AnswersRight(agents: Table, op: AtomicOp) {
    match op
    case Create(_, agent, max, result) => result == (ActiveCount(agents, agent.userId) < max)
    case RevokeRow(id, _, affected) => affected == (id in agents && !agents[id].Revoked())
    case TouchRow(_, _) => true
  }

  function Replay(agents: Table, ops: seq<AtomicOp>): Table {
    if ops == [] then agents else Apply(Replay(agents, ops[..|ops| - 1]), ops[|ops| - 1])
  }

  ghost predicate AllRight(agents: Table, ops: seq<AtomicOp>) {
    forall i :: 0 <= i < |ops| ==> AnswersRight(Replay(agents, ops[..i]), ops[i])
  }

  /** Where the atomic operation takes place: at the commit for a creation, at the count for
      a refusal, and at its one statement for a revoke or a touch, whether or not that changes a
      row. A transaction that fails before its commit is nowhere. */
  function Point(s: State, e: Event): seq<AtomicOp> {
    match e
    case Commit(t, _) => if Enabled(s, e) then [Create(t, s.txs[t].agent, s.txs[t].max, true)] else []
    case Count(t) =>
      if Enabled(s, e) && ActiveCount(s.agents, s.txs[t].agent.userId) >= s.txs[t].max
      then [Create(t, s.txs[t].agent, s.txs[t].max, false)] else []
    case Revoke(id, at) => if at != 0 then [RevokeRow(id, at, Enabled(s, e))] else []
    case Touch(id, at) => [TouchRow(id, at)]
    case _ => []
  }

  function Points(s: State, es: seq<Event>): seq<AtomicOp> {
    if es == [] then [] else Points(s, es[..|es| - 1]) + Point(Final(s, es[..|es| - 1]), es[|es| - 1])
  }

  lemma PointRight(s: State, e: Event)
    requires Inv(s) && Point(s, e) != []
    ensures |Point(s, e)| == 1 && AnswersRight(s.agents, Point(s, e)[0])
    ensures Apply(s.agents, Point(s, e)[0]) == Next(s, e).agents
  {
  }

  lemma ReplayMore(agents: Table, ops: seq<AtomicOp>, op: AtomicOp)
    requires AllRight(agents, ops) && AnswersRight(Replay(agents, ops), op)
    ensures AllRight(agents, ops + [op])
    ensures Replay(agents, ops + [op]) == Apply(Replay(agents, ops), op)
  {
    assert (ops + [op])[..|ops|] == ops;
    forall i | 0 <= i < |ops + [op]| ensures AnswersRight(Replay(agents, (ops + [op])[..i]), (ops + [op])[i]) {
      if i < |ops| {
        assert (ops + [op])[..i] == ops[..i];
      }
    }
  }

  /** Executed one after the other, the atomic operations give the same answers and the same table. */
  lemma {:induction false} Linearizable(s: State, es: seq<Event>)
    requires Initial(s)
    ensures AllRight(s.agents, Points(s, es))
    ensures Replay(s.agents, Points(s, es)) == Final(s, es).agents
  {
    if es != [] {
      var p, e := es[..|es| - 1], es[|es| - 1];
      var mid := Final(s, p);
      Linearizable(s, p);
      InvAlways(s, p);
      if Point(mid, e) == [] {
        NoPointNoChange(mid, e);
        assert Points(s, p) + [] == Points(s, p);
      } else {
        PointRight(mid, e);
        assert Point(mid, e) == [Point(mid, e)[0]];
        ReplayMore(s.agents, Points(s, p), Point(mid, e)[0]);
      }
    }
  }

  lemma NoPointNoChange(s: State, e: Event)
    requires Point(s, e) == []
    ensures Next(s, e).agents == s.agents
  {
  }

  /** The atomic creates of transaction `t`. */
  function CreatesOf(ops: seq<AtomicOp>, t: TxId): seq<AtomicOp> {
    if ops == [] then []
    else CreatesOf(ops[..|ops| - 1], t) +
         if ops[|ops| - 1].Create? && ops[|ops| - 1].t == t then [ops[|ops| - 1]] else []
  }

  /** What a transaction's progress says about its atomic create. */
  function CreatesDue(s: State, t: TxId): seq<AtomicOp> {
    if t !in s.txs then [] else
    var tx := s.txs[t];
    if tx.phase == Done(Created) || tx.phase == Done(Failed(true)) then [Create(t, tx.agent, tx.max, true)]
    else if tx.phase == Done(Refused) || tx.MustRefuse() then [Create(t, tx.agent, tx.max, false)]
    else []
  }

  lemma {:induction false} CreatesOfConcat(ops: seq<AtomicOp>, more: seq<AtomicOp>, t: TxId)
    ensures CreatesOf(ops + more, t) == CreatesOf(ops, t) + CreatesOf(more, t)
  {
    if more == [] {
      assert ops + more == ops;
    } else {
      assert (ops + more)[..|ops + more| - 1] == ops + more[..|more| - 1];
      CreatesOfConcat(ops, more[..|more| - 1], t);
    }
  }

  lemma CreatesOfOne(op: AtomicOp, t: TxId)
    ensures CreatesOf([op], t) == if op.Create? && op.t == t then [op] else []
  {
    assert [op][..0] == [];
  }

  lemma PointShape(s: State, e: Event, t: TxId)
    ensures Point(s, e) != [] ==>
              && Point(s, e) == [Point(s, e)[0]]
              && (Point(s, e)[0].Create? && Point(s, e)[0].t == t <==> e.IsOf(t))
  {
  }

  /** The atomic create of a transaction has its point at one of the transaction's own statements. */
  lemma CreatesAtPoint(s: State, e: Event, t: TxId)
    ensures CreatesOf(Point(s, e), t) == if e.IsOf(t) then Point(s, e) else []
  {
    var ops := Point(s, e);
    PointShape(s, e, t);
    if ops != [] {
      CreatesOfOne(ops[0], t);
    }
  }

  lemma FinishedPhase(s: State, t: TxId, outcome: Outcome)
    requires t in s.txs
    ensures t in Finish(s, t, outcome).txs && Finish(s, t, outcome).txs[t] == s.txs[t].(phase := Done(outcome))
  {
  }

  lemma OwnCreatesStep(s: State, e: Event, t: TxId)
    requires e.IsOf(t)
    ensures CreatesDue(Next(s, e), t) == CreatesDue(s, t) + Point(s, e)
  {
    if Enabled(s, e) {
      match e
      case Lock(_) => FinishedPhase(s, t, UserNotFound);
      case Refuse(_) => FinishedPhase(s, t, Refused);
      case Commit(_, acknowledged) => FinishedPhase(s, t, if acknowledged then Created else Failed(true));
      case Fail(_) => FinishedPhase(s, t, Failed(false));
      case _ =>
    }
  }

  lemma OtherKeepsTx(s: State, e: Event, t: TxId)
    requires !e.IsOf(t)
    ensures t in Next(s, e).txs <==> t in s.txs
    ensures t in s.txs ==> Next(s, e).txs[t] == s.txs[t]
  {
  }

  lemma CreatesStep(s: State, e: Event, t: TxId)
    ensures CreatesDue(Next(s, e), t) == CreatesDue(s, t) + CreatesOf(Point(s, e), t)
  {
    CreatesAtPoint(s, e, t);
    if e.IsOf(t) {
      OwnCreatesStep(s, e, t);
    } else {
      OtherKeepsTx(s, e, t);
    }
  }

  /** Every call takes effect exactly once and says so: a create that returned true is one
      atomic create with that answer, one that returned false is one refusal, and an error
      is nothing at all unless a commit happened whose acknowledgement was lost. */
  lemma {:induction false} EachCallOnce(s: State, es: seq<Event>, t: TxId)
    requires Initial(s)
    ensures CreatesOf(Points(s, es), t) == CreatesDue(Final(s, es), t)
  {
    if es != [] {
      var p, e := es[..|es| - 1], es[|es| - 1];
      EachCallOnce(s, p, t);
      CreatesStep(Final(s, p), e, t);
      CreatesOfConcat(Points(s, p), Point(Final(s, p), e), t);
    }
  }

  lemma ConcatAssociates<T>(a: seq<T>, b: seq<T>, c: seq<T>)
    ensures a + b + c == a + (b + c)
  {
  }

  lemma PointsOfMore(s: State, p: seq<Event>, e: Event, es: seq<Event>)
    requires es != [] && es[..|es| - 1] == p && es[|es| - 1] == e
    ensures Points(s, es) == Points(s, p) + Point(Final(s, p), e)
  {
  }

  lemma {:induction false} PointsOfConcat(s: State, es: seq<Event>, fs: seq<Event>)
    ensures Points(s, es + fs) == Points(s, es) + Points(Final(s, es), fs)
  {
    if fs == [] {
      assert es + fs == es;
    } else {
      var p, e := fs[..|fs| - 1], fs[|fs| - 1];
      PointsOfConcat(s, es, p);
      assert (es + fs)[..|es + fs| - 1] == es + p;
      PointsOfMore(s, es + p, e, es + fs);
      PointsOfMore(Final(s, es), p, e, fs);
      FinalConcat(s, es, p);
      ConcatAssociates(Points(s, es), Points(Final(s, es), p), Point(Final(s, es + p), e));
    }
  }

  lemma DoneStep(s: State, e: Event, t: TxId)
    requires t in s.txs && s.txs[t].phase.Done?
    ensures t in Next(s, e).txs && Next(s, e).txs[t] == s.txs[t]
  {
  }

  lemma {:induction false} DoneStays(s: State, es: seq<Event>, t: TxId)
    requires t in s.txs && s.txs[t].phase.Done?
    ensures t in Final(s, es).txs && Final(s, es).txs[t] == s.txs[t]
  {
    if es != [] {
      DoneStays(s, es[..|es| - 1], t);
      DoneStep(Final(s, es[..|es| - 1]), es[|es| - 1], t);
    }
  }

  /** The order of the atomic operations respects real time. At any moment of any run, a call that has
      not begun has its point still ahead, and a call that has ended has it behind. So if one
      call ended before another began, the operation of the first comes before that of the second. */
  lemma RealTimeOrder(s: State, es: seq<Event>, fs: seq<Event>)
    requires Initial(s)
    ensures Points(s, es + fs) == Points(s, es) + Points(Final(s, es), fs)
    ensures forall t :: t !in Final(s, es).txs ==> CreatesOf(Points(s, es), t) == []
    ensures forall t :: t in Final(s, es).txs && Final(s, es).txs[t].phase.Done? ==>
                          CreatesOf(Points(Final(s, es), fs), t) == []
  {
    PointsOfConcat(s, es, fs);
    forall t | t !in Final(s, es).txs ensures CreatesOf(Points(s, es), t) == [] {
      EachCallOnce(s, es, t);
    }
    forall t | t in Final(s, es).txs && Final(s, es).txs[t].phase.Done?
      ensures CreatesOf(Points(Final(s, es), fs), t) == []
    {
      NothingAfterDone(s, es, fs, t);
    }
  }

  lemma NothingAfterDone(s: State, es: seq<Event>, fs: seq<Event>, t: TxId)
    requires Initial(s) && t in Final(s, es).txs && Final(s, es).txs[t].phase.Done?
    ensures CreatesOf(Points(Final(s, es), fs), t) == []
  {
    PointsOfConcat(s, es, fs);
    EachCallOnce(s, es, t);
    EachCallOnce(s, es + fs, t);
    FinalConcat(s, es, fs);
    DoneStays(Final(s, es), fs, t);
    CreatesOfConcat(Points(s, es), Points(Final(s, es), fs), t);
  }

  /** The statements of one undisturbed call that counts `count` active agents. */
  function Attempt(t: TxId, agent: Agent, max: int, count: nat): seq<Event> {
    [Begin(t, agent, max), Lock(t), Count(t)] + if count < max then [Insert(t), Commit(t, true)] else [Refuse(t)]
  }

  ghost predicate Free(s: State, t: TxId, agent: Agent) {
    && LockInv(s) && t !in s.txs
    && agent.userId in s.users && agent.userId !in s.locks && !Clash(s, agent)
  }

  /** The user is there and not locked, and the unique columns are free. */
  ghost predicate Unobstructed(s: State, agent: Agent) {
    agent.userId in s.users && agent.userId !in s.locks && KeysFree(s, agent)
  }

  lemma UnobstructedIsFree(s: State, t: TxId, agent: Agent)
    requires Inv(s) && t !in s.txs && Unobstructed(s, agent)
    ensures Free(s, t, agent)
  {
    ClashIff(s, agent);
  }

  /** The state after the count. */
  ghost function CountedState(s: State, t: TxId, agent: Agent, max: int): State {
    s.(txs := s.txs[t := Tx(agent, max, Counted(ActiveCount(s.agents, agent.userId)))],
       locks := s.locks[agent.userId := t])
  }

  lemma UndisturbedCount(s: State, t: TxId, agent: Agent, max: int)
    requires Free(s, t, agent)
    ensures Enabled(s, Begin(t, agent, max))
    ensures var s1 := Next(s, Begin(t, agent, max));
            && Enabled(s1, Lock(t)) && Enabled(Next(s1, Lock(t)), Count(t))
            && Next(Next(s1, Lock(t)), Count(t)) == CountedState(s, t, agent, max)
  {
    var s2 := Next(Next(s, Begin(t, agent, max)), Lock(t));
    assert s2 == s.(txs := s.txs[t := Tx(agent, max, Locked)], locks := s.locks[agent.userId := t]);
  }

  lemma UndisturbedRefuse(s: State, t: TxId, agent: Agent, max: int)
    requires Free(s, t, agent) && ActiveCount(s.agents, agent.userId) >= max
    ensures var s3 := CountedState(s, t, agent, max);
            Enabled(s3, Refuse(t)) && Next(s3, Refuse(t)) == s.(txs := s.txs[t := Tx(agent, max, Done(Refused))])
  {
    assert CountedState(s, t, agent, max).locks - {agent.userId} == s.locks;
  }

  lemma UndisturbedInsert(s: State, t: TxId, agent: Agent, max: int)
    requires Free(s, t, agent) && ActiveCount(s.agents, agent.userId) < max
    ensures var s3 := CountedState(s, t, agent, max);
            && Enabled(s3, Insert(t))
            && var count := ActiveCount(s.agents, agent.userId);
               Next(s3, Insert(t)) == s3.(txs := s.txs[t := Tx(agent, max, Inserted(count))])
  {
    var s3 := CountedState(s, t, agent, max);
    forall t' | t' in s3.txs && s3.txs[t'].phase.Inserted? ensures t' in s.txs && s.txs[t'] == s3.txs[t'] {
    }
    assert !Clash(s3, agent);
  }

  lemma UndisturbedCommit(s: State, t: TxId, agent: Agent, max: int)
    requires Free(s, t, agent) && ActiveCount(s.agents, agent.userId) < max
    ensures var s4 := Next(CountedState(s, t, agent, max), Insert(t));
            && Enabled(s4, Commit(t, true))
            && Next(s4, Commit(t, true))
               == s.(txs := s.txs[t := Tx(agent, max, Done(Created))], agents := s.agents[agent.id := agent])
  {
    UndisturbedInsert(s, t, agent, max);
    assert CountedState(s, t, agent, max).locks - {agent.userId} == s.locks;
  }

  lemma FinalOfOne(s: State, a: Event)
    ensures Final(s, [a]) == Next(s, a)
  {
    assert [a][..0] == [];
  }

  lemma FinalOfTwo(s: State, a: Event, b: Event)
    ensures Final(s, [a, b]) == Next(Next(s, a), b)
  {
    FinalOfOne(s, a);
    assert [a, b][..1] == [a];
  }

  lemma FinalOfThree(s: State, a: Event, b: Event, c: Event)
    ensures Final(s, [a, b, c]) == Next(Next(Next(s, a), b), c)
  {
    FinalOfTwo(s, a, b);
    assert [a, b, c][..2] == [a, b];
  }

  /** Nothing stands in the way of a call: if the user exists and is not locked, and the unique
      columns are free, then its statements amount to the atomic operation. */
  lemma Undisturbed(s: State, t: TxId, agent: Agent, max: int)
    requires Inv(s) && t !in s.txs && Unobstructed(s, agent)
    ensures var count := ActiveCount(s.agents, agent.userId);
            Final(s, Attempt(t, agent, max, count))
            == s.(txs := s.txs[t := Tx(agent, max, Done(if count < max then Created else Refused))],
                  agents := if count < max then s.agents[agent.id := agent] else s.agents)
  {
    UnobstructedIsFree(s, t, agent);
    var count := ActiveCount(s.agents, agent.userId);
    var s3 := CountedState(s, t, agent, max);
    var first := [Begin(t, agent, max), Lock(t), Count(t)];
    assert Final(s, first) == s3 by {
      UndisturbedCount(s, t, agent, max);
      FinalOfThree(s, Begin(t, agent, max), Lock(t), Count(t));
    }
    if count < max {
      UndisturbedCommit(s, t, agent, max);
      FinalConcat(s, first, [Insert(t), Commit(t, true)]);
      FinalOfTwo(s3, Insert(t), Commit(t, true));
    } else {
      UndisturbedRefuse(s, t, agent, max);
      FinalConcat(s, first, [Refuse(t)]);
      FinalOfOne(s3, Refuse(t));
    }
  }

  // ----- Slots -----

  predicate FillsSlot(s: State, e: Event, u: UserId) {
    e.Commit? && Enabled(s, e) && s.txs[e.t].agent.userId == u && !s.txs[e.t].agent.Revoked()
  }

  predicate EffectiveRevoke(s: State, e: Event, id: AgentId) {
    e.Revoke? && e.id == id && Enabled(s, e)
  }

  predicate FreesSlot(s: State, e: Event, u: UserId) {
    e.Revoke? && Enabled(s, e) && s.agents[e.id].userId == u
  }

  function Filled(s: State, es: seq<Event>, u: UserId): nat {
    if es == [] then 0
    else Filled(s, es[..|es| - 1], u) + if FillsSlot(Final(s, es[..|es| - 1]), es[|es| - 1], u) then 1 else 0
  }

  function Freed(s: State, es: seq<Event>, u: UserId): nat {
    if es == [] then 0
    else Freed(s, es[..|es| - 1], u) + if FreesSlot(Final(s, es[..|es| - 1]), es[|es| - 1], u) then 1 else 0
  }

  function EffectiveRevokes(s: State, es: seq<Event>, id: AgentId): nat {
    if es == [] then 0
    else EffectiveRevokes(s, es[..|es| - 1], id) +
         if EffectiveRevoke(Final(s, es[..|es| - 1]), es[|es| - 1], id) then 1 else 0
  }

  lemma SlotStep(s: State, e: Event, u: UserId)
    requires Inv(s)
    ensures ActiveCount(Next(s, e).agents, u)
            == ActiveCount(s.agents, u) + (if FillsSlot(s, e, u) then 1 else 0) - (if FreesSlot(s, e, u) then 1 else 0)
  {
    if Enabled(s, e) {
      match e
      case Commit(t, _) =>
        assert Pending(s, t);
        ActiveAfterAdd(s.agents, s.txs[t].agent, u);
      case Revoke(id, at) => ActiveAfterRevoke(s.agents, id, at, u);
      case Touch(id, at) => ActiveAfterTouch(s.agents, id, at, u);
      case _ =>
    }
  }

  /** Slots are conserved: active agents are the initial ones, plus commits, minus effective revokes. */
  lemma {:induction false} SlotsConserved(s: State, es: seq<Event>, u: UserId)
    requires Initial(s)
    ensures ActiveCount(Final(s, es).agents, u) == ActiveCount(s.agents, u) + Filled(s, es, u) - Freed(s, es, u)
  {
    if es != [] {
      SlotsConserved(s, es[..|es| - 1], u);
      InvAlways(s, es[..|es| - 1]);
      SlotStep(Final(s, es[..|es| - 1]), es[|es| - 1], u);
    }
  }

  /** However many revokes target an agent, at most one of them frees its slot, and from then on
      its row is revoked. */
  lemma {:induction false} AtMostOneEffectiveRevoke(s: State, es: seq<Event>, id: AgentId)
    requires Initial(s)
    ensures EffectiveRevokes(s, es, id) <= 1
    ensures EffectiveRevokes(s, es, id) == 1 ==> id in Final(s, es).agents && Final(s, es).agents[id].Revoked()
  {
    if es != [] {
      var p := es[..|es| - 1];
      AtMostOneEffectiveRevoke(s, p, id);
      InvAlways(s, p);
      RowStable(Final(s, p), es[|es| - 1], id);
    }
  }

  // ----- Permanence -----

  /** What later events leave of a row: everything but the time of last use, and a revocation time not yet set. */
  predicate Keeps(before: Agent, after: Agent) {
    && after.id == before.id && after.userId == before.userId && after.name == before.name
    && after.keyHash == before.keyHash && after.createdAt == before.createdAt
    && (before.Revoked() ==> after.revokedAt == before.revokedAt)
  }

  lemma RowStable(s: State, e: Event, id: AgentId)
    requires Inv(s)
    ensures id in s.agents ==> id in Next(s, e).agents && Keeps(s.agents[id], Next(s, e).agents[id])
  {
    if Enabled(s, e) && e.Commit? {
      assert Pending(s, e.t);
    }
  }

  /** Every row of a table is still there, with what later events must leave of it. */
  ghost predicate AllKept(before: Table, after: Table) {
    forall id :: id in before ==> id in after && Keeps(before[id], after[id])
  }

  lemma AllKeptSelf(a: Table)
    ensures AllKept(a, a)
  {
  }

  lemma AllKeptTwice(a: Table, b: Table, c: Table)
    requires AllKept(a, b) && AllKept(b, c)
    ensures AllKept(a, c)
  {
    forall id | id in a ensures id in c && Keeps(a[id], c[id]) {
      assert Keeps(a[id], b[id]) && Keeps(b[id], c[id]);
    }
  }

  lemma AllKeptStep(s: State, e: Event)
    requires Inv(s)
    ensures AllKept(s.agents, Next(s, e).agents)
  {
    forall id | id in s.agents ensures id in Next(s, e).agents && Keeps(s.agents[id], Next(s, e).agents[id]) {
      RowStable(s, e, id);
    }
  }

  lemma {:induction false} RowsKept(s: State, es: seq<Event>)
    requires Inv(s)
    ensures AllKept(s.agents, Final(s, es).agents)
  {
    if es != [] {
      var mid := Final(s, es[..|es| - 1]);
      RowsKept(s, es[..|es| - 1]);
      InvKept(s, es[..|es| - 1]);
      AllKeptStep(mid, es[|es| - 1]);
      AllKeptTwice(s.agents, mid.agents, Next(mid, es[|es| - 1]).agents);
    }
  }

  /** A row never goes, never changes hands, and once revoked keeps its first revocation time. */
  lemma RevocationPermanent(s: State, es: seq<Event>, fs: seq<Event>)
    requires Initial(s)
    ensures AllKept(Final(s, es).agents, Final(s, es + fs).agents)
  {
    InvAlways(s, es);
    FinalConcat(s, es, fs);
    RowsKept(Final(s, es), fs);
  }
}
