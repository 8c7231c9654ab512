/**
 What the repository's `Revoke` promises: a guarded update, and where that changed nothing a
 second look for the row.
 */
module AgentRevocation {
  import opened AgentGuarantees
  import opened AgentProtocol
  import opened Credentials

  /** The state at the return of a `Revoke` none of whose statements fails; what the others do
      between its two statements is `gap`. It then succeeds exactly if the row is there. */
  ghost function AfterRevoke(s: State, id: AgentId, at: int, gap: seq<Event>): State {
    if Enabled(s, Revoke(id, at)) then Next(s, Revoke(id, at)) else Final(s, gap)
  }

  ghost predicate SuccessMeansRevoked(s: State, id: AgentId, at: int, gap: seq<Event>) {
    var after := AfterRevoke(s, id, at, gap);
    id in after.agents ==> after.agents[id].Revoked()
  }

  lemma {:induction false} FreshString(used: set<string>) returns (unused: string)
    ensures forall x :: x in used ==> |x| < |unused|
  {
    if used == {} {
      unused := "";
    } else {
      var x :| x in used;
      var shorter := FreshString(used - {x});
      unused := shorter + x + "x";
      forall y | y in used ensures |y| < |unused| {
        assert y == x || y in used - {x};
      }
    }
  }

  lemma {:induction false} FreshTx(used: set<TxId>) returns (unused: TxId)
    ensures forall x :: x in used ==> x < unused
  {
    if used == {} {
      unused := 0;
    } else {
      var x :| x in used;
      var below := FreshTx(used - {x});
      unused := below + x + 1;
      forall y | y in used ensures y < unused {
        assert y == x || y in used - {x};
      }
    }
  }

  /** A transaction about to commit a row with this id can still fail, and then none is left. */
  lemma ClearPending(s: State, id: AgentId) returns (gap: seq<Event>)
    requires Inv(s)
    ensures Final(s, gap).agents == s.agents
    ensures forall t :: Pending(Final(s, gap), t) ==> Final(s, gap).txs[t].agent.id != id
  {
    gap := [];
    if t :| Pending(s, t) && s.txs[t].agent.id == id {
      gap := [Fail(t)];
      FinalOfOne(s, Fail(t));
      forall other | Pending(Next(s, Fail(t)), other) ensures Next(s, Fail(t)).txs[other].agent.id != id {
        assert Pending(s, other) && other != t;
        assert !SameKeys(s.txs[t].agent, s.txs[other].agent);
      }
    }
  }

  /** No row and no pending row has this key hash. */
  lemma FreshHash(s: State) returns (hash: TokenHash)
    ensures forall i :: i in s.agents ==> s.agents[i].keyHash != hash
    ensures forall x :: x in s.txs ==> s.txs[x].agent.keyHash != hash
  {
    var rows := set i | i in s.agents :: s.agents[i].keyHash.raw;
    var pending := set x | x in s.txs :: s.txs[x].agent.keyHash.raw;
    var raw := FreshString(rows + pending);
    hash := HashOf(raw);
    forall i | i in s.agents ensures s.agents[i].keyHash != hash {
      assert s.agents[i].keyHash.raw in rows + pending;
    }
    forall x | x in s.txs ensures s.txs[x].agent.keyHash != hash {
      assert s.txs[x].agent.keyHash.raw in rows + pending;
    }
  }

  lemma FreshKeysFree(s: State, user: UserId, t: TxId, agent: Agent)
    requires Inv(s) && agent.id !in s.agents && agent.userId == user
    requires user !in s.users && t !in s.txs
    requires forall x :: Pending(s, x) ==> s.txs[x].agent.id != agent.id
    requires forall i :: i in s.agents ==> s.agents[i].keyHash != agent.keyHash
    requires forall x :: x in s.txs ==> s.txs[x].agent.keyHash != agent.keyHash
    ensures Inv(Next(s, AddUser(user))) && Unobstructed(Next(s, AddUser(user)), agent)
  {
    var s' := s.(users := s.users + {user});
    assert Next(s, AddUser(user)) == s';
    InvStep(s, AddUser(user));
    forall x | x in s'.txs && s'.txs[x].phase.Inserted? ensures s'.txs[x].agent.id != agent.id {
      assert Pending(s, x);
    }
    assert user !in s.locks;
  }

  /** With its id free, a row can be created whatever else is going on. */
  lemma CreateElsewhere(s: State, id: AgentId) returns (gap: seq<Event>)
    requires Inv(s) && id !in s.agents
    requires forall t :: Pending(s, t) ==> s.txs[t].agent.id != id
    ensures id in Final(s, gap).agents && !Final(s, gap).agents[id].Revoked()
  {
    var user := FreshString(s.users);
    var t := FreshTx(s.txs.Keys);
    var hash := FreshHash(s);
    var agent := Agent(id, user, "", hash, 0, 0, 0);
    FreshKeysFree(s, user, t, agent);
    var s' := Next(s, AddUser(user));
    var count := ActiveCount(s'.agents, user);
    gap := [AddUser(user)] + Attempt(t, agent, count + 1, count);
    FinalConcat(s, [AddUser(user)], Attempt(t, agent, count + 1, count));
    FinalOfOne(s, AddUser(user));
    Undisturbed(s', t, agent, count + 1);
  }

  lemma LateRow(s: State, id: AgentId) returns (gap: seq<Event>)
    requires Inv(s) && id !in s.agents
    ensures id in Final(s, gap).agents && !Final(s, gap).agents[id].Revoked()
  {
    var first := ClearPending(s, id);
    InvKept(s, first);
    var second := CreateElsewhere(Final(s, first), id);
    gap := first + second;
    FinalConcat(s, first, second);
  }

  /** Exactly when success means revoked: whatever the others do, if and only if the row is there at
      the call. On an absent row some others create it between the update and the second look.
      The program only calls `Revoke` on a row that it has just read. */
  lemma SuccessMeansRevokedIff(s: State, id: AgentId, at: int)
    requires Inv(s) && at != 0
    ensures (forall gap :: SuccessMeansRevoked(s, id, at, gap)) <==> id in s.agents
  {
    if id in s.agents {
      forall gap ensures SuccessMeansRevoked(s, id, at, gap) {
        RowsKept(s, gap);
      }
    } else {
      var gap := LateRow(s, id);
      assert !SuccessMeansRevoked(s, id, at, gap);
    }
  }

  /** The same on one short run from an empty table: the update finds nothing, the row then
      appears active, and so the second look succeeds. */
  lemma LateRowEscapesRevoke() returns (s: State, es: seq<Event>, gap: seq<Event>)
    ensures Initial(s)
    ensures !Enabled(Final(s, es), Revoke("a", 1))
    ensures var after := Final(s, es + [Revoke("a", 1)] + gap).agents;
            "a" in after && !after["a"].Revoked()
  {
    var agent := Agent("a", "u", "bot", HashOf("aea_key"), 1, 0, 0);
    s := State({"u"}, map[], map[], map[]);
    var revoke, commit := Revoke("a", 1), Commit(0, true);
    es := [Begin(0, agent, 1), Lock(0), Count(0)] + [Insert(0)];
    gap := [commit];
    assert ActiveIds(s.agents, "u") == {};
    var s3 := CountedState(s, 0, agent, 1);
    var s4 := Next(s3, Insert(0));
    assert Final(s, es) == s4 by {
      UndisturbedCount(s, 0, agent, 1);
      FinalOfThree(s, Begin(0, agent, 1), Lock(0), Count(0));
      FinalOfOne(s3, Insert(0));
      FinalConcat(s, [Begin(0, agent, 1), Lock(0), Count(0)], [Insert(0)]);
    }
    UndisturbedInsert(s, 0, agent, 1);
    UndisturbedCommit(s, 0, agent, 1);
    assert es + [revoke] + gap == es + [revoke, commit];
    FinalConcat(s, es, [revoke, commit]);
    FinalOfTwo(s4, revoke, commit);
  }
}
