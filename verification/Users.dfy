/** The users table: one row per provider identity, written only by the sign-in upsert. */
module Users {
  import opened AppErr

  datatype User = User(id: string, provider: string, subject: string, email: string, createdAt: int)

  type UserTable = map<string, User>

  /** The arguments of one `UpsertUserIdentity`; `newId` is the freshly drawn UUID. */
  datatype Upsert = Upsert(provider: string, subject: string, email: string, newId: string, at: int)

  predicate IsIdentity(u: User, provider: string, subject: string) {
    u.provider == provider && u.subject == subject
  }

  /** Primary key and UNIQUE (provider, subject). */
  ghost predicate UniqueIdentity(users: UserTable) {
    && (forall id :: id in users ==> users[id].id == id)
    && (forall i, j :: i in users && j in users && IsIdentity(users[i], users[j].provider, users[j].subject) ==> i == j)
  }

  ghost predicate Known(users: UserTable, provider: string, subject: string) {
    exists id :: id in users && IsIdentity(users[id], provider, subject)
  }

  ghost function IdOf(users: UserTable, provider: string, subject: string): (id: string)
    requires Known(users, provider, subject)
    ensures id in users && IsIdentity(users[id], provider, subject)
  {
    var id :| id in users && IsIdentity(users[id], provider, subject); id
  }

  /** INSERT, or on a known identity an update of the email alone. A drawn id that is taken
      breaks the primary key and changes nothing. */
  ghost function AfterUpsert(users: UserTable, e: Upsert): UserTable {
    if Known(users, e.provider, e.subject) then
      var id := IdOf(users, e.provider, e.subject);
      users[id := users[id].(email := e.email)]
    else if e.newId in users then users
    else users[e.newId := User(e.newId, e.provider, e.subject, e.email, e.at)]
  }

  /** The returned row, or none for an error. */
  ghost function Returned(users: UserTable, e: Upsert): Option<User> {
    var after := AfterUpsert(users, e);
    if Known(after, e.provider, e.subject) then Some(after[IdOf(after, e.provider, e.subject)]) else None
  }

  class UserRepository {
    var users: UserTable

    ghost predicate Valid()
      reads this
    {
      UniqueIdentity(users)
    }

    constructor ()
      ensures Valid() && users == map[]
    {
      users := map[];
    }

    method UpsertByIdentity(provider: string, subject: string, email: string, newId: string, now: int)
      returns (r: Option<User>)
      requires Valid()
      modifies this
      ensures Valid()
      ensures users == AfterUpsert(old(users), Upsert(provider, subject, email, newId, now))
      ensures r == Returned(old(users), Upsert(provider, subject, email, newId, now))
      ensures forall id ::
                id in old(users) && old(users)[id].provider == provider && old(users)[id].subject == subject ==>
                var row := User(id, provider, subject, email, old(users)[id].createdAt);
                r == Some(row) && users == old(users)[id := row]
      ensures (forall id :: id in old(users) ==>
                 !(old(users)[id].provider == provider && old(users)[id].subject == subject)) ==>
                var row := User(newId, provider, subject, email, now);
                && r == (if newId in old(users) then None else Some(row))
                && users == if newId in old(users) then old(users) else old(users)[newId := row]
      ensures r.Some? ==> r.value.id in users && users[r.value.id] == r.value
      ensures r == None ==> users == old(users) && newId in users
    {
      ghost var e := Upsert(provider, subject, email, newId, now);
      UniqueStep(users, e);
      if id :| id in users && IsIdentity(users[id], provider, subject) {
        users := users[id := users[id].(email := email)];
        return Some(users[id]);
      }
      if newId in users {
        return None;
      }
      users := users[newId := User(newId, provider, subject, email, now)];
      return Some(users[newId]);
    }

    method Get(id: string) returns (r: Option<User>)
      ensures r == if id in users then Some(users[id]) else None
    {
      return if id in users then Some(users[id]) else None;
    }
  }

  // ----- Any run of upserts -----

  ghost function AfterAll(users: UserTable, es: seq<Upsert>): UserTable {
    if es == [] then users else AfterUpsert(AfterAll(users, es[..|es| - 1]), es[|es| - 1])
  }

  lemma UniqueStep(users: UserTable, e: Upsert)
    requires UniqueIdentity(users)
    ensures UniqueIdentity(AfterUpsert(users, e))
  {
  }

  lemma {:induction false} UniqueAlways(users: UserTable, es: seq<Upsert>)
    requires UniqueIdentity(users)
    ensures UniqueIdentity(AfterAll(users, es))
  {
    if es != [] {
      UniqueAlways(users, es[..|es| - 1]);
      UniqueStep(AfterAll(users, es[..|es| - 1]), es[|es| - 1]);
    }
  }

  /** Everything of a row but its email. */
  predicate SameAccount(a: User, b: User) {
    a == b.(email := a.email)
  }

  /** An identity keeps its id and creation time through every later sign-in, its own and others';
      and no two identities ever share an id. */
  lemma {:induction false} IdentityStable(users: UserTable, es: seq<Upsert>, provider: string, subject: string)
    requires UniqueIdentity(users) && Known(users, provider, subject)
    ensures Known(AfterAll(users, es), provider, subject)
    ensures var id, after := IdOf(users, provider, subject), AfterAll(users, es);
            && IdOf(after, provider, subject) == id && SameAccount(after[id], users[id])
            && forall p, s :: Known(after, p, s) && IdOf(after, p, s) == id ==> p == provider && s == subject
  {
    var id := IdOf(users, provider, subject);
    RowsStay(users, es, id);
    UniqueAlways(users, es);
    var after := AfterAll(users, es);
    assert IsIdentity(after[id], provider, subject);
  }

  lemma {:induction false} RowsStay(users: UserTable, es: seq<Upsert>, id: string)
    requires id in users
    ensures id in AfterAll(users, es) && SameAccount(AfterAll(users, es)[id], users[id])
  {
    if es != [] {
      RowsStay(users, es[..|es| - 1], id);
    }
  }

  lemma EmailStep(users: UserTable, e: Upsert, provider: string, subject: string)
    requires UniqueIdentity(users) && Known(AfterUpsert(users, e), provider, subject)
    ensures var after := AfterUpsert(users, e);
            && (e.provider == provider && e.subject == subject ==>
                  after[IdOf(after, provider, subject)].email == e.email)
            && (!(e.provider == provider && e.subject == subject) ==>
                  && Known(users, provider, subject)
                  && after[IdOf(after, provider, subject)] == users[IdOf(users, provider, subject)])
  {
    UniqueStep(users, e);
    var after := AfterUpsert(users, e);
    var id := IdOf(after, provider, subject);
    if e.provider == provider && e.subject == subject {
      if Known(users, provider, subject) {
        assert IsIdentity(after[IdOf(users, provider, subject)], provider, subject);
      } else {
        assert e.newId !in users;
        assert IsIdentity(after[e.newId], provider, subject);
      }
    } else {
      assert id in users && IsIdentity(users[id], provider, subject);
    }
  }

  /** An identity's email is that of its latest sign-in. */
  lemma {:induction false} LatestEmail(users: UserTable, es: seq<Upsert>, i: nat)
    requires UniqueIdentity(users) && i < |es|
    requires Known(AfterAll(users, es), es[i].provider, es[i].subject)
    requires forall j :: i < j < |es| ==> !(es[j].provider == es[i].provider && es[j].subject == es[i].subject)
    ensures var after := AfterAll(users, es);
            after[IdOf(after, es[i].provider, es[i].subject)].email == es[i].email
  {
    var p := es[..|es| - 1];
    UniqueAlways(users, p);
    EmailStep(AfterAll(users, p), es[|es| - 1], es[i].provider, es[i].subject);
    if i < |p| {
      assert p[i] == es[i];
      LatestEmail(users, p, i);
    }
  }
}
