/**
 User tokens under interleaved sign-ins, authentications, logouts and the background
 cleanup. An authentication is two steps, reading the token row and then judging it by a
 clock read in between and fetching the user. Anything may happen between the two.
 */
module Sessions {
  import opened AppErr
  import opened Credentials
  import opened Users

  datatype UserToken = UserToken(tokenHash: TokenHash, userId: string, expiresAt: int, createdAt: int)
  {
    predicate Expired(at: int) { !(at < expiresAt) }
  }

  type TokenTable = map<TokenHash, UserToken>

  /** DELETE ... WHERE expires_at < at. */
  function Unexpired(tokens: TokenTable, at: int): TokenTable {
    map h | h in tokens && !(tokens[h].expiresAt < at) :: tokens[h]
  }

  class UserTokenRepository {
    var tokens: TokenTable

    constructor ()
      ensures tokens == map[]
    {
      tokens := map[];
    }

    /** The hash is the primary key. */
    method Create(token: UserToken) returns (ok: bool)
      modifies this
      ensures ok <==> token.tokenHash !in old(tokens)
      ensures tokens == if ok then old(tokens)[token.tokenHash := token] else old(tokens)
    {
      ok := token.tokenHash !in tokens;
      if ok {
        tokens := tokens[token.tokenHash := token];
      }
    }

    method GetByHash(hash: TokenHash) returns (r: Lookup)
      ensures r == Find(tokens, hash)
    {
      return if hash in tokens then Row(tokens[hash]) else Missing;
    }

    method DeleteByHash(hash: TokenHash)
      modifies this
      ensures tokens == old(tokens) - {hash}
    {
      tokens := tokens - {hash};
    }

    /** Whatever it deletes has expired by then, and no longer authenticates. */
    method DeleteExpired(now: int)
      modifies this
      ensures tokens == Unexpired(old(tokens), now)
      ensures tokens.Keys <= old(tokens).Keys && forall h :: h in tokens ==> tokens[h] == old(tokens)[h]
      ensures forall h :: h in old(tokens) ==> (h in tokens <==> now <= old(tokens)[h].expiresAt)
      ensures forall h :: h in old(tokens) && h !in tokens ==> old(tokens)[h].Expired(now)
    {
      tokens := Unexpired(tokens, now);
    }

    /** The background loop, cut off after some rounds: round `i` reads the clock as
        `rounds[i].at`, and a failing statement only costs its own round. */
    method CleanupExpiredTokens(rounds: seq<Round>)
      modifies this
      ensures tokens.Keys <= old(tokens).Keys && forall h :: h in tokens ==> tokens[h] == old(tokens)[h]
      ensures forall h :: h in old(tokens) ==>
                (h in tokens <==>
                 forall i :: 0 <= i < |rounds| && !rounds[i].fails ==> rounds[i].at <= old(tokens)[h].expiresAt)
    {
      for n := 0 to |rounds|
        invariant tokens.Keys <= old(tokens).Keys && forall h :: h in tokens ==> tokens[h] == old(tokens)[h]
        invariant forall h :: h in old(tokens) ==>
                    (h in tokens <==>
                     forall i :: 0 <= i < n && !rounds[i].fails ==> rounds[i].at <= old(tokens)[h].expiresAt)
      {
        if !rounds[n].fails {
          DeleteExpired(rounds[n].at);
        }
      }
    }
  }

  datatype Round = Round(at: int, fails: bool)

  /** What reading a token row gave. */
  datatype Lookup = ReadFailed | Missing | Row(token: UserToken)

  function Find(tokens: TokenTable, hash: TokenHash): Lookup {
    if hash in tokens then Row(tokens[hash]) else Missing
  }

  /** The rest of `AuthenticateUser` once the row is read. */
  function Judge(users: UserTable, found: Lookup, at: int, userFails: bool): Result<User> {
    match found
    case ReadFailed => Err(Internal("could not authenticate"))
    case Missing => Err(Unauthorized("invalid or expired user token"))
    case Row(token) =>
      if token.Expired(at) then Err(Unauthorized("invalid or expired user token"))
      else if userFails then Err(Internal("could not authenticate"))
      else if token.userId !in users then Err(Unauthorized("invalid or expired user token"))
      else Ok(users[token.userId])
  }

  type CallId = nat

  datatype State = State(ttl: int, users: UserTable, tokens: TokenTable, pending: map<CallId, Lookup>)

  /** At `Answer` the user is fetched; its clock reading `at` was taken at some instant since the `Read`. */
  datatype Event =
    | SignIn(upsert: Upsert)
    | Issue(hash: TokenHash, userId: string, at: int)
    | Logout(hash: TokenHash)
    | Cleanup(at: int)
    | Read(c: CallId, raw: string, fails: bool)
    | Answer(c: CallId, at: int, userFails: bool)

  /** What the callers see. */
  datatype Output =
    | SignedIn(user: Option<User>)
    | Issued(ok: bool)
    | Answered(c: CallId, result: Result<User>)

  /** A token row needs a free hash and an existing user. */
  predicate CanIssue(s: State, hash: TokenHash, userId: string) {
    hash !in s.tokens && userId in s.users
  }

  ghost function Next(s: State, e: Event): State {
    match e
    case SignIn(upsert) => s.(users := AfterUpsert(s.users, upsert))
    case Issue(hash, userId, at) =>
      if CanIssue(s, hash, userId) then s.(tokens := s.tokens[hash := UserToken(hash, userId, at + s.ttl, at)]) else s
    case Logout(hash) => s.(tokens := s.tokens - {hash})
    case Cleanup(at) => s.(tokens := Unexpired(s.tokens, at))
    case Read(c, raw, fails) =>
      if c in s.pending then s
      else s.(pending := s.pending[c := if fails then ReadFailed else Find(s.tokens, HashOf(raw))])
    case Answer(c, _, _) => s.(pending := s.pending - {c})
  }

  ghost function Out(s: State, e: Event): seq<Output> {
    match e
    case SignIn(upsert) => [SignedIn(Returned(s.users, upsert))]
    case Issue(hash, userId, _) => [Issued(CanIssue(s, hash, userId))]
    case Answer(c, at, userFails) =>
      if c in s.pending then [Answered(c, Judge(s.users, s.pending[c], at, userFails))] else []
    case _ => []
  }

  ghost function Outputs(s: State, es: seq<Event>): seq<Output>
    decreases |es|
  {
    if es == [] then [] else Out(s, es[0]) + Outputs(Next(s, es[0]), es[1..])
  }

  // ----- The cleanup cannot be observed -----

  function WithoutCleanups(es: seq<Event>): seq<Event> {
    if es == [] then []
    else (if es[0].Cleanup? then [] else [es[0]]) + WithoutCleanups(es[1..])
  }

  /** Call `c` reads its row at `k` and answers at `j`. */
  ghost predicate ReadThenAnswer(es: seq<Event>, k: int, j: int) {
    0 <= k < j < |es| && es[k].Read? && es[j].Answer? && es[k].c == es[j].c
  }

  /** A cleanup's clock reading is not later than that of a call that reads its row afterwards. */
  ghost predicate ClockOk(es: seq<Event>) {
    forall i, k, j :: ReadThenAnswer(es, k, j) && 0 <= i < k && es[i].Cleanup? ==> es[i].at <= es[j].at
  }

  /** Every issued hash is new. */
  ghost predicate Fresh(tokens: TokenTable, es: seq<Event>) {
    && (forall i :: 0 <= i < |es| && es[i].Issue? ==> es[i].hash !in tokens)
    && (forall i, j :: 0 <= i < j < |es| && es[i].Issue? && es[j].Issue? ==> es[i].hash != es[j].hash)
  }

  /** Every call still to read its row finds the token expired. */
  ghost predicate LapsedForReads(token: UserToken, es: seq<Event>) {
    forall k, j :: ReadThenAnswer(es, k, j) ==> token.Expired(es[j].at)
  }

  /** Call `c` finds the token expired. */
  ghost predicate LapsedFor(c: CallId, token: UserToken, es: seq<Event>) {
    forall j :: 0 <= j < |es| && es[j].Answer? && es[j].c == c ==> token.Expired(es[j].at)
  }

  ghost predicate SameStored(full: Lookup, cleaned: Lookup, es: seq<Event>) {
    full == cleaned || (full.Row? && cleaned == Missing && LapsedForReads(full.token, es))
  }

  ghost predicate SamePending(c: CallId, full: Lookup, cleaned: Lookup, es: seq<Event>) {
    full == cleaned || (full.Row? && cleaned == Missing && LapsedFor(c, full.token, es))
  }

  /** The bisimulation: the stores, and the rows already read, differ only in tokens that have lapsed. */
  ghost predicate Related(full: State, cleaned: State, es: seq<Event>) {
    && full.ttl == cleaned.ttl && full.users == cleaned.users
    && (forall h :: SameStored(Find(full.tokens, h), Find(cleaned.tokens, h), es))
    && full.pending.Keys == cleaned.pending.Keys
    && (forall c :: c in full.pending ==> SamePending(c, full.pending[c], cleaned.pending[c], es))
  }

  lemma LaterPairs(es: seq<Event>, k: int, j: int)
    requires es != [] && ReadThenAnswer(es[1..], k, j)
    ensures ReadThenAnswer(es, k + 1, j + 1) && es[1..][j] == es[j + 1]
  {
  }

  lemma SameStoredLater(full: Lookup, cleaned: Lookup, es: seq<Event>)
    requires es != [] && SameStored(full, cleaned, es)
    ensures SameStored(full, cleaned, es[1..])
  {
    forall k, j | full.Row? && full != cleaned && ReadThenAnswer(es[1..], k, j)
      ensures full.token.Expired(es[1..][j].at)
    {
      LaterPairs(es, k, j);
    }
  }

  lemma SamePendingLater(c: CallId, full: Lookup, cleaned: Lookup, es: seq<Event>)
    requires es != [] && SamePending(c, full, cleaned, es)
    ensures SamePending(c, full, cleaned, es[1..])
  {
  }

  lemma ClockOkLater(es: seq<Event>)
    requires es != [] && ClockOk(es)
    ensures ClockOk(es[1..])
  {
    var rest := es[1..];
    forall i, k, j | ReadThenAnswer(rest, k, j) && 0 <= i < k && rest[i].Cleanup?
      ensures rest[i].at <= rest[j].at
    {
      LaterPairs(es, k, j);
      assert es[i + 1] == rest[i];
    }
  }

  /** A row read now is lapsed for the reading call if it was lapsed for the calls still to read. */
  lemma ReadNow(full: Lookup, cleaned: Lookup, es: seq<Event>)
    requires es != [] && es[0].Read? && SameStored(full, cleaned, es)
    ensures SamePending(es[0].c, full, cleaned, es[1..])
  {
    forall j | full.Row? && full != cleaned && 0 <= j < |es[1..]| && es[1..][j].Answer? && es[1..][j].c == es[0].c
      ensures full.token.Expired(es[1..][j].at)
    {
      assert ReadThenAnswer(es, 0, j + 1);
    }
  }

  /** A token that a cleanup removes now is expired for every call that reads later. */
  lemma CleanedNow(token: UserToken, es: seq<Event>)
    requires es != [] && es[0].Cleanup? && ClockOk(es) && token.expiresAt < es[0].at
    ensures LapsedForReads(token, es[1..])
  {
    forall k, j | ReadThenAnswer(es[1..], k, j)
      ensures token.Expired(es[1..][j].at)
    {
      LaterPairs(es, k, j);
    }
  }

  lemma FreshLater(s: State, es: seq<Event>)
    requires es != [] && Fresh(s.tokens, es)
    ensures Fresh(Next(s, es[0]).tokens, es[1..])
  {
  }

  lemma CleanupStep(full: State, cleaned: State, es: seq<Event>)
    requires es != [] && es[0].Cleanup? && Related(full, cleaned, es) && ClockOk(es)
    ensures Related(full, Next(cleaned, es[0]), es[1..])
  {
    var s' := Next(cleaned, es[0]);
    forall h ensures SameStored(Find(full.tokens, h), Find(s'.tokens, h), es[1..]) {
      SameStoredLater(Find(full.tokens, h), Find(cleaned.tokens, h), es);
      if h in cleaned.tokens && cleaned.tokens[h].expiresAt < es[0].at {
        CleanedNow(cleaned.tokens[h], es);
      }
    }
    forall c | c in full.pending ensures SamePending(c, full.pending[c], s'.pending[c], es[1..]) {
      SamePendingLater(c, full.pending[c], cleaned.pending[c], es);
    }
  }

  lemma SameOut(full: State, cleaned: State, es: seq<Event>)
    requires es != [] && Related(full, cleaned, es) && Fresh(full.tokens, es)
    ensures Out(full, es[0]) == Out(cleaned, es[0])
  {
    var e := es[0];
    if e.Issue? {
      assert SameStored(Find(full.tokens, e.hash), Find(cleaned.tokens, e.hash), es);
    }
    if e.Answer? && e.c in full.pending {
      assert SamePending(e.c, full.pending[e.c], cleaned.pending[e.c], es);
    }
  }

  lemma TokensStep(full: State, cleaned: State, es: seq<Event>, h: TokenHash)
    requires es != [] && !es[0].Cleanup? && Related(full, cleaned, es) && Fresh(full.tokens, es)
    ensures SameStored(Find(Next(full, es[0]).tokens, h), Find(Next(cleaned, es[0]).tokens, h), es[1..])
  {
    SameStoredLater(Find(full.tokens, h), Find(cleaned.tokens, h), es);
    if es[0].Issue? {
      assert SameStored(Find(full.tokens, es[0].hash), Find(cleaned.tokens, es[0].hash), es);
    }
  }

  lemma PendingStep(full: State, cleaned: State, es: seq<Event>, c: CallId)
    requires es != [] && !es[0].Cleanup? && Related(full, cleaned, es) && c in Next(full, es[0]).pending
    ensures c in Next(cleaned, es[0]).pending
    ensures SamePending(c, Next(full, es[0]).pending[c], Next(cleaned, es[0]).pending[c], es[1..])
  {
    if c in full.pending {
      SamePendingLater(c, full.pending[c], cleaned.pending[c], es);
    } else {
      var hash := HashOf(es[0].raw);
      ReadNow(Find(full.tokens, hash), Find(cleaned.tokens, hash), es);
    }
  }

  lemma OtherStep(full: State, cleaned: State, es: seq<Event>)
    requires es != [] && !es[0].Cleanup? && Related(full, cleaned, es) && Fresh(full.tokens, es)
    ensures Related(Next(full, es[0]), Next(cleaned, es[0]), es[1..])
  {
    var f', c' := Next(full, es[0]), Next(cleaned, es[0]);
    forall h ensures SameStored(Find(f'.tokens, h), Find(c'.tokens, h), es[1..]) {
      TokensStep(full, cleaned, es, h);
    }
    forall c | c in f'.pending ensures c in c'.pending && SamePending(c, f'.pending[c], c'.pending[c], es[1..]) {
      PendingStep(full, cleaned, es, c);
    }
  }

  lemma {:induction false} Bisimulation(full: State, cleaned: State, es: seq<Event>)
    requires Related(full, cleaned, es) && Fresh(full.tokens, es) && ClockOk(es)
    ensures Outputs(full, WithoutCleanups(es)) == Outputs(cleaned, es)
    decreases |es|
  {
    if es != [] {
      var rest := es[1..];
      ClockOkLater(es);
      if es[0].Cleanup? {
        CleanupStep(full, cleaned, es);
        assert Fresh(full.tokens, rest);
        Bisimulation(full, Next(cleaned, es[0]), rest);
        assert WithoutCleanups(es) == WithoutCleanups(rest);
      } else {
        SameOut(full, cleaned, es);
        OtherStep(full, cleaned, es);
        FreshLater(full, es);
        Bisimulation(Next(full, es[0]), Next(cleaned, es[0]), rest);
        var erased := WithoutCleanups(es);
        assert erased[0] == es[0] && erased[1..] == WithoutCleanups(rest);
      }
    }
  }

  /** Two runs that differ only in when, and whether, the cleanup ran give every caller the
      same results, error messages included. */
  lemma CleanupInvisible(s: State, es: seq<Event>, fs: seq<Event>)
    requires WithoutCleanups(es) == WithoutCleanups(fs)
    requires Fresh(s.tokens, es) && ClockOk(es) && Fresh(s.tokens, fs) && ClockOk(fs)
    ensures Outputs(s, es) == Outputs(s, fs)
  {
    Bisimulation(s, s, es);
    Bisimulation(s, s, fs);
  }

  // ----- Which tokens authenticate -----

  ghost function After(s: State, es: seq<Event>): State {
    if es == [] then s else Next(After(s, es[..|es| - 1]), es[|es| - 1])
  }

  /** Event `i` issued `h`, and no logout has named it since. */
  ghost predicate Kept(s: State, es: seq<Event>, i: int, h: TokenHash) {
    && 0 <= i < |es| && es[i].Issue? && es[i].hash == h
    && es[i].userId in After(s, es[..i]).users
    && forall j :: i < j < |es| ==> es[j] != Logout(h)
  }

  /** ... nor any cleanup that came after its expiry. */
  ghost predicate Stored(s: State, es: seq<Event>, i: int, h: TokenHash) {
    Kept(s, es, i, h) && forall j :: i < j < |es| && es[j].Cleanup? ==> es[j].at <= es[i].at + s.ttl
  }

  lemma {:induction false} TtlConstant(s: State, es: seq<Event>)
    ensures After(s, es).ttl == s.ttl
  {
    if es != [] {
      TtlConstant(s, es[..|es| - 1]);
    }
  }

  lemma {:induction false} UsersOnlyGrow(s: State, es: seq<Event>, i: nat)
    requires i <= |es|
    ensures After(s, es[..i]).users.Keys <= After(s, es).users.Keys
    decreases |es|
  {
    if i == |es| {
      assert es[..i] == es;
    } else {
      var p := es[..|es| - 1];
      assert p[..i] == es[..i];
      UsersOnlyGrow(s, p, i);
    }
  }

  lemma StoredPrefix(s: State, es: seq<Event>, i: int, h: TokenHash)
    requires es != [] && 0 <= i < |es| - 1
    ensures var p, e := es[..|es| - 1], es[|es| - 1];
            Stored(s, es, i, h) <==>
            Stored(s, p, i, h) && e != Logout(h) && (e.Cleanup? ==> e.at <= es[i].at + s.ttl)
  {
    var p := es[..|es| - 1];
    assert p[..i] == es[..i] && p[i] == es[i];
    if Stored(s, p, i, h) {
      assert forall j :: i < j < |es| ==> j == |es| - 1 || es[j] == p[j];
    }
    if Stored(s, es, i, h) {
      assert forall j :: i < j < |p| ==> es[j] == p[j];
    }
  }

  /** Every row in the table was issued, and neither logged out nor cleaned up since. */
  lemma {:induction false} RowWasIssued(s: State, es: seq<Event>, h: TokenHash) returns (i: int)
    requires s.tokens == map[] && h in After(s, es).tokens
    ensures Stored(s, es, i, h)
    ensures After(s, es).tokens[h] == UserToken(h, es[i].userId, es[i].at + s.ttl, es[i].at)
  {
    var last := |es| - 1;
    TtlConstant(s, es[..last]);
    if h in After(s, es[..last]).tokens {
      i := RowWasIssued(s, es[..last], h);
      StoredPrefix(s, es, i, h);
    } else {
      i := last;
    }
  }

  /** Every token issued, and neither logged out nor cleaned up since, has its row in the table. */
  lemma {:induction false} IssuedIsRow(s: State, es: seq<Event>, i: int, h: TokenHash)
    requires s.tokens == map[] && Fresh(s.tokens, es) && Stored(s, es, i, h)
    ensures h in After(s, es).tokens
    ensures After(s, es).tokens[h] == UserToken(h, es[i].userId, es[i].at + s.ttl, es[i].at)
    decreases |es|
  {
    var last := |es| - 1;
    var p := es[..last];
    TtlConstant(s, p);
    if i == last {
      if h in After(s, p).tokens {
        var k := RowWasIssued(s, p, h);
      }
    } else {
      StoredPrefix(s, es, i, h);
      assert Fresh(s.tokens, p);
      IssuedIsRow(s, p, i, h);
    }
  }

  /** Event `i` issued `h` less than the time to live before `at`, and no logout has named it since. */
  ghost predicate LiveAt(s: State, es: seq<Event>, i: int, h: TokenHash, at: int) {
    Kept(s, es, i, h) && at < es[i].at + s.ttl
  }

  /** The first `k` events decide that `result` is a user if and only if they left `h` live at
      `at`, and then it is the user that `h` was issued to. */
  ghost predicate Decides(s: State, es: seq<Event>, k: nat, h: TokenHash, at: int, result: Result<User>)
    requires k <= |es|
  {
    && (result.Ok? <==> exists i :: LiveAt(s, es[..k], i, h, at))
    && (forall i :: LiveAt(s, es[..k], i, h, at) ==>
          es[i].userId in After(s, es).users && result == Ok(After(s, es).users[es[i].userId]))
  }

  /** The row that was in the table after `es[..k]`, judged against the users that are there after `es`. */
  lemma RowHistory(s: State, es: seq<Event>, k: nat, raw: string, at: int)
    requires s.tokens == map[] && Fresh(s.tokens, es) && k <= |es|
    requires forall j :: 0 <= j < k && es[j].Cleanup? ==> es[j].at <= at
    ensures var result := Judge(After(s, es).users, Find(After(s, es[..k]).tokens, HashOf(raw)), at, false);
            Decides(s, es, k, HashOf(raw), at, result)
  {
    var h, p := HashOf(raw), es[..k];
    forall i | LiveAt(s, p, i, h, at)
      ensures h in After(s, p).tokens && After(s, p).tokens[h] == UserToken(h, es[i].userId, es[i].at + s.ttl, es[i].at)
      ensures es[i].userId in After(s, es).users
    {
      assert Stored(s, p, i, h);
      assert Fresh(s.tokens, p);
      IssuedIsRow(s, p, i, h);
      assert p[..i] == es[..i];
      UsersOnlyGrow(s, es, i);
    }
    if h in After(s, p).tokens {
      var i := RowWasIssued(s, p, h);
      assert at < After(s, p).tokens[h].expiresAt ==> LiveAt(s, p, i, h, at);
    }
  }

  /** `AuthenticateUser(raw)` at an instant not before the cleanups succeeds exactly when some
      earlier exchange issued that token less than the time to live ago and no later logout
      named it. It then returns the user of that exchange. */
  lemma TokenHistory(s: State, es: seq<Event>, raw: string, at: int)
    requires s.tokens == map[] && Fresh(s.tokens, es)
    requires forall j :: 0 <= j < |es| && es[j].Cleanup? ==> es[j].at <= at
    ensures var result := Judge(After(s, es).users, Find(After(s, es).tokens, HashOf(raw)), at, false);
            Decides(s, es, |es|, HashOf(raw), at, result)
  {
    assert es[..|es|] == es;
    RowHistory(s, es, |es|, raw, at);
  }

  /** Call `c` reads the row of `raw` at `k` and has not answered since. */
  ghost predicate Reading(s: State, es: seq<Event>, k: int, c: CallId, raw: string) {
    && 0 <= k < |es| && es[k] == Read(c, raw, false)
    && c !in After(s, es[..k]).pending
    && forall j :: k < j < |es| ==> !(es[j].Answer? && es[j].c == c)
  }

  lemma {:induction false} PendingStays(s: State, es: seq<Event>, k: int, c: CallId, raw: string)
    requires Reading(s, es, k, c, raw)
    ensures c in After(s, es).pending
    ensures After(s, es).pending[c] == Find(After(s, es[..k]).tokens, HashOf(raw))
    decreases |es|
  {
    var p := es[..|es| - 1];
    assert p[..k] == es[..k];
    if k < |p| {
      PendingStays(s, p, k, c, raw);
    }
  }

  /** The same for an authentication with others between its two steps: logouts, cleanups and
      exchanges after its read no longer matter. */
  lemma AnswerHistory(s: State, es: seq<Event>, k: int, c: CallId, raw: string, at: int)
    requires s.tokens == map[] && Fresh(s.tokens, es) && Reading(s, es, k, c, raw)
    requires forall j :: 0 <= j < k && es[j].Cleanup? ==> es[j].at <= at
    ensures c in After(s, es).pending
    ensures var result := Judge(After(s, es).users, After(s, es).pending[c], at, false);
            && Out(After(s, es), Answer(c, at, false)) == [Answered(c, result)]
            && Decides(s, es, k, HashOf(raw), at, result)
  {
    PendingStays(s, es, k, c, raw);
    RowHistory(s, es, k, raw, at);
  }
}
