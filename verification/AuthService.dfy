/** The token use cases of the auth service, over its repositories and the shared limiter. */
module AuthService {
  import opened AppErr
  import opened Credentials
  import opened RateLimiter
  import opened Sessions
  import opened Users

  const ACTION_AUTH_EXCHANGE := "auth.exchange"
  const TOKEN_PREFIX_USER := "aeu_"

  predicate ValidProvider(provider: string) {
    provider in ["google", "apple", "microsoft"]
  }

  /** What the identity verifier says about a provider's token. */
  datatype Verdict = Identity(provider: string, subject: string, email: string) | ProviderUnavailable | Rejected

  datatype ExchangeResult = ExchangeResult(user: User, token: string, expiresAt: int)

  /** An exchange that reaches the store, as steps of the session protocol. */
  ghost function AfterExchange(s: State, upsert: Upsert, r: Result<ExchangeResult>, now: int): State {
    var s' := Next(s, SignIn(upsert));
    if r.Ok? then Next(s', Issue(HashOf(r.value.token), r.value.user.id, now)) else s'
  }

  class AuthService {
    const users: UserRepository
    const tokens: UserTokenRepository
    const limiter: RateLimiter
    const ttl: int

    ghost predicate Valid()
      reads this, users, limiter
    {
      users.Valid() && limiter.Valid()
    }

    /** The service's store as a state of the session protocol, with some calls under way. */
    ghost function Store(pending: map<CallId, Lookup>): State
      reads this, users, tokens
    {
      State(ttl, users.users, tokens.tokens, pending)
    }

    constructor (users: UserRepository, tokens: UserTokenRepository, limiter: RateLimiter, ttl: int)
      requires users.Valid() && limiter.Valid()
      ensures Valid() && this.users == users && this.tokens == tokens && this.limiter == limiter && this.ttl == ttl
    {
      this.users, this.tokens, this.limiter, this.ttl := users, tokens, limiter, ttl;
    }

    /** `random` is the drawn part of the token and `newId` a drawn user id. A success stores one
        new token, which from then on authenticates as the returned user until it expires; a
        failure stores none; and no account is touched before the limiter and the verifier agree.
        For the session protocol the call is a sign-in and an issue, or only the sign-in, or nothing. */
    method Exchange(provider: string, clientIp: string, verdict: Verdict, newId: string, random: string,
                    asked: int, signedIn: int, now: int, upsertFails: bool, randomFails: bool, storeFails: bool)
      returns (r: Result<ExchangeResult>)
      requires Valid()
      modifies users, tokens, limiter
      ensures Valid()
      ensures provider !in ["google", "apple", "microsoft"] ==>
                r == Err(Invalid("unknown identity provider")) && limiter.history == old(limiter.history)
      ensures provider in ["google", "apple", "microsoft"] ==>
                var n := |old(limiter.history)|;
                && |limiter.history| == n + 1 && limiter.history[..n] == old(limiter.history)
                && limiter.history[n].key == "ip:" + clientIp && limiter.history[n].action == "auth.exchange"
                && limiter.history[n].now == asked
                && (r == Err(TooMany("too many sign-in attempts, try again later")) <==> !limiter.history[n].allowed)
                && (users.users != old(users.users) ==> limiter.history[n].allowed && verdict.Identity?)
                && (limiter.history[n].allowed && verdict == ProviderUnavailable ==>
                      r == Err(Invalid("identity provider is not configured")))
                && (limiter.history[n].allowed && verdict == Rejected ==>
                      r == Err(Unauthorized("invalid or expired identity token")))
                && (limiter.history[n].allowed && verdict.Identity? ==>
                      && (r.Err? ==> r == Err(Internal("could not sign in")))
                      && (r.Err? <==> upsertFails || randomFails || storeFails
                                      || HashOf("aeu_" + random) in old(tokens.tokens)
                                      || (newId in old(users.users)
                                          && !Known(old(users.users), verdict.provider, verdict.subject))))
      ensures r.Ok? ==>
                && verdict.Identity? && r.value.token == "aeu_" + random
                && users.users == AfterUpsert(old(users.users),
                                              Upsert(verdict.provider, verdict.subject, verdict.email, newId, signedIn))
                && r.value.user.provider == verdict.provider && r.value.user.subject == verdict.subject
                && r.value.user.email == verdict.email
                && r.value.user.id in users.users && users.users[r.value.user.id] == r.value.user
                && r.value.expiresAt == now + ttl
                && HashOf(r.value.token) !in old(tokens.tokens)
                && tokens.tokens == old(tokens.tokens)[HashOf(r.value.token) :=
                     UserToken(HashOf(r.value.token), r.value.user.id, now + ttl, now)]
      ensures r.Ok? ==>
                forall at :: Judge(users.users, Find(tokens.tokens, HashOf(r.value.token)), at, false)
                             == if at < r.value.expiresAt then Ok(r.value.user)
                                else Err(Unauthorized("invalid or expired user token"))
      ensures r.Err? ==> tokens.tokens == old(tokens.tokens)
      ensures ValidProvider(provider) && limiter.history[|old(limiter.history)|].allowed
              && verdict.Identity? && !upsertFails ==>
                var upsert := Upsert(verdict.provider, verdict.subject, verdict.email, newId, signedIn);
                forall pending :: Store(pending) == AfterExchange(old(Store(pending)), upsert, r, now)
      ensures !(ValidProvider(provider) && limiter.history[|old(limiter.history)|].allowed
                && verdict.Identity? && !upsertFails) ==>
                forall pending :: Store(pending) == old(Store(pending))
    {
      if !ValidProvider(provider) {
        return Err(Invalid("unknown identity provider"));
      }
      var allowed := limiter.Allow("ip:" + clientIp, ACTION_AUTH_EXCHANGE, asked);
      if !allowed {
        return Err(TooMany("too many sign-in attempts, try again later"));
      }
      match verdict {
        case ProviderUnavailable => return Err(Invalid("identity provider is not configured"));
        case Rejected => return Err(Unauthorized("invalid or expired identity token"));
        case Identity(_, _, _) =>
      }
      var upsert := Upsert(verdict.provider, verdict.subject, verdict.email, newId, signedIn);
      r := SignInAndIssue(upsert, random, now, upsertFails, randomFails, storeFails);
    }

    /** The rest of `Exchange` once the identity is verified. */
    method SignInAndIssue(upsert: Upsert, random: string, now: int,
                          upsertFails: bool, randomFails: bool, storeFails: bool)
      returns (r: Result<ExchangeResult>)
      requires users.Valid()
      modifies users, tokens
      ensures users.Valid()
      ensures users.users == if upsertFails then old(users.users) else AfterUpsert(old(users.users), upsert)
      ensures r.Err? ==>
                && r == Err(Internal("could not sign in")) && tokens.tokens == old(tokens.tokens)
      ensures r.Err? <==> upsertFails || randomFails || storeFails || HashOf("aeu_" + random) in old(tokens.tokens)
                          || (upsert.newId in old(users.users)
                              && !Known(old(users.users), upsert.provider, upsert.subject))
      ensures r.Ok? ==>
                var hash, user := HashOf(r.value.token), r.value.user;
                && !upsertFails && user.id in users.users && users.users[user.id] == user
                && user.provider == upsert.provider && user.subject == upsert.subject && user.email == upsert.email
                && r.value.token == "aeu_" + random
                && r.value.expiresAt == now + ttl && hash !in old(tokens.tokens)
                && tokens.tokens == old(tokens.tokens)[hash := UserToken(hash, user.id, now + ttl, now)]
      ensures !upsertFails ==> forall pending :: Store(pending) == AfterExchange(old(Store(pending)), upsert, r, now)
    {
      if upsertFails {
        return Err(Internal("could not sign in"));
      }
      var user := users.UpsertByIdentity(upsert.provider, upsert.subject, upsert.email, upsert.newId, upsert.at);
      if user == None || randomFails {
        return Err(Internal("could not sign in"));
      }
      var raw := TOKEN_PREFIX_USER + random;
      if storeFails {
        return Err(Internal("could not sign in"));
      }
      var stored := tokens.Create(UserToken(HashOf(raw), user.value.id, now + ttl, now));
      if !stored {
        return Err(Internal("could not sign in"));
      }
      return Ok(ExchangeResult(user.value, raw, now + ttl));
    }

    /** The answer is the session protocol's, for a call that reads and answers at once. */
    method AuthenticateUser(raw: string, now: int, storeFails: bool, userFails: bool) returns (r: Result<User>)
      ensures storeFails ==> r == Err(Internal("could not authenticate"))
      ensures !storeFails && HashOf(raw) !in tokens.tokens ==> r == Err(Unauthorized("invalid or expired user token"))
      ensures !storeFails && HashOf(raw) in tokens.tokens ==>
                var token := tokens.tokens[HashOf(raw)];
                && (now >= token.expiresAt ==> r == Err(Unauthorized("invalid or expired user token")))
                && (now < token.expiresAt && userFails ==> r == Err(Internal("could not authenticate")))
                && (now < token.expiresAt && !userFails ==>
                      r == if token.userId in users.users then Ok(users.users[token.userId])
                           else Err(Unauthorized("invalid or expired user token")))
      ensures var found := if storeFails then ReadFailed else Find(tokens.tokens, HashOf(raw));
              r == Judge(users.users, found, now, userFails)
      ensures Out(Next(Store(map[]), Read(0, raw, storeFails)), Answer(0, now, userFails)) == [Answered(0, r)]
    {
      if storeFails {
        return Err(Internal("could not authenticate"));
      }
      var found := tokens.GetByHash(HashOf(raw));
      if found == Missing {
        return Err(Unauthorized("invalid or expired user token"));
      }
      if found.token.Expired(now) {
        return Err(Unauthorized("invalid or expired user token"));
      }
      if userFails {
        return Err(Internal("could not authenticate"));
      }
      var user := users.Get(found.token.userId);
      if user == None {
        return Err(Unauthorized("invalid or expired user token"));
      }
      return Ok(user.value);
    }

    /** A logout ends its own token and changes nobody else's outcome, at any time. */
    method RevokeUserToken(hash: TokenHash, fails: bool) returns (err: Option<Error>)
      modifies tokens
      ensures err == if fails then Some(Internal("could not log out")) else None
      ensures tokens.tokens == if fails then old(tokens.tokens) else old(tokens.tokens) - {hash}
      ensures forall pending ::
                Store(pending) == if fails then old(Store(pending)) else Next(old(Store(pending)), Logout(hash))
      ensures forall raw, at, userFails ::
                Judge(users.users, Find(tokens.tokens, HashOf(raw)), at, userFails)
                == if HashOf(raw) == hash && !fails then Err(Unauthorized("invalid or expired user token"))
                   else Judge(users.users, Find(old(tokens.tokens), HashOf(raw)), at, userFails)
    {
      if fails {
        return Some(Internal("could not log out"));
      }
      tokens.DeleteByHash(hash);
      return None;
    }
  }
}
