/** The event use cases, one call at a time. An update or delete meets, between its read and
    its write, whatever table the other calls have left. */
module EventService {
  import opened AppErr
  import opened EventProtocol
  import opened GoStrings
  import opened RateLimiter

  /** What others can do to a table: rows come and go, but one that stays keeps its owner and birth. */
  predicate Evolved(before: Table, after: Table) {
    forall id :: id in before && id in after ==> SameRow(before[id], after[id])
  }

  /** Every run of the protocol only evolves the table. */
  lemma RunsEvolve(s: State, es: seq<Step>, fs: seq<Step>)
    requires Initial(s)
    ensures Evolved(Final(s, es).events, Final(s, es + fs).events)
  {
    forall id | id in Final(s, es).events && id in Final(s, es + fs).events
      ensures SameRow(Final(s, es).events[id], Final(s, es + fs).events[id])
    {
      InvAlways(s, es);
      RowIdentity(s, es, fs, id);
    }
  }

  class EventService {
    const limiter: RateLimiter
    var events: Table

    ghost predicate Valid()
      reads this, limiter
    {
      limiter.Valid() && forall id :: id in events ==> events[id].id == id
    }

    constructor (limiter: RateLimiter)
      requires limiter.Valid()
      ensures Valid() && this.limiter == limiter && events == map[]
    {
      this.limiter := limiter;
      events := map[];
    }

    /** Every call with a user takes exactly one answer from the limiter, a rejected name included,
        and nothing is saved without a true one. A taken id breaks the primary key. */
    method Create(userId: string, name: string, description: string,
                  newId: string, asked: int, now: int, saveFails: bool)
      returns (r: Result<Event>)
      requires Valid()
      modifies this, limiter
      ensures Valid()
      ensures userId == "" ==> r == Err(Invalid("user is required")) && limiter.history == old(limiter.history)
      ensures userId != "" ==>
                var n := |old(limiter.history)|;
                && |limiter.history| == n + 1 && limiter.history[..n] == old(limiter.history)
                && var call := limiter.history[n];
                   && call.key == "user:" + userId && call.action == "event.create" && call.now == asked
                   && (r.Ok? ==> call.allowed)
                   && (r == Err(TooMany("event creation limit reached, try again later")) <==> !call.allowed)
                   && (r == Err(Invalid("event name is required")) <==> call.allowed && AllSpace(name))
                   && (call.allowed && !AllSpace(name) ==>
                         r == if saveFails || newId in old(events) then Err(Internal("could not create event"))
                              else Ok(Event(newId, userId, name, description, now, now)))
      ensures r.Ok? ==> r.value == Event(newId, userId, name, description, now, now) && !AllSpace(name)
      ensures r.Ok? ==> newId !in old(events) && events == old(events)[newId := r.value]
      ensures r.Err? ==> events == old(events)
    {
      if userId == "" {
        return Err(Invalid("user is required"));
      }
      var allowed := limiter.Allow(UserKey(userId), ACTION_CREATE_EVENT, asked);
      if !allowed {
        return Err(TooMany("event creation limit reached, try again later"));
      }
      var event := Event(newId, userId, name, description, now, now);
      TrimSpaceBlank(name);
      if !event.Valid() {
        return Err(Invalid("event name is required"));
      }
      if saveFails || newId in events {
        return Err(Internal("could not create event"));
      }
      events := events[newId := event];
      return Ok(event);
    }

    /** Success returns the row now stored, which is the caller's. Losing the race against a delete
        is an internal error, not a missing event: the repository's sentinel is wrapped. */
    method Update(userId: string, id: string, name: string, description: string, now: int, gap: Table,
                  getFails: bool, updateFails: bool)
      returns (r: Result<Event>)
      requires Valid()
      requires Evolved(events, gap) && forall i :: i in gap ==> gap[i].id == i
      modifies this
      ensures Valid()
      ensures r.Ok? ==>
                && id in old(events) && id in gap && events == gap[id := r.value]
                && r.value == Event(id, userId, name, description, old(events)[id].createdAt, now)
      ensures getFails ==> r == Err(Internal("could not update event"))
      ensures r == Err(NotFound("event not found")) <==> !getFails && id !in old(events)
      ensures r == Err(Forbidden("event does not belong to you")) <==>
              !getFails && id in old(events) && old(events)[id].userId != userId
      ensures !getFails && id in old(events) && old(events)[id].userId == userId ==>
                if AllSpace(name) then
                  r == Err(Invalid("event name is required"))
                else
                  && (updateFails || id !in gap <==> r == Err(Internal("could not update event")))
                  && (r.Ok? <==> !updateFails && id in gap)
      ensures r.Err? ==>
                events == if !getFails && r == Err(Internal("could not update event")) then gap else old(events)
    {
      if getFails {
        return Err(Internal("could not update event"));
      }
      if id !in events {
        return Err(NotFound("event not found"));
      }
      var event := events[id];
      if event.userId != userId {
        return Err(Forbidden("event does not belong to you"));
      }
      event := Written(event, name, description, now);
      TrimSpaceBlank(name);
      if !event.Valid() {
        return Err(Invalid("event name is required"));
      }
      events := gap;
      if updateFails || id !in events {
        return Err(Internal("could not update event"));
      }
      events := events[id := Written(events[id], name, description, now)];
      return Ok(event);
    }

    method Delete(userId: string, id: string, gap: Table, getFails: bool, deleteFails: bool)
      returns (err: Option<Error>)
      requires Valid()
      requires Evolved(events, gap) && forall i :: i in gap ==> gap[i].id == i
      modifies this
      ensures Valid()
      ensures err == None ==> id in old(events) && id in gap && gap[id].userId == userId && events == gap - {id}
      ensures getFails ==> err == Some(Internal("could not delete event"))
      ensures err == Some(NotFound("event not found")) <==> !getFails && id !in old(events)
      ensures err == Some(Forbidden("event does not belong to you"))
              <==> !getFails && id in old(events) && old(events)[id].userId != userId
      ensures err.Some? ==>
                events == if !getFails && err == Some(Internal("could not delete event")) then gap else old(events)
      ensures !getFails && id in old(events) && old(events)[id].userId == userId ==>
                err == if deleteFails || id !in gap then Some(Internal("could not delete event")) else None
    {
      if getFails {
        return Some(Internal("could not delete event"));
      }
      if id !in events {
        return Some(NotFound("event not found"));
      }
      if events[id].userId != userId {
        return Some(Forbidden("event does not belong to you"));
      }
      events := gap;
      if deleteFails || id !in events {
        return Some(Internal("could not delete event"));
      }
      events := events - {id};
      return None;
    }
  }

  const RACED := Event("e", "u", "standup", "", 1, 1)

  /** Two calls check the same row, and then a delete wins: the other call holds a checked row
      that is gone, so its write changes nothing. */
  lemma DeleteWins() returns (s: State, es: seq<Step>)
    ensures Initial(s) && s.events == map["e" := RACED]
    ensures var after := Final(s, es);
            && after.edits == map[1 := Edit("u", RACED)] && after.events == map[]
            && !Enabled(after, Update(1, "retro", "", 2)) && !Enabled(after, Step.Delete(1))
  {
    s := State(map[], [], map["e" := RACED], {"e"}, map[], map[], map[]);
    es := [Check(1, "u", "e"), Check(2, "u", "e"), Step.Delete(2)];
    assert es[..2][..1] == [Check(1, "u", "e")] && es[..2] == [Check(1, "u", "e"), Check(2, "u", "e")];
    assert es[..1][..0] == [];
    var s1 := Next(s, es[0]);
    assert Final(s, es[..1]) == s1;
    var s2 := Next(s1, es[1]);
    assert Final(s, es[..2]) == s2;
    assert s2.edits == map[1 := Edit("u", RACED), 2 := Edit("u", RACED)];
    assert Final(s, es) == Next(s2, es[2]);
  }

  /** The losers of that race, an update and a delete by the row's owner with no failing
      statement, are both told of an internal error. */
  method LostRace(limiter: RateLimiter) returns (updated: Result<Event>, deleted: Option<Error>)
    requires limiter.Valid()
    ensures updated == Err(Internal("could not update event"))
    ensures deleted == Some(Internal("could not delete event"))
  {
    ghost var s, es := DeleteWins();
    var service := new EventService(limiter);
    service.events := map["e" := RACED];
    assert !IsSpace("retro"[0]);
    assert service.events == s.events && Final(s, es).events == map[];
    updated := service.Update("u", "e", "retro", "", 2, map[], false, false);
    service.events := map["e" := RACED];
    deleted := service.Delete("u", "e", map[], false, false);
  }
}
