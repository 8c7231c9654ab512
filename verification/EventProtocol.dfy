/**
 Events under interleaved use cases. A create is a limiter call and then a save; an update
 or a delete is a read with the ownership check and then a write that names only the id.
 Anything may happen between the two halves. Assumed: event ids are drawn fresh.
 */
module EventProtocol {
  import GoTime
  import opened GoStrings
  import opened RateLimiter
  import opened LimiterBounds

  const ACTION_CREATE_EVENT := "event.create"

  datatype Event = Event(id: string, userId: string, name: string, description: string, createdAt: int, updatedAt: int)
  {
    predicate Valid() { TrimSpace(name) != "" }
  }

  type Table = map<string, Event>

  type CallId = nat

  /** Call number `index` of the limiter's history, answered true for `userId`. */
  datatype Admission = Admission(userId: string, index: nat)

  /** An update or delete that has passed its ownership check on `snapshot`. */
  datatype Edit = Edit(actor: string, snapshot: Event)

  datatype State = State(limits: Limits, history: seq<Call>, events: Table, used: set<string>,
                         admitted: map<CallId, Admission>, edits: map<CallId, Edit>, ledger: map<string, Admission>)

  datatype Step =
    | OtherCall(call: Call)
    | Admit(c: CallId, userId: string, call: Call)
    | Save(c: CallId, event: Event)
    | GiveUp(c: CallId)
    | Check(c: CallId, actor: string, id: string)
    | Update(c: CallId, name: string, description: string, at: int)
    | Delete(c: CallId)

  function UserKey(userId: string): string {
    "user:" + userId
  }

  ghost predicate Enabled(s: State, e: Step) {
    match e
    case OtherCall(call) => Legal(s.limits, CountsAfter(s.limits, s.history), call)
    case Admit(c, userId, call) =>
      && c !in s.admitted && userId != ""
      && call.key == UserKey(userId) && call.action == ACTION_CREATE_EVENT
      && Legal(s.limits, CountsAfter(s.limits, s.history), call)
    case Save(c, event) =>
      c in s.admitted && event.Valid() && event.userId == s.admitted[c].userId && event.id !in s.used
    case GiveUp(c) => c in s.admitted || c in s.edits
    case Check(c, actor, id) => c !in s.edits && id in s.events && s.events[id].userId == actor
    case Update(c, name, description, at) =>
      c in s.edits && Written(s.edits[c].snapshot, name, description, at).Valid() && s.edits[c].snapshot.id in s.events
    case Delete(c) => c in s.edits && s.edits[c].snapshot.id in s.events
  }

  /** The event as the use case changes it in memory and returns it. */
  function Written(snapshot: Event, name: string, description: string, at: int): Event {
    snapshot.(name := name, description := description, updatedAt := at)
  }

  /** The UPDATE sets three columns of whatever row has the id. */
  ghost function Next(s: State, e: Step): State {
    if !Enabled(s, e) then s else
    match e
    case OtherCall(call) => s.(history := s.history + [call])
    case Admit(c, userId, call) =>
      var s' := s.(history := s.history + [call]);
      if call.allowed then s'.(admitted := s.admitted[c := Admission(userId, |s.history|)]) else s'
    case Save(c, event) =>
      s.(events := s.events[event.id := event], used := s.used + {event.id},
         admitted := s.admitted - {c}, ledger := s.ledger[event.id := s.admitted[c]])
    case GiveUp(c) => s.(admitted := s.admitted - {c}, edits := s.edits - {c})
    case Check(c, actor, id) => s.(edits := s.edits[c := Edit(actor, s.events[id])])
    case Update(c, name, description, at) =>
      var id := s.edits[c].snapshot.id;
      s.(events := s.events[id := Written(s.events[id], name, description, at)], edits := s.edits - {c})
    case Delete(c) => s.(events := s.events - {s.edits[c].snapshot.id}, edits := s.edits - {c})
  }

  ghost function Final(s: State, es: seq<Step>): State {
    if es == [] then s else Next(Final(s, es[..|es| - 1]), es[|es| - 1])
  }

  ghost predicate Initial(s: State) {
    && s.history == [] && s.admitted == map[] && s.edits == map[] && s.ledger == map[]
    && s.events.Keys <= s.used && forall id :: id in s.events ==> s.events[id].id == id
  }

  predicate SameRow(a: Event, b: Event) {
    a.id == b.id && a.userId == b.userId && a.createdAt == b.createdAt
  }

  /** A checked call's actor owned the row that it read, and if the row still exists it is that row. */
  ghost predicate EditInv(s: State) {
    && s.events.Keys <= s.used
    && (forall id :: id in s.events ==> s.events[id].id == id)
    && (forall c :: c in s.edits ==>
          var snapshot := s.edits[c].snapshot;
          && s.edits[c].actor == snapshot.userId && snapshot.id in s.used
          && (snapshot.id in s.events ==> SameRow(s.events[snapshot.id], snapshot)))
  }

  ghost predicate Earned(s: State, a: Admission) {
    && a.index < |s.history| && s.history[a.index].allowed
    && s.history[a.index].key == UserKey(a.userId) && s.history[a.index].action == ACTION_CREATE_EVENT
  }

  ghost predicate AllEarned(s: State) {
    && (forall c :: c in s.admitted ==> Earned(s, s.admitted[c]))
    && (forall id :: id in s.ledger ==> Earned(s, s.ledger[id]))
  }

  ghost predicate NoneTwice(s: State) {
    && (forall c, d :: c in s.admitted && d in s.admitted && s.admitted[c].index == s.admitted[d].index ==> c == d)
    && (forall i, j :: i in s.ledger && j in s.ledger && s.ledger[i].index == s.ledger[j].index ==> i == j)
    && (forall c, id :: c in s.admitted && id in s.ledger ==> s.admitted[c].index != s.ledger[id].index)
  }

  /** Every admission, waiting or spent on a saved event, is a true answer of its own. */
  ghost predicate LedgerInv(s: State) {
    IsRun(s.limits, s.history) && s.ledger.Keys <= s.used && AllEarned(s) && NoneTwice(s)
  }

  lemma EditInvStep(s: State, e: Step)
    requires EditInv(s)
    ensures EditInv(Next(s, e))
  {
  }

  lemma EarnedLater(s: State, call: Call, s': State)
    requires AllEarned(s) && s' == s.(history := s.history + [call])
    ensures AllEarned(s')
  {
  }

  lemma CallStep(s: State, call: Call)
    requires LedgerInv(s) && Legal(s.limits, CountsAfter(s.limits, s.history), call)
    ensures LedgerInv(s.(history := s.history + [call]))
  {
    RunMore(s.limits, s.history, call);
    EarnedLater(s, call, s.(history := s.history + [call]));
  }

  lemma EarnedAlike(s: State, s': State)
    requires s'.history == s.history
    ensures forall a :: Earned(s, a) <==> Earned(s', a)
  {
  }

  lemma NewAdmission(s: State, c: CallId, a: Admission)
    requires LedgerInv(s) && Earned(s, a)
    requires forall d :: d in s.admitted ==> s.admitted[d].index < a.index
    requires forall id :: id in s.ledger ==> s.ledger[id].index < a.index
    ensures LedgerInv(s.(admitted := s.admitted[c := a]))
  {
    var s' := s.(admitted := s.admitted[c := a]);
    EarnedAlike(s, s');
    assert AllEarned(s');
    assert NoneTwice(s');
  }

  lemma AdmitStep(s: State, e: Step)
    requires LedgerInv(s) && Enabled(s, e) && e.Admit?
    ensures LedgerInv(Next(s, e))
  {
    CallStep(s, e.call);
    if e.call.allowed {
      NewAdmission(s.(history := s.history + [e.call]), e.c, Admission(e.userId, |s.history|));
    }
  }

  lemma SpendAdmission(s: State, c: CallId, event: Event)
    requires LedgerInv(s) && c in s.admitted && event.id !in s.used
    ensures LedgerInv(s.(events := s.events[event.id := event], used := s.used + {event.id},
                         admitted := s.admitted - {c}, ledger := s.ledger[event.id := s.admitted[c]]))
  {
    var s' := s.(events := s.events[event.id := event], used := s.used + {event.id},
                 admitted := s.admitted - {c}, ledger := s.ledger[event.id := s.admitted[c]]);
    EarnedAlike(s, s');
    assert AllEarned(s');
    assert NoneTwice(s');
  }

  /** Steps that leave limiter and ledger alone. */
  lemma OtherFieldsStep(s: State, s': State)
    requires LedgerInv(s)
    requires s'.limits == s.limits && s'.history == s.history && s'.ledger == s.ledger && s'.used == s.used
    requires s'.admitted == s.admitted || exists c :: s'.admitted == s.admitted - {c}
    ensures LedgerInv(s')
  {
    EarnedAlike(s, s');
    assert forall c :: c in s'.admitted ==> c in s.admitted && s'.admitted[c] == s.admitted[c];
  }

  lemma LedgerInvStep(s: State, e: Step)
    requires LedgerInv(s)
    ensures LedgerInv(Next(s, e))
  {
    if Enabled(s, e) {
      match e
      case OtherCall(call) => CallStep(s, call);
      case Admit(_, _, _) => AdmitStep(s, e);
      case Save(c, event) => SpendAdmission(s, c, event);
      case _ => OtherFieldsStep(s, Next(s, e));
    }
  }

  lemma LimitsStep(s: State, e: Step)
    ensures Next(s, e).limits == s.limits
  {
  }

  ghost predicate Inv(s: State) {
    EditInv(s) && LedgerInv(s)
  }

  lemma InvStep(s: State, e: Step)
    requires Inv(s)
    ensures Inv(Next(s, e)) && Next(s, e).limits == s.limits
  {
    EditInvStep(s, e);
    LedgerInvStep(s, e);
    LimitsStep(s, e);
  }

  lemma InitialInv(s: State)
    requires Initial(s)
    ensures Inv(s)
  {
  }

  lemma {:induction false} InvAlways(s: State, es: seq<Step>)
    requires Initial(s)
    ensures Inv(Final(s, es)) && Final(s, es).limits == s.limits
  {
    if es == [] {
      InitialInv(s);
    } else {
      InvAlways(s, es[..|es| - 1]);
      InvStep(Final(s, es[..|es| - 1]), es[|es| - 1]);
    }
  }

  // ----- Ownership -----

  /** The caller on whose behalf a write happens. */
  ghost function Actor(s: State, e: Step): string
    requires (e.Update? || e.Delete?) && e.c in s.edits
  {
    s.edits[e.c].actor
  }

  lemma WriterIsOwner(s: State, e: Step, id: string)
    requires EditInv(s) && id in s.events
    requires var after := Next(s, e).events; id !in after || after[id] != s.events[id]
    ensures (e.Update? || e.Delete?) && e.c in s.edits && Actor(s, e) == s.events[id].userId
  {
  }

  /** However long ago the check was, a step that changes or removes a row is a write by the row's owner. */
  lemma OnlyTheOwnerWrites(s: State, es: seq<Step>, e: Step, id: string)
    requires Initial(s)
    requires id in Final(s, es).events
    requires var after := Next(Final(s, es), e).events; id !in after || after[id] != Final(s, es).events[id]
    ensures var before := Final(s, es);
            (e.Update? || e.Delete?) && e.c in before.edits && Actor(before, e) == before.events[id].userId
  {
    InvAlways(s, es);
    WriterIsOwner(Final(s, es), e, id);
  }

  /** What an update returns, built from its old read, is the row it has just stored. */
  lemma UpdateReturnsTheRow(s: State, es: seq<Step>, e: Step)
    requires Initial(s) && e.Update? && Enabled(Final(s, es), e)
    ensures var before := Final(s, es);
            var snapshot := before.edits[e.c].snapshot;
            var row := Next(before, e).events[snapshot.id];
            && row == Written(snapshot, e.name, e.description, e.at)
            && row == Event(snapshot.id, snapshot.userId, e.name, e.description, snapshot.createdAt, e.at)
  {
    InvAlways(s, es);
  }

  /** A checked call's write takes effect exactly if its row is still there, a delete on any such row
      and an update with any name that is not all space; and an admitted call's save exactly on
      an unused id. Nothing else stands in the way. */
  lemma WritesTakeEffect(s: State, c: CallId, row: Event, name: string, description: string, at: int)
    requires EditInv(s)
    ensures c in s.edits ==>
              var before := s.edits[c].snapshot;
              && Next(s, Step.Delete(c)).events == s.events - {before.id}
              && (!AllSpace(name) && before.id in s.events ==>
                    var after := Event(before.id, before.userId, name, description, before.createdAt, at);
                    Next(s, Step.Update(c, name, description, at)).events == s.events[before.id := after])
    ensures c in s.admitted && !AllSpace(row.name) && row.userId == s.admitted[c].userId && row.id !in s.used ==>
              Next(s, Save(c, row)).events == s.events[row.id := row]
    ensures c !in s.edits && row.id in s.events && s.events[row.id] == row ==>
              Next(s, Check(c, row.userId, row.id)).edits == s.edits[c := Edit(row.userId, row)]
  {
    TrimSpaceBlank(name);
    TrimSpaceBlank(row.name);
  }

  lemma RowStep(s: State, e: Step, id: string)
    requires EditInv(s) && id in s.used
    ensures id in Next(s, e).used
    ensures id in Next(s, e).events ==> id in s.events && SameRow(s.events[id], Next(s, e).events[id])
  {
  }

  /** Owner and creation time never change while a row exists, and a removed id stays removed. */
  lemma {:induction false} RowIdentity(s: State, es: seq<Step>, fs: seq<Step>, id: string)
    requires Initial(s) && id in Final(s, es).used
    ensures id in Final(s, es + fs).used
    ensures id in Final(s, es + fs).events ==>
              id in Final(s, es).events && SameRow(Final(s, es).events[id], Final(s, es + fs).events[id])
  {
    if fs == [] {
      assert es + fs == es;
    } else {
      var p := es + fs[..|fs| - 1];
      assert (es + fs)[..|es + fs| - 1] == p;
      RowIdentity(s, es, fs[..|fs| - 1], id);
      InvAlways(s, p);
      RowStep(Final(s, p), fs[|fs| - 1], id);
    }
  }

  // ----- Quota -----

  /** The events that `userId` has saved on answers of bucket `b`. */
  ghost function SavedIn(s: State, userId: string, b: BucketKey): set<string>
    requires LedgerInv(s)
  {
    set id | id in s.ledger && s.ledger[id].userId == userId && Hits(s.limits, s.history[s.ledger[id].index], b)
  }

  ghost function AdmittedCalls(limits: Limits, h: seq<Call>, b: BucketKey): set<nat> {
    set i: nat | i < |h| && Hits(limits, h[i], b) && h[i].allowed
  }

  lemma {:induction false} AdmittedIsCount(limits: Limits, h: seq<Call>, b: BucketKey)
    ensures |AdmittedCalls(limits, h, b)| == Admitted(limits, h, b)
  {
    if h != [] {
      var p, c := h[..|h| - 1], h[|h| - 1];
      AdmittedIsCount(limits, p, b);
      var last: nat := |p|;
      assert AdmittedCalls(limits, h, b) ==
             AdmittedCalls(limits, p, b) + if Hits(limits, c, b) && c.allowed then {last} else {};
    }
  }

  lemma {:induction false} DistinctImages(ids: set<string>, image: map<string, nat>, target: set<nat>)
    requires ids <= image.Keys && forall id :: id in ids ==> image[id] in target
    requires forall i, j :: i in ids && j in ids && image[i] == image[j] ==> i == j
    ensures |ids| <= |target|
    decreases |ids|
  {
    if ids != {} {
      var id :| id in ids;
      DistinctImages(ids - {id}, image, target - {image[id]});
      assert |ids - {id}| == |ids| - 1 && |target - {image[id]}| == |target| - 1;
    }
  }

  lemma SavedAtMostAdmitted(s: State, userId: string, b: BucketKey)
    requires LedgerInv(s)
    ensures |SavedIn(s, userId, b)| <= Admitted(s.limits, s.history, b)
  {
    var ids := SavedIn(s, userId, b);
    var image := map id | id in s.ledger :: s.ledger[id].index;
    forall id | id in ids ensures image[id] in AdmittedCalls(s.limits, s.history, b) {
      assert Earned(s, s.ledger[id]);
    }
    DistinctImages(ids, image, AdmittedCalls(s.limits, s.history, b));
    AdmittedIsCount(s.limits, s.history, b);
  }

  lemma QuotaNow(s: State, userId: string, b: BucketKey)
    requires LedgerInv(s) && Monotone(s.history)
    requires b.action in s.limits && GoTime.WholeSeconds(s.limits[b.action].window)
    ensures |SavedIn(s, userId, b)| <= AdmissionLimit(s.limits, s.history, b)
  {
    SavedAtMostAdmitted(s, userId, b);
    AdmissionBound(s.limits, s.history, b);
  }

  /** Event creation is limited, in windows of whole seconds. */
  predicate CreatesLimited(limits: Limits) {
    "event.create" in limits && GoTime.WholeSeconds(limits["event.create"].window)
  }

  /** The events that `userId` has saved on answers given in the window of `t`. */
  ghost function SavedInWindow(s: State, userId: string, t: int): set<string>
    requires LedgerInv(s) && CreatesLimited(s.limits)
  {
    var w := s.limits["event.create"].window;
    set id | id in s.ledger && s.ledger[id].userId == userId
             && t / w * w <= s.history[s.ledger[id].index].now < t / w * w + w
  }

  /** The limit on creates, once more for each eviction of the user's own bucket. */
  function CreateQuota(limits: Limits, h: seq<Call>, userId: string, t: int): nat
    requires CreatesLimited(limits)
  {
    Cap(limits["event.create"].max) * (1 + Evictions(h, BucketAt(limits, "user:" + userId, "event.create", t)))
  }

  /** The user's own bucket at `t` gave the answers of its window. */
  lemma WindowIsBucket(s: State, userId: string, t: int)
    requires LedgerInv(s) && CreatesLimited(s.limits)
    ensures SavedInWindow(s, userId, t) == SavedIn(s, userId, BucketAt(s.limits, "user:" + userId, "event.create", t))
  {
    forall id | id in s.ledger && s.ledger[id].userId == userId
      ensures var w, c := s.limits["event.create"].window, s.history[s.ledger[id].index];
              Hits(s.limits, c, BucketAt(s.limits, "user:" + userId, "event.create", t))
              <==> t / w * w <= c.now < t / w * w + w
    {
      assert Earned(s, s.ledger[id]);
      HitsIff(s.limits, s.history[s.ledger[id].index], "user:" + userId, "event.create", t);
    }
  }

  lemma WindowQuota(s: State, userId: string, t: int)
    requires LedgerInv(s) && Monotone(s.history) && CreatesLimited(s.limits)
    ensures |SavedInWindow(s, userId, t)| <= CreateQuota(s.limits, s.history, userId, t)
  {
    WindowIsBucket(s, userId, t);
    QuotaNow(s, userId, BucketAt(s.limits, "user:" + userId, "event.create", t));
  }

  /** However the calls of the service and of everyone else on the limiter interleave, the events
      that a user saves on the answers of one window number at most the limit, once more for
      each time the user's bucket was evicted. */
  lemma EventQuota(s: State, es: seq<Step>, userId: string, t: int)
    requires Initial(s) && Monotone(Final(s, es).history) && CreatesLimited(s.limits)
    ensures LedgerInv(Final(s, es)) && Final(s, es).limits == s.limits
    ensures |SavedInWindow(Final(s, es), userId, t)| <= CreateQuota(s.limits, Final(s, es).history, userId, t)
  {
    InvAlways(s, es);
    WindowQuota(Final(s, es), userId, t);
  }

  lemma LedgeredStep(s: State, e: Step, id: string)
    requires Inv(s) && id in Next(s, e).events
    requires id in s.events ==> id in s.ledger && s.ledger[id].userId == s.events[id].userId
    ensures id in Next(s, e).ledger && Next(s, e).ledger[id].userId == Next(s, e).events[id].userId
  {
  }

  /** Nothing gets past the ledger: a row that was not there at the start was saved on its owner's admission. */
  lemma {:induction false} RowsAreLedgered(s: State, es: seq<Step>, id: string)
    requires Initial(s) && id in Final(s, es).events && id !in s.events
    ensures id in Final(s, es).ledger && Final(s, es).ledger[id].userId == Final(s, es).events[id].userId
  {
    if es != [] {
      var p := es[..|es| - 1];
      InvAlways(s, p);
      if id in Final(s, p).events {
        RowsAreLedgered(s, p, id);
      }
      LedgeredStep(Final(s, p), es[|es| - 1], id);
    }
  }
}
