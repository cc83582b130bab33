/** What every schedule of the audit writers keeps. */
module AuditChainSafety {
  import opened Bytes
  import opened JsStrings
  import opened ChainRows
  import opened AuditChain

  ghost predicate DistinctIds(rows: seq<Row>) {
    forall i, j :: 0 <= i < j < |rows| ==> rows[i].event.id != rows[j].event.id
  }

  ghost predicate AllStored(rows: seq<Row>, events: Events) {
    forall i :: 0 <= i < |rows| ==> HasEvent(events, rows[i].event)
  }

  /** A chain that is sound from its first row, without repeated events, over stored events. */
  ghost predicate Good(ctx: Setting, tenant: JsString, rows: seq<Row>, events: Events) {
    WellFormedChain(ctx.h, tenant, rows) && DistinctIds(rows) && AllStored(rows, events)
  }

  ghost predicate FreshId(rows: seq<Row>, id: JsString) {
    forall i :: 0 <= i < |rows| ==> rows[i].event.id != id
  }

  /** Holding the tenant's lock on behalf of one of its stored events. */
  ghost predicate Entered(ctx: Setting, events: Events, b: Session, event: AuditEvent, tenant: JsString) {
    ctx.lockOf(tenant) in Held(b) && event.tenantId == Some(tenant) && HasEvent(events + b.events, event)
  }

  ghost predicate PhaseOk(ctx: Setting, committed: Chains, events: Events, b: Session) {
    match b.phase
    case Idle => b.inner == {}
    case Appending(event) => b.inner == {} && HasEvent(events + b.events, event)
    case Enrolled(event, tenant) => b.inner == {} && event.tenantId == Some(tenant) && HasEvent(events + b.events, event)
    case Locked(event, tenant) => Entered(ctx, events, b, event, tenant)
    case Planned(event, tenant, prevHash, sequenceNum) =>
      && Entered(ctx, events, b, event, tenant)
      && prevHash == LastHash(Visible(committed, b, tenant))
      && sequenceNum == |Visible(committed, b, tenant)| + 1
    case Written(event, tenant, row) =>
      && Entered(ctx, events, b, event, tenant)
      && row.event == event
      && Follows(ctx.h, tenant, Visible(committed, b, tenant), row)
      && FreshId(Visible(committed, b, tenant), event.id)
  }

  ghost predicate SessionOk(ctx: Setting, committed: Chains, events: Events, b: Session) {
    && (!b.outer ==> b.pending == map[] && b.locks == {} && b.events == map[])
    && b.events.Keys !! events.Keys
    && (forall t :: Rows(b.pending, t) != [] ==> ctx.lockOf(t) in b.locks)
    && (forall t :: Good(ctx, t, Visible(committed, b, t), events + b.events))
    && PhaseOk(ctx, committed, events, b)
  }

  /** No lock is held twice and no event id is inserted twice. */
  ghost predicate Apart(a: Session, b: Session) {
    Held(a) !! Held(b) && a.events.Keys !! b.events.Keys
  }

  ghost predicate Inv(ctx: Setting, s: State) {
    && (forall t :: Good(ctx, t, Rows(s.committed, t), s.events))
    && (forall who: SessionId :: SessionOk(ctx, s.committed, s.events, Of(s, who)))
    && (forall a: SessionId, b: SessionId :: a != b ==> Apart(Of(s, a), Of(s, b)))
  }

  lemma EmptyIsSafe(ctx: Setting)
    ensures Inv(ctx, EMPTY)
  {
  }

  // What the invariant gives, one piece at a time.

  lemma SessionFacts(ctx: Setting, s: State, who: SessionId)
    requires Inv(ctx, s)
    ensures SessionOk(ctx, s.committed, s.events, Of(s, who))
  {
    hide Good, SessionOk, Apart, Of, Rows;
  }

  lemma ApartFacts(ctx: Setting, s: State, a: SessionId, b: SessionId)
    requires Inv(ctx, s) && a != b
    ensures Apart(Of(s, a), Of(s, b))
  {
    hide Good, SessionOk, Apart, Of, Rows;
  }

  lemma CommittedFacts(ctx: Setting, s: State, t: JsString)
    requires Inv(ctx, s)
    ensures Good(ctx, t, Rows(s.committed, t), s.events)
  {
    hide Good, SessionOk, Apart, Of, Rows;
  }

  lemma VisibleFacts(ctx: Setting, s: State, who: SessionId, t: JsString)
    requires Inv(ctx, s)
    ensures Good(ctx, t, Visible(s.committed, Of(s, who), t), s.events + Of(s, who).events)
  {
    hide Inv, Good, PhaseOk, Of, Rows, Visible;
    SessionFacts(ctx, s, who);
  }

  lemma PhaseFacts(ctx: Setting, s: State, who: SessionId)
    requires Inv(ctx, s)
    ensures PhaseOk(ctx, s.committed, s.events, Of(s, who))
  {
    hide Inv, Good, PhaseOk, Of, Rows, Visible;
    SessionFacts(ctx, s, who);
  }

  lemma EventsApart(ctx: Setting, s: State, who: SessionId)
    requires Inv(ctx, s)
    ensures Of(s, who).events.Keys !! s.events.Keys
  {
    hide Inv, Good, PhaseOk, Of, Rows, Visible;
    SessionFacts(ctx, s, who);
  }

  /** Without a transaction of its own a session keeps nothing back. */
  lemma OuterFacts(ctx: Setting, s: State, who: SessionId)
    requires Inv(ctx, s) && !Of(s, who).outer
    ensures var x := Of(s, who); x.pending == map[] && x.locks == {} && x.events == map[]
  {
    hide Inv, Good, PhaseOk, Of, Rows, Visible;
    SessionFacts(ctx, s, who);
  }

  lemma PendingFacts(ctx: Setting, s: State, who: SessionId, t: JsString)
    requires Inv(ctx, s) && Rows(Of(s, who).pending, t) != []
    ensures ctx.lockOf(t) in Of(s, who).locks
  {
    hide Inv, Good, PhaseOk, Of, Rows, Visible;
    SessionFacts(ctx, s, who);
  }

  // Small facts.

  lemma {:induction false} LatestIsTheLast(h: HashFn, tenant: JsString, rows: seq<Row>)
    requires WellFormedChain(h, tenant, rows) && rows != []
    ensures Latest(rows) == Some(rows[|rows| - 1])
    decreases |rows|
  {
    hide WellFormedChain;
    FrontAndLast(h, tenant, rows);
    var front := rows[..|rows| - 1];
    if front != [] {
      LatestIsTheLast(h, tenant, front);
      FrontAndLast(h, tenant, front);
    }
  }

  lemma LatestIsLast(h: HashFn, tenant: JsString, rows: seq<Row>)
    requires WellFormedChain(h, tenant, rows)
    ensures NextSequence(rows) == |rows| + 1 && PreviousHash(rows) == LastHash(rows)
  {
    hide WellFormedChain, Genesis;
    if rows != [] {
      hide Latest;
      LatestIsTheLast(h, tenant, rows);
      FrontAndLast(h, tenant, rows);
    }
  }

  lemma GoodExtends(ctx: Setting, tenant: JsString, rows: seq<Row>, row: Row, events: Events)
    requires Good(ctx, tenant, rows, events) && Follows(ctx.h, tenant, rows, row)
    requires FreshId(rows, row.event.id) && HasEvent(events, row.event)
    ensures Good(ctx, tenant, rows + [row], events)
  {
    hide WellFormedChain, Follows;
    ChainAppend(ctx.h, tenant, rows, row);
  }

  lemma GoodGrows(ctx: Setting, tenant: JsString, rows: seq<Row>, events: Events, events': Events)
    requires Good(ctx, tenant, rows, events) && Extends(events, events')
    ensures Good(ctx, tenant, rows, events')
  {
    hide WellFormedChain;
  }

  ghost predicate Extends(events: Events, events': Events) {
    forall id :: id in events ==> id in events' && events'[id] == events[id]
  }

  /** Committed rows change only under a lock of `x`, and committed events only grow. */
  ghost predicate ChangedUnder(ctx: Setting, x: Session, s: State, committed: Chains, events: Events) {
    && (forall t :: Rows(committed, t) != Rows(s.committed, t) ==> ctx.lockOf(t) in Held(x))
    && Extends(s.events, events)
    && (forall t :: Good(ctx, t, Rows(committed, t), events))
  }

  lemma BystanderSees(ctx: Setting, x: Session, s: State, committed: Chains, events: Events, b: Session, t: JsString)
    requires ctx.lockOf(t) in Held(b) && Held(x) !! Held(b) && ChangedUnder(ctx, x, s, committed, events)
    ensures Visible(committed, b, t) == Visible(s.committed, b, t)
  {
    hide Good;
    assert Rows(committed, t) == Rows(s.committed, t);
  }

  lemma EventKept(s: State, events: Events, b: Session, event: AuditEvent)
    requires Extends(s.events, events) && b.events.Keys !! events.Keys && HasEvent(s.events + b.events, event)
    ensures HasEvent(events + b.events, event)
  {
  }

  lemma BystanderPhase(ctx: Setting, x: Session, s: State, committed: Chains, events: Events, b: Session)
    requires PhaseOk(ctx, s.committed, s.events, b) && Held(x) !! Held(b)
    requires ChangedUnder(ctx, x, s, committed, events) && b.events.Keys !! events.Keys
    ensures PhaseOk(ctx, committed, events, b)
  {
    assert Extends(s.events, events) by { hide Good; }
    hide ChangedUnder, Visible, Held, HasEvent, Extends, Follows, LastHash, FreshId;
    match b.phase
    case Idle =>
    case Appending(event) => EventKept(s, events, b, event);
    case Enrolled(event, _) => EventKept(s, events, b, event);
    case Locked(event, _) => EventKept(s, events, b, event);
    case Planned(event, tenant, _, _) =>
      EventKept(s, events, b, event);
      BystanderSees(ctx, x, s, committed, events, b, tenant);
    case Written(event, tenant, _) =>
      EventKept(s, events, b, event);
      BystanderSees(ctx, x, s, committed, events, b, tenant);
  }

  lemma BystanderChain(ctx: Setting, x: Session, s: State, committed: Chains, events: Events, b: Session, t: JsString)
    requires SessionOk(ctx, s.committed, s.events, b) && Held(x) !! Held(b)
    requires ChangedUnder(ctx, x, s, committed, events) && b.events.Keys !! events.Keys
    ensures Good(ctx, t, Visible(committed, b, t), events + b.events)
  {
    hide Good, PhaseOk;
    assert Extends(s.events + b.events, events + b.events);
    if Rows(b.pending, t) == [] {
      assert Visible(committed, b, t) == Rows(committed, t);
      assert Extends(events, events + b.events);
      GoodGrows(ctx, t, Rows(committed, t), events, events + b.events);
    } else {
      assert ctx.lockOf(t) in Held(b);
      assert Rows(committed, t) == Rows(s.committed, t);
      assert Good(ctx, t, Visible(s.committed, b, t), s.events + b.events);
      GoodGrows(ctx, t, Visible(s.committed, b, t), s.events + b.events, events + b.events);
    }
  }

  /** A session that shares no lock with the one that acts is not affected. */
  lemma BystanderOk(ctx: Setting, x: Session, s: State, committed: Chains, events: Events, b: Session)
    requires SessionOk(ctx, s.committed, s.events, b) && Held(x) !! Held(b)
    requires ChangedUnder(ctx, x, s, committed, events) && b.events.Keys !! events.Keys
    ensures SessionOk(ctx, committed, events, b)
  {
    hide Good, PhaseOk, ChangedUnder;
    BystanderPhase(ctx, x, s, committed, events, b);
    forall t ensures Good(ctx, t, Visible(committed, b, t), events + b.events) {
      BystanderChain(ctx, x, s, committed, events, b, t);
    }
  }

  ghost predicate ApartFromOthers(s: State, who: SessionId, y: Session, events: Events) {
    forall other: SessionId :: other != who ==> Apart(y, Of(s, other)) && Of(s, other).events.Keys !! events.Keys
  }

  /** One session's step is safe when the session it leaves behind is. */
  lemma SessionStep(ctx: Setting, s: State, who: SessionId, y: Session, committed: Chains, events: Events)
    requires Inv(ctx, s) && ChangedUnder(ctx, Of(s, who), s, committed, events)
    requires SessionOk(ctx, committed, events, y) && ApartFromOthers(s, who, y, events)
    ensures Inv(ctx, With(s.(committed := committed, events := events), who, y))
  {
    hide SessionOk, Good;
    var s' := With(s.(committed := committed, events := events), who, y);
    forall b: SessionId ensures SessionOk(ctx, committed, events, Of(s', b)) {
      if b != who {
        assert Of(s', b) == Of(s, b);
        ApartFacts(ctx, s, who, b);
        SessionFacts(ctx, s, b);
        BystanderOk(ctx, Of(s, who), s, committed, events, Of(s, b));
      }
    }
    forall a: SessionId, b: SessionId | a != b ensures Apart(Of(s', a), Of(s', b)) {
      ApartFacts(ctx, s, a, b);
    }
  }

  /** A step that moves neither tables nor locks. */
  lemma QuietStep(ctx: Setting, s: State, who: SessionId, y: Session)
    requires Inv(ctx, s) && SessionOk(ctx, s.committed, s.events, y)
    requires Held(y) <= Held(Of(s, who)) && y.events.Keys <= Of(s, who).events.Keys
    ensures Inv(ctx, With(s, who, y))
  {
    hide Inv, SessionOk, Good, Of, ChangedUnder;
    NothingChanges(ctx, s, who);
    forall other: SessionId | other != who
      ensures Apart(y, Of(s, other)) && Of(s, other).events.Keys !! s.events.Keys
    {
      ApartFacts(ctx, s, who, other);
      EventsApart(ctx, s, other);
    }
    SessionStep(ctx, s, who, y, s.committed, s.events);
    assert s.(committed := s.committed, events := s.events) == s;
  }

  lemma FreshOk(ctx: Setting, committed: Chains, events: Events)
    requires forall t :: Good(ctx, t, Rows(committed, t), events)
    ensures SessionOk(ctx, committed, events, FRESH)
  {
    hide Good;
    forall t ensures Good(ctx, t, Visible(committed, FRESH, t), events + FRESH.events) {
      assert Visible(committed, FRESH, t) == Rows(committed, t);
      assert events + FRESH.events == events;
    }
  }

  /** A step after which the session holds nothing. */
  lemma EndStep(ctx: Setting, s: State, who: SessionId, committed: Chains, events: Events)
    requires Inv(ctx, s) && ChangedUnder(ctx, Of(s, who), s, committed, events)
    requires events.Keys <= s.events.Keys + Of(s, who).events.Keys
    ensures Inv(ctx, With(s.(committed := committed, events := events), who, FRESH))
  {
    hide Inv, Good, SessionOk, Of;
    FreshOk(ctx, committed, events);
    forall other: SessionId | other != who
      ensures Apart(FRESH, Of(s, other)) && Of(s, other).events.Keys !! events.Keys
    {
      ApartFacts(ctx, s, who, other);
      EventsApart(ctx, s, other);
    }
    SessionStep(ctx, s, who, FRESH, committed, events);
  }

  /** Same tables and locks, another phase. */
  lemma PhaseStep(ctx: Setting, s: State, who: SessionId, inner: set<LockId>, phase: Phase)
    requires Inv(ctx, s) && inner <= Of(s, who).inner
    requires PhaseOk(ctx, s.committed, s.events, Of(s, who).(inner := inner, phase := phase))
    ensures Inv(ctx, With(s, who, Of(s, who).(inner := inner, phase := phase)))
  {
    hide Inv, Good, PhaseOk, Of;
    var x := Of(s, who);
    var y := x.(inner := inner, phase := phase);
    SessionFacts(ctx, s, who);
    forall t ensures Good(ctx, t, Visible(s.committed, y, t), s.events + y.events) {
      assert Visible(s.committed, y, t) == Visible(s.committed, x, t);
    }
    QuietStep(ctx, s, who, y);
  }

  /** A session whose tables did not shrink and whose phase is in order. */
  lemma GrownSessionOk(ctx: Setting, s: State, who: SessionId, events: Events, y: Session)
    requires Inv(ctx, s)
    requires var x := Of(s, who); y.outer == x.outer && y.pending == x.pending && y.locks == x.locks
    requires Extends(s.events + Of(s, who).events, events + y.events) && y.events.Keys !! events.Keys
    requires (!y.outer ==> y.events == map[]) && PhaseOk(ctx, s.committed, events, y)
    ensures SessionOk(ctx, s.committed, events, y)
  {
    hide Inv, Good, PhaseOk, Extends, Of;
    var x := Of(s, who);
    SessionFacts(ctx, s, who);
    forall t ensures Good(ctx, t, Visible(s.committed, y, t), events + y.events) {
      assert Visible(s.committed, y, t) == Visible(s.committed, x, t);
      GoodGrows(ctx, t, Visible(s.committed, x, t), s.events + x.events, events + y.events);
    }
  }

  lemma InsertEventKeeps(ctx: Setting, s: State, who: SessionId, event: AuditEvent)
    requires Inv(ctx, s) && Of(s, who).phase.Idle? && !IdTaken(s, event.id)
    ensures Inv(ctx, InsertEventStep(s, who, Of(s, who), event))
  {
    hide Inv, Of, IdTaken, InsertEventStep;
    if Of(s, who).outer { InsertInsideKeeps(ctx, s, who, event); } else { InsertAloneKeeps(ctx, s, who, event); }
  }

  lemma InsertedIsOk(ctx: Setting, s: State, who: SessionId, event: AuditEvent)
    requires Inv(ctx, s) && Of(s, who).phase.Idle? && !IdTaken(s, event.id) && Of(s, who).outer
    ensures var x := Of(s, who);
            SessionOk(ctx, s.committed, s.events, x.(events := x.events[event.id := event], phase := Appending(event)))
  {
    hide Good, SessionOk, Inv;
    var x := Of(s, who);
    var y := x.(events := x.events[event.id := event], phase := Appending(event));
    EventsApart(ctx, s, who);
    PhaseFacts(ctx, s, who);
    assert x.events.Keys !! s.events.Keys && event.id !in s.events && event.id !in x.events;
    GrownSessionOk(ctx, s, who, s.events, y);
  }

  lemma InsertedIsApart(ctx: Setting, s: State, who: SessionId, event: AuditEvent)
    requires Inv(ctx, s) && !IdTaken(s, event.id)
    ensures var x := Of(s, who);
            ApartFromOthers(s, who, x.(events := x.events[event.id := event], phase := Appending(event)), s.events)
  {
    hide Inv, Good, SessionOk;
    forall other: SessionId | other != who
      ensures Apart(Of(s, who), Of(s, other)) && Of(s, other).events.Keys !! s.events.Keys
      ensures event.id !in Of(s, other).events
    {
      ApartFacts(ctx, s, who, other);
      EventsApart(ctx, s, other);
    }
  }

  lemma InsertInsideKeeps(ctx: Setting, s: State, who: SessionId, event: AuditEvent)
    requires Inv(ctx, s) && Of(s, who).phase.Idle? && !IdTaken(s, event.id) && Of(s, who).outer
    ensures Inv(ctx, InsertEventStep(s, who, Of(s, who), event))
  {
    hide Inv, SessionOk, ApartFromOthers, ChangedUnder, IdTaken;
    var x := Of(s, who);
    var y := x.(events := x.events[event.id := event], phase := Appending(event));
    InsertedIsOk(ctx, s, who, event);
    InsertedIsApart(ctx, s, who, event);
    NothingChanges(ctx, s, who);
    SessionStep(ctx, s, who, y, s.committed, s.events);
    assert s.(committed := s.committed, events := s.events) == s;
  }

  lemma StoredAloneChanges(ctx: Setting, s: State, who: SessionId, event: AuditEvent)
    requires Inv(ctx, s) && !IdTaken(s, event.id)
    ensures ChangedUnder(ctx, Of(s, who), s, s.committed, s.events[event.id := event])
    ensures ApartFromOthers(s, who, Of(s, who).(phase := Appending(event)), s.events[event.id := event])
  {
    hide Inv, Good, SessionOk;
    var events := s.events[event.id := event];
    assert Extends(s.events, events);
    forall t ensures Good(ctx, t, Rows(s.committed, t), events) {
      CommittedFacts(ctx, s, t);
      GoodGrows(ctx, t, Rows(s.committed, t), s.events, events);
    }
    forall other: SessionId | other != who
      ensures Apart(Of(s, who), Of(s, other)) && Of(s, other).events.Keys !! events.Keys
    {
      ApartFacts(ctx, s, who, other);
      EventsApart(ctx, s, other);
      assert event.id !in Of(s, other).events;
    }
  }

  lemma StoredAloneIsOk(ctx: Setting, s: State, who: SessionId, event: AuditEvent)
    requires Inv(ctx, s) && Of(s, who).phase.Idle? && !IdTaken(s, event.id) && !Of(s, who).outer
    ensures SessionOk(ctx, s.committed, s.events[event.id := event], Of(s, who).(phase := Appending(event)))
  {
    hide Good, SessionOk, Inv;
    OuterFacts(ctx, s, who);
    PhaseFacts(ctx, s, who);
    GrownSessionOk(ctx, s, who, s.events[event.id := event], Of(s, who).(phase := Appending(event)));
  }

  lemma InsertAloneKeeps(ctx: Setting, s: State, who: SessionId, event: AuditEvent)
    requires Inv(ctx, s) && Of(s, who).phase.Idle? && !IdTaken(s, event.id) && !Of(s, who).outer
    ensures Inv(ctx, InsertEventStep(s, who, Of(s, who), event))
  {
    hide Inv, SessionOk, ApartFromOthers, ChangedUnder, IdTaken;
    StoredAloneChanges(ctx, s, who, event);
    StoredAloneIsOk(ctx, s, who, event);
    SessionStep(ctx, s, who, Of(s, who).(phase := Appending(event)), s.committed, s.events[event.id := event]);
    assert s.(committed := s.committed, events := s.events[event.id := event]) == s.(events := s.events[event.id := event]);
  }

  lemma LockedIsOk(ctx: Setting, s: State, x: Session)
    requires SessionOk(ctx, s.committed, s.events, x) && x.phase.Enrolled?
    ensures SessionOk(ctx, s.committed, s.events,
                      x.(inner := {ctx.lockOf(x.phase.tenant)}, phase := Locked(x.phase.event, x.phase.tenant)))
  {
    hide Good, HasEvent;
    var y := x.(inner := {ctx.lockOf(x.phase.tenant)}, phase := Locked(x.phase.event, x.phase.tenant));
    forall t ensures Good(ctx, t, Visible(s.committed, y, t), s.events + y.events) {
      assert Visible(s.committed, y, t) == Visible(s.committed, x, t);
    }
  }

  lemma TakeLockKeeps(ctx: Setting, s: State, who: SessionId)
    requires Inv(ctx, s) && Of(s, who).phase.Enrolled? && !Blocked(s, who, ctx.lockOf(Of(s, who).phase.tenant))
    ensures var x := Of(s, who);
            Inv(ctx, With(s, who, x.(inner := {ctx.lockOf(x.phase.tenant)}, phase := Locked(x.phase.event, x.phase.tenant))))
  {
    hide Inv, SessionOk, ChangedUnder;
    var x := Of(s, who);
    var lock := ctx.lockOf(x.phase.tenant);
    var y := x.(inner := {lock}, phase := Locked(x.phase.event, x.phase.tenant));
    PhaseFacts(ctx, s, who);
    SessionFacts(ctx, s, who);
    LockedIsOk(ctx, s, x);
    forall other: SessionId | other != who
      ensures Apart(y, Of(s, other)) && Of(s, other).events.Keys !! s.events.Keys
    {
      ApartFacts(ctx, s, who, other);
      EventsApart(ctx, s, other);
      assert lock !in Held(Of(s, other));
    }
    NothingChanges(ctx, s, who);
    SessionStep(ctx, s, who, y, s.committed, s.events);
    assert s.(committed := s.committed, events := s.events) == s;
  }

  lemma VisibleIsChain(ctx: Setting, s: State, who: SessionId, t: JsString)
    requires Inv(ctx, s)
    ensures WellFormedChain(ctx.h, t, Visible(s.committed, Of(s, who), t))
  {
    hide WellFormedChain, Inv;
    VisibleFacts(ctx, s, who, t);
  }

  lemma ReadLatestKeeps(ctx: Setting, s: State, who: SessionId)
    requires Inv(ctx, s) && Of(s, who).phase.Locked?
    ensures var x := Of(s, who); Inv(ctx, With(s, who, x.(phase := Plan(s, x, x.phase.event, x.phase.tenant))))
  {
    hide Inv, WellFormedChain, NextSequence, PreviousHash, LastHash, Entered, Visible;
    var x := Of(s, who);
    VisibleIsChain(ctx, s, who, x.phase.tenant);
    PhaseFacts(ctx, s, who);
    LatestIsLast(ctx.h, x.phase.tenant, Visible(s.committed, x, x.phase.tenant));
    EnteredKept(ctx, s.events, x, Plan(s, x, x.phase.event, x.phase.tenant));
    PhaseStep(ctx, s, who, x.inner, Plan(s, x, x.phase.event, x.phase.tenant));
    assert x.(inner := x.inner, phase := Plan(s, x, x.phase.event, x.phase.tenant))
        == x.(phase := Plan(s, x, x.phase.event, x.phase.tenant));
  }

  /** The phase plays no part in holding the lock or in what the session sees. */
  lemma EnteredKept(ctx: Setting, events: Events, x: Session, phase: Phase)
    ensures forall event, t :: Entered(ctx, events, x, event, t) <==> Entered(ctx, events, x.(phase := phase), event, t)
    ensures forall committed, t :: Visible(committed, x, t) == Visible(committed, x.(phase := phase), t)
  {
  }

  /** The event index keeps the event out of the rows the session can see. */
  lemma IndexMeansFresh(s: State, who: SessionId, tenant: JsString, row: Row)
    requires IndexesAllow(s, tenant, row)
    ensures FreshId(Visible(s.committed, Of(s, who), tenant), row.event.id)
  {
    var committed: seq<Row> := Rows(s.committed, tenant);
    var pending: seq<Row> := Rows(Of(s, who).pending, tenant);
    forall i | 0 <= i < |committed| + |pending| ensures (committed + pending)[i].event.id != row.event.id {
      if i < |committed| {
        assert !Clashes(row, tenant, s.committed[tenant][i], tenant);
      } else {
        assert !Clashes(row, tenant, s.sessions[who].pending[tenant][i - |committed|], tenant);
      }
    }
  }

  lemma PlannedRowFollows(ctx: Setting, committed: Chains, events: Events, x: Session, row: Row)
    requires PhaseOk(ctx, committed, events, x) && x.phase.Planned? && RowFor(ctx, x.phase) == Some(row)
    requires FreshId(Visible(committed, x, x.phase.tenant), row.event.id)
    ensures PhaseOk(ctx, committed, events, x.(phase := Written(x.phase.event, x.phase.tenant, row)))
  {
    hide FreshId, LastHash, ChainHash, Held, HasEvent, Visible;
    var t, phase := x.phase.tenant, Written(x.phase.event, x.phase.tenant, row);
    EnteredKept(ctx, events, x, phase);
    assert Visible(committed, x.(phase := phase), t) == Visible(committed, x, t);
    assert Follows(ctx.h, t, Visible(committed, x, t), row);
  }

  lemma InsertRowKeeps(ctx: Setting, s: State, who: SessionId, row: Row)
    requires Inv(ctx, s) && Of(s, who).phase.Planned? && RowFor(ctx, Of(s, who).phase) == Some(row)
    requires IndexesAllow(s, Of(s, who).phase.tenant, row)
    ensures var x := Of(s, who); Inv(ctx, With(s, who, x.(phase := Written(x.phase.event, x.phase.tenant, row))))
  {
    hide Inv, PhaseOk, IndexesAllow, RowFor, FreshId, Visible;
    var x := Of(s, who);
    PhaseFacts(ctx, s, who);
    IndexMeansFresh(s, who, x.phase.tenant, row);
    PlannedRowFollows(ctx, s.committed, s.events, x, row);
    PhaseStep(ctx, s, who, x.inner, Written(x.phase.event, x.phase.tenant, row));
    assert x.(inner := x.inner, phase := Written(x.phase.event, x.phase.tenant, row))
        == x.(phase := Written(x.phase.event, x.phase.tenant, row));
  }

  /** The chain seen by the writer, with its row at the end. */
  lemma WrittenIsGood(ctx: Setting, s: State, who: SessionId)
    requires Inv(ctx, s) && Of(s, who).phase.Written?
    ensures var x := Of(s, who);
            Good(ctx, x.phase.tenant, Visible(s.committed, x, x.phase.tenant) + [x.phase.row], s.events + x.events)
  {
    hide Inv, Good, Follows, FreshId, Of, Visible;
    var x := Of(s, who);
    PhaseFacts(ctx, s, who);
    VisibleFacts(ctx, s, who, x.phase.tenant);
    GoodExtends(ctx, x.phase.tenant, Visible(s.committed, x, x.phase.tenant), x.phase.row, s.events + x.events);
  }

  lemma CommitRowKeeps(ctx: Setting, s: State, who: SessionId)
    requires Inv(ctx, s) && Of(s, who).phase.Written?
    ensures var x := Of(s, who); Inv(ctx, CommitRow(s, who, x, x.phase.tenant, x.phase.row))
  {
    hide Inv, Good, Of, CommitRow, Visible;
    WrittenIsGood(ctx, s, who);
    if Of(s, who).outer { ReleaseKeeps(ctx, s, who); } else { CommitAloneKeeps(ctx, s, who); }
  }

  lemma ReleasedChains(ctx: Setting, s: State, x: Session, y: Session, tenant: JsString, row: Row, events: Events)
    requires forall t :: Good(ctx, t, Visible(s.committed, x, t), events)
    requires Good(ctx, tenant, Visible(s.committed, x, tenant) + [row], events)
    requires y.pending == x.pending[tenant := Rows(x.pending, tenant) + [row]]
    ensures forall t :: Good(ctx, t, Visible(s.committed, y, t), events)
  {
    hide Good;
    forall t ensures Good(ctx, t, Visible(s.committed, y, t), events) {
      if t == tenant {
        assert Visible(s.committed, y, t) == Visible(s.committed, x, t) + [row];
      } else {
        assert Visible(s.committed, y, t) == Visible(s.committed, x, t);
      }
    }
  }

  lemma ReleasedIsOk(ctx: Setting, s: State, x: Session, row: Row)
    requires SessionOk(ctx, s.committed, s.events, x) && x.phase.Written? && x.outer
    requires Good(ctx, x.phase.tenant, Visible(s.committed, x, x.phase.tenant) + [row], s.events + x.events)
    ensures SessionOk(ctx, s.committed, s.events, x.(
                pending := x.pending[x.phase.tenant := Rows(x.pending, x.phase.tenant) + [row]],
                locks := Held(x), inner := {}, phase := Idle))
  {
    hide Good, Follows, FreshId;
    var tenant := x.phase.tenant;
    var y := x.(pending := x.pending[tenant := Rows(x.pending, tenant) + [row]], locks := Held(x), inner := {}, phase := Idle);
    ReleasedChains(ctx, s, x, y, tenant, row, s.events + x.events);
    hide Visible;
    assert forall t :: t != tenant ==> Rows(y.pending, t) == Rows(x.pending, t);
  }

  lemma ReleaseKeeps(ctx: Setting, s: State, who: SessionId)
    requires Inv(ctx, s) && Of(s, who).phase.Written? && Of(s, who).outer
    requires var x := Of(s, who);
             Good(ctx, x.phase.tenant, Visible(s.committed, x, x.phase.tenant) + [x.phase.row], s.events + x.events)
    ensures var x := Of(s, who); Inv(ctx, CommitRow(s, who, x, x.phase.tenant, x.phase.row))
  {
    hide Inv, Good, SessionOk, Visible, Of;
    var x := Of(s, who);
    var tenant, row := x.phase.tenant, x.phase.row;
    var y := x.(pending := x.pending[tenant := Rows(x.pending, tenant) + [row]], locks := Held(x), inner := {}, phase := Idle);
    SessionFacts(ctx, s, who);
    ReleasedIsOk(ctx, s, x, row);
    QuietStep(ctx, s, who, y);
  }

  lemma CommitAloneChanges(ctx: Setting, s: State, who: SessionId)
    requires Inv(ctx, s) && Of(s, who).phase.Written? && !Of(s, who).outer
    requires var x := Of(s, who);
             Good(ctx, x.phase.tenant, Visible(s.committed, x, x.phase.tenant) + [x.phase.row], s.events + x.events)
    ensures var x := Of(s, who);
            ChangedUnder(ctx, x, s, s.committed[x.phase.tenant := Rows(s.committed, x.phase.tenant) + [x.phase.row]], s.events)
    ensures Of(s, who).(inner := {}, phase := Idle) == FRESH
  {
    hide Inv, Good, Follows, FreshId, Of;
    var x := Of(s, who);
    var tenant, row := x.phase.tenant, x.phase.row;
    OuterFacts(ctx, s, who);
    PhaseFacts(ctx, s, who);
    var committed := s.committed[tenant := Rows(s.committed, tenant) + [row]];
    assert s.events + x.events == s.events;
    assert Rows(committed, tenant) == Visible(s.committed, x, tenant) + [row];
    forall t ensures Good(ctx, t, Rows(committed, t), s.events) {
      CommittedFacts(ctx, s, t);
      assert t != tenant ==> Rows(committed, t) == Rows(s.committed, t);
    }
  }

  lemma CommitAloneKeeps(ctx: Setting, s: State, who: SessionId)
    requires Inv(ctx, s) && Of(s, who).phase.Written? && !Of(s, who).outer
    requires var x := Of(s, who);
             Good(ctx, x.phase.tenant, Visible(s.committed, x, x.phase.tenant) + [x.phase.row], s.events + x.events)
    ensures var x := Of(s, who); Inv(ctx, CommitRow(s, who, x, x.phase.tenant, x.phase.row))
  {
    hide Good, Inv, ChangedUnder;
    var x := Of(s, who);
    CommitAloneChanges(ctx, s, who);
    var committed := s.committed[x.phase.tenant := Rows(s.committed, x.phase.tenant) + [x.phase.row]];
    EndStep(ctx, s, who, committed, s.events);
    assert s.(committed := committed, events := s.events) == s.(committed := committed);
  }

  lemma CommitSessionChanges(ctx: Setting, s: State, who: SessionId)
    requires Inv(ctx, s)
    ensures ChangedUnder(ctx, Of(s, who), s, Merge(s.committed, Of(s, who).pending), s.events + Of(s, who).events)
  {
    hide Inv, Good, PhaseOk, Of;
    var x := Of(s, who);
    EventsApart(ctx, s, who);
    var committed := Merge(s.committed, x.pending);
    forall t
      ensures Good(ctx, t, Rows(committed, t), s.events + x.events)
      ensures Rows(committed, t) != Rows(s.committed, t) ==> ctx.lockOf(t) in Held(x)
    {
      VisibleFacts(ctx, s, who, t);
      if Rows(x.pending, t) != [] { PendingFacts(ctx, s, who, t); }
      assert Rows(committed, t) == Visible(s.committed, x, t);
      assert Rows(x.pending, t) == [] ==> Visible(s.committed, x, t) == Rows(s.committed, t);
    }
  }

  lemma CommitSessionKeeps(ctx: Setting, s: State, who: SessionId)
    requires Inv(ctx, s)
    ensures Inv(ctx, CommitSession(s, who, Of(s, who)))
  {
    hide Inv, ChangedUnder, Merge;
    CommitSessionChanges(ctx, s, who);
    EndStep(ctx, s, who, Merge(s.committed, Of(s, who).pending), s.events + Of(s, who).events);
  }

  lemma NothingChanges(ctx: Setting, s: State, who: SessionId)
    requires Inv(ctx, s)
    ensures ChangedUnder(ctx, Of(s, who), s, s.committed, s.events)
  {
    hide Inv, Good;
    forall t ensures Good(ctx, t, Rows(s.committed, t), s.events) {
      CommittedFacts(ctx, s, t);
    }
  }

  lemma AbortKeeps(ctx: Setting, s: State, who: SessionId)
    requires Inv(ctx, s)
    ensures Inv(ctx, With(s, who, FRESH))
  {
    hide Inv, ChangedUnder;
    NothingChanges(ctx, s, who);
    EndStep(ctx, s, who, s.committed, s.events);
    assert s.(committed := s.committed, events := s.events) == s;
  }

  lemma BeginOuterKeeps(ctx: Setting, s: State, who: SessionId)
    requires Inv(ctx, s) && Of(s, who).phase.Idle? && !Of(s, who).outer
    ensures Inv(ctx, With(s, who, Of(s, who).(outer := true)))
  {
    hide Inv, Good, Of;
    var x := Of(s, who);
    SessionFacts(ctx, s, who);
    var y := x.(outer := true);
    forall t ensures Good(ctx, t, Visible(s.committed, y, t), s.events + y.events) {
      assert Visible(s.committed, y, t) == Visible(s.committed, x, t);
    }
    QuietStep(ctx, s, who, y);
  }

  lemma SetPlanKeeps(ctx: Setting, s: State, enterprise: set<JsString>)
    requires Inv(ctx, s)
    ensures Inv(ctx, s.(enterprise := enterprise))
  {
    hide Good, SessionOk, Apart;
    var s' := s.(enterprise := enterprise);
    assert forall who: SessionId :: Of(s', who) == Of(s, who);
  }

  lemma ReadPlanKeeps(ctx: Setting, s: State, who: SessionId)
    requires Inv(ctx, s) && Of(s, who).phase.Appending?
    ensures Inv(ctx, With(s, who, Of(s, who).(phase := Enrol(s, Of(s, who).phase.event))))
  {
    hide Inv;
    var x := Of(s, who);
    PhaseFacts(ctx, s, who);
    PhaseStep(ctx, s, who, x.inner, Enrol(s, x.phase.event));
    assert x.(inner := x.inner, phase := Enrol(s, x.phase.event)) == x.(phase := Enrol(s, x.phase.event));
  }

  lemma AppendAgainKeeps(ctx: Setting, s: State, who: SessionId, event: AuditEvent)
    requires Inv(ctx, s) && Of(s, who).phase.Idle? && HasEvent(s.events + Of(s, who).events, event)
    ensures Inv(ctx, With(s, who, Of(s, who).(phase := Appending(event))))
  {
    hide Inv;
    var x := Of(s, who);
    PhaseFacts(ctx, s, who);
    PhaseStep(ctx, s, who, x.inner, Appending(event));
    assert x.(inner := x.inner, phase := Appending(event)) == x.(phase := Appending(event));
  }

  lemma RollbackInnerKeeps(ctx: Setting, s: State, who: SessionId)
    requires Inv(ctx, s)
    ensures Inv(ctx, With(s, who, Of(s, who).(inner := {}, phase := Idle)))
  {
    hide Inv;
    PhaseStep(ctx, s, who, {}, Idle);
  }

  /** Every step keeps the invariant. */
  lemma StepKeeps(ctx: Setting, s: State, step: Step)
    requires Inv(ctx, s)
    ensures Inv(ctx, Apply(ctx, s, step).GetOr(s))
  {
    hide Inv, Of, Held, CommitSession, InsertEventStep, Enrol, Plan, CommitRow, RowFor, IndexesAllow, Blocked, IdTaken, HasEvent, With;
    var me := Of(s, step.who);
    match step.action
    case SetPlan(tenant, isEnterprise) =>
      SetPlanKeeps(ctx, s, if isEnterprise then s.enterprise + {tenant} else s.enterprise - {tenant});
    case BeginOuter => if Apply(ctx, s, step).Some? { BeginOuterKeeps(ctx, s, step.who); }
    case CommitOuter => CommitSessionKeeps(ctx, s, step.who);
    case Abort => AbortKeeps(ctx, s, step.who);
    case InsertEvent(event) => if Apply(ctx, s, step).Some? { InsertEventKeeps(ctx, s, step.who, event); }
    case AppendAgain(event) => if Apply(ctx, s, step).Some? { AppendAgainKeeps(ctx, s, step.who, event); }
    case ReadPlan => if Apply(ctx, s, step).Some? { ReadPlanKeeps(ctx, s, step.who); }
    case TakeLock => if Apply(ctx, s, step).Some? { TakeLockKeeps(ctx, s, step.who); }
    case ReadLatest => if Apply(ctx, s, step).Some? { ReadLatestKeeps(ctx, s, step.who); }
    case InsertRow => if Apply(ctx, s, step).Some? { InsertRowKeeps(ctx, s, step.who, RowFor(ctx, me.phase).value); }
    case CommitInner => if Apply(ctx, s, step).Some? { CommitRowKeeps(ctx, s, step.who); }
    case RollbackInner => RollbackInnerKeeps(ctx, s, step.who);
  }

  lemma {:induction false} RunKeeps(ctx: Setting, s: State, steps: seq<Step>)
    requires Inv(ctx, s)
    ensures Inv(ctx, Run(ctx, s, steps))
    decreases |steps|
  {
    hide Inv, Apply;
    if steps != [] {
      StepKeeps(ctx, s, steps[0]);
      RunKeeps(ctx, Apply(ctx, s, steps[0]).GetOr(s), steps[1..]);
    }
  }
}
