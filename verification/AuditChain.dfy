/** Concurrent writers of the audit hash chain, as interleaved database steps under read-committed isolation. */
module AuditChain {
  import opened Bytes
  import opened JsStrings
  import opened ChainRows

  type SessionId = nat

  type LockId = int

  type Chains = map<JsString, seq<Row>>

  type Events = map<JsString, AuditEvent>

  /** The hash, and the hash that turns a tenant into an advisory lock number. */
  datatype Setting = Setting(h: HashFn, lockOf: JsString -> LockId)

  /** How far the append of one event has come. */
  datatype Phase =
    | Idle
    | Appending(event: AuditEvent)
    | Enrolled(event: AuditEvent, tenant: JsString)
    | Locked(event: AuditEvent, tenant: JsString)
    | Planned(event: AuditEvent, tenant: JsString, prevHash: JsString, sequenceNum: nat)
    | Written(event: AuditEvent, tenant: JsString, row: Row)

  /**
    One connection. A caller's transaction, if one is open, keeps its rows, events and locks to itself;
    `inner` are the locks taken by the nested transaction of the append in progress.
    */
  datatype Session = Session(
    outer: bool,
    pending: Chains,
    events: Events,
    locks: set<LockId>,
    inner: set<LockId>,
    phase: Phase)

  datatype State = State(
    committed: Chains,
    events: Events,
    enterprise: set<JsString>,
    sessions: map<SessionId, Session>)

  datatype Action =
    | SetPlan(tenant: JsString, isEnterprise: bool)
    | BeginOuter
    | CommitOuter
    | Abort
    | InsertEvent(event: AuditEvent)
    | AppendAgain(event: AuditEvent)
    | ReadPlan
    | TakeLock
    | ReadLatest
    | InsertRow
    | CommitInner
    | RollbackInner

  datatype Step = Step(who: SessionId, action: Action)

  const FRESH: Session := Session(false, map[], map[], {}, {}, Idle)

  const EMPTY: State := State(map[], map[], {}, map[])

  function Rows(chains: Chains, tenant: JsString): seq<Row> {
    if tenant in chains then chains[tenant] else []
  }

  function Of(s: State, who: SessionId): Session {
    if who in s.sessions then s.sessions[who] else FRESH
  }

  function With(s: State, who: SessionId, session: Session): State {
    s.(sessions := s.sessions[who := session])
  }

  function Held(session: Session): set<LockId> {
    session.locks + session.inner
  }

  /** What a statement of this session sees: what is committed, and its own rows. */
  function Visible(committed: Chains, session: Session, tenant: JsString): seq<Row> {
    Rows(committed, tenant) + Rows(session.pending, tenant)
  }

  function Merge(committed: Chains, pending: Chains): Chains {
    map t | t in committed.Keys + pending.Keys :: Rows(committed, t) + Rows(pending, t)
  }

  /** ORDER BY sequence_num DESC LIMIT 1. */
  function Latest(rows: seq<Row>): Option<Row>
    decreases |rows|
  {
    if rows == [] then None
    else
      var best := Latest(rows[..|rows| - 1]);
      var last := rows[|rows| - 1];
      if best.Some? && best.value.sequenceNum >= last.sequenceNum then best else Some(last)
  }

  function NextSequence(rows: seq<Row>): nat {
    match Latest(rows) case None => 1 case Some(row) => row.sequenceNum + 1
  }

  function PreviousHash(rows: seq<Row>): JsString {
    match Latest(rows) case None => Genesis() case Some(row) => row.thisHash
  }

  /** The tenant whose chain the event goes to: none for a missing or an empty tenant. */
  function ChainTenant(event: AuditEvent): Option<JsString> {
    if event.tenantId == Some([]) then None else event.tenantId
  }

  function HasEvent(events: Events, event: AuditEvent): bool {
    event.id in events && events[event.id] == event
  }

  /** An event id, in the event table or on its way there. */
  predicate IdTaken(s: State, id: JsString) {
    id in s.events || exists who :: who in s.sessions && id in s.sessions[who].events
  }

  /** The two unique indexes see every row, committed or not. */
  predicate Clashes(row: Row, tenant: JsString, other: Row, otherTenant: JsString) {
    (tenant == otherTenant && row.sequenceNum == other.sequenceNum) || row.event.id == other.event.id
  }

  predicate IndexesAllow(s: State, tenant: JsString, row: Row) {
    && (forall t, i :: t in s.committed && 0 <= i < |s.committed[t]| ==> !Clashes(row, tenant, s.committed[t][i], t))
    && (forall who, t, i :: who in s.sessions && t in s.sessions[who].pending && 0 <= i < |s.sessions[who].pending[t]|
          ==> !Clashes(row, tenant, s.sessions[who].pending[t][i], t))
    && (forall who :: who in s.sessions && s.sessions[who].phase.Written?
          ==> !Clashes(row, tenant, s.sessions[who].phase.row, s.sessions[who].phase.tenant))
  }

  /** Another session holds the lock. */
  predicate Blocked(s: State, who: SessionId, lock: LockId) {
    exists other :: other in s.sessions && other != who && lock in Held(s.sessions[other])
  }

  /** The state after a step, or none when the step cannot be taken now. */
  function Apply(ctx: Setting, s: State, step: Step): Option<State> {
    var me := Of(s, step.who);
    match step.action
    case SetPlan(tenant, isEnterprise) =>
      Some(s.(enterprise := if isEnterprise then s.enterprise + {tenant} else s.enterprise - {tenant}))
    case BeginOuter =>
      if me.phase.Idle? && !me.outer then Some(With(s, step.who, me.(outer := true))) else None
    case CommitOuter =>
      if me.phase.Idle? && me.outer then Some(CommitSession(s, step.who, me)) else None
    case Abort =>
      Some(With(s, step.who, FRESH))
    case InsertEvent(event) =>
      if me.phase.Idle? && !IdTaken(s, event.id) then Some(InsertEventStep(s, step.who, me, event)) else None
    case AppendAgain(event) =>
      if me.phase.Idle? && HasEvent(s.events + me.events, event)
      then Some(With(s, step.who, me.(phase := Appending(event)))) else None
    case ReadPlan =>
      if me.phase.Appending? then Some(With(s, step.who, me.(phase := Enrol(s, me.phase.event)))) else None
    case TakeLock =>
      if me.phase.Enrolled? && !Blocked(s, step.who, ctx.lockOf(me.phase.tenant))
      then Some(With(s, step.who, me.(inner := {ctx.lockOf(me.phase.tenant)}, phase := Locked(me.phase.event, me.phase.tenant))))
      else None
    case ReadLatest =>
      if me.phase.Locked? then Some(With(s, step.who, me.(phase := Plan(s, me, me.phase.event, me.phase.tenant)))) else None
    case InsertRow =>
      if me.phase.Planned? && RowFor(ctx, me.phase).Some? && IndexesAllow(s, me.phase.tenant, RowFor(ctx, me.phase).value)
      then Some(With(s, step.who, me.(phase := Written(me.phase.event, me.phase.tenant, RowFor(ctx, me.phase).value))))
      else None
    case CommitInner =>
      if me.phase.Written? then Some(CommitRow(s, step.who, me, me.phase.tenant, me.phase.row)) else None
    case RollbackInner =>
      if me.phase.Idle? then None else Some(With(s, step.who, me.(inner := {}, phase := Idle)))
  }

  function InsertEventStep(s: State, who: SessionId, me: Session, event: AuditEvent): State {
    if me.outer then With(s, who, me.(events := me.events[event.id := event], phase := Appending(event)))
    else With(s.(events := s.events[event.id := event]), who, me.(phase := Appending(event)))
  }

  /** Only tenants on the enterprise plan have a chain. */
  function Enrol(s: State, event: AuditEvent): Phase {
    match ChainTenant(event)
    case None => Idle
    case Some(tenant) => if tenant in s.enterprise then Enrolled(event, tenant) else Idle
  }

  function Plan(s: State, me: Session, event: AuditEvent, tenant: JsString): Phase {
    var rows := Visible(s.committed, me, tenant);
    Planned(event, tenant, PreviousHash(rows), NextSequence(rows))
  }

  /** None when the event cannot be serialised. */
  function RowFor(ctx: Setting, phase: Phase): Option<Row>
    requires phase.Planned?
  {
    match ChainHash(ctx.h, phase.prevHash, phase.event)
    case Err(_) => None
    case Ok(thisHash) => Some(Row(phase.event, phase.sequenceNum, phase.prevHash, thisHash))
  }

  /** Releasing a savepoint inside a caller's transaction, or committing a transaction of its own. */
  function CommitRow(s: State, who: SessionId, me: Session, tenant: JsString, row: Row): State {
    if me.outer then
      With(s, who, me.(pending := me.pending[tenant := Rows(me.pending, tenant) + [row]],
                       locks := Held(me), inner := {}, phase := Idle))
    else
      With(s.(committed := s.committed[tenant := Rows(s.committed, tenant) + [row]]), who, me.(inner := {}, phase := Idle))
  }

  function CommitSession(s: State, who: SessionId, me: Session): State {
    With(s.(committed := Merge(s.committed, me.pending), events := s.events + me.events), who, FRESH)
  }

  /** Any schedule; a step that cannot be taken changes nothing. */
  function Run(ctx: Setting, s: State, steps: seq<Step>): State
    decreases |steps|
  {
    if steps == [] then s
    else Run(ctx, Apply(ctx, s, steps[0]).GetOr(s), steps[1..])
  }
}
