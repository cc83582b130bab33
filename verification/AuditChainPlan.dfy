/** Where the rows of the audit chain come from: appends that found their tenant on the enterprise plan. */
module AuditChainPlan {
  import opened Bytes
  import opened JsStrings
  import opened ChainRows
  import opened AuditChain
  import opened AuditChainRuns

  /** Appends that may write rows. */
  type Approved = iset<(AuditEvent, JsString)>

  ghost predicate RowsApproved(chains: Chains, ok: Approved) {
    forall t, i :: t in chains && 0 <= i < |chains[t]| ==> (chains[t][i].event, t) in ok
  }

  ghost predicate PhaseApproved(phase: Phase, ok: Approved) {
    match phase
    case Idle => true
    case Appending(_) => true
    case Enrolled(event, tenant) => (event, tenant) in ok
    case Locked(event, tenant) => (event, tenant) in ok
    case Planned(event, tenant, _, _) => (event, tenant) in ok
    case Written(event, tenant, row) => (event, tenant) in ok && row.event == event
  }

  ghost predicate SessionApproved(session: Session, ok: Approved) {
    RowsApproved(session.pending, ok) && PhaseApproved(session.phase, ok)
  }

  /** Every row, committed or not, and every append under way is approved. */
  ghost predicate AllApproved(s: State, ok: Approved) {
    RowsApproved(s.committed, ok) && forall who :: who in s.sessions ==> SessionApproved(s.sessions[who], ok)
  }

  lemma OfApproved(s: State, who: SessionId, ok: Approved)
    requires AllApproved(s, ok)
    ensures SessionApproved(Of(s, who), ok)
  {
  }

  lemma WithApproved(s: State, who: SessionId, session: Session, ok: Approved)
    requires AllApproved(s, ok) && SessionApproved(session, ok)
    ensures AllApproved(With(s, who, session), ok)
  {
    hide SessionApproved;
  }

  lemma GrownApproved(chains: Chains, tenant: JsString, row: Row, ok: Approved)
    requires RowsApproved(chains, ok) && (row.event, tenant) in ok
    ensures RowsApproved(chains[tenant := Rows(chains, tenant) + [row]], ok)
  {
  }

  lemma MergedApproved(committed: Chains, pending: Chains, ok: Approved)
    requires RowsApproved(committed, ok) && RowsApproved(pending, ok)
    ensures RowsApproved(Merge(committed, pending), ok)
  {
  }

  lemma FreshApproved(ok: Approved)
    ensures SessionApproved(FRESH, ok)
  {
  }

  /** The append that reads the plan now is approved if it finds its tenant there. */
  ghost predicate ReadsApproved(s: State, step: Step, ok: Approved) {
    var phase := Of(s, step.who).phase;
    step.action.ReadPlan? && phase.Appending? && ChainTenant(phase.event).Some?
    && ChainTenant(phase.event).value in s.enterprise ==>
      (phase.event, ChainTenant(phase.event).value) in ok
  }

  /** No other step makes a row or an append. */
  lemma StepApproved(ctx: Setting, s: State, step: Step, ok: Approved)
    requires AllApproved(s, ok) && ReadsApproved(s, step, ok)
    ensures AllApproved(Apply(ctx, s, step).GetOr(s), ok)
  {
    hide AllApproved, RowsApproved, Of, With, IndexesAllow, Blocked, IdTaken, HasEvent, ChainHash, Merge;
    var me := Of(s, step.who);
    OfApproved(s, step.who, ok);
    FreshApproved(ok);
    if Apply(ctx, s, step).Some? {
      match step.action
      case SetPlan(tenant, isEnterprise) => PlanApproved(s, Apply(ctx, s, step).value, ok);
      case BeginOuter => WithApproved(s, step.who, me.(outer := true), ok);
      case CommitOuter => CommitOuterApproved(s, step.who, me, ok);
      case Abort => WithApproved(s, step.who, FRESH, ok);
      case InsertEvent(event) => InsertEventApproved(s, step.who, me, event, ok);
      case AppendAgain(event) => WithApproved(s, step.who, me.(phase := Appending(event)), ok);
      case ReadPlan => WithApproved(s, step.who, me.(phase := Enrol(s, me.phase.event)), ok);
      case TakeLock =>
        WithApproved(s, step.who, me.(inner := {ctx.lockOf(me.phase.tenant)}, phase := Locked(me.phase.event, me.phase.tenant)), ok);
      case ReadLatest => WithApproved(s, step.who, me.(phase := Plan(s, me, me.phase.event, me.phase.tenant)), ok);
      case InsertRow =>
        WithApproved(s, step.who, me.(phase := Written(me.phase.event, me.phase.tenant, RowFor(ctx, me.phase).value)), ok);
      case CommitInner => CommitInnerApproved(s, step.who, me, ok);
      case RollbackInner => WithApproved(s, step.who, me.(inner := {}, phase := Idle), ok);
    }
  }

  lemma PlanApproved(s: State, s': State, ok: Approved)
    requires AllApproved(s, ok) && s'.committed == s.committed && s'.sessions == s.sessions
    ensures AllApproved(s', ok)
  {
  }

  lemma CommittedApproved(s: State, committed: Chains, events: Events, ok: Approved)
    requires AllApproved(s, ok) && RowsApproved(committed, ok)
    ensures AllApproved(s.(committed := committed, events := events), ok)
  {
    hide RowsApproved;
  }

  lemma CommitOuterApproved(s: State, who: SessionId, me: Session, ok: Approved)
    requires AllApproved(s, ok) && SessionApproved(me, ok)
    ensures AllApproved(CommitSession(s, who, me), ok)
  {
    hide RowsApproved, Merge, With;
    MergedApproved(s.committed, me.pending, ok);
    CommittedApproved(s, Merge(s.committed, me.pending), s.events + me.events, ok);
    FreshApproved(ok);
    WithApproved(s.(committed := Merge(s.committed, me.pending), events := s.events + me.events), who, FRESH, ok);
  }

  lemma InsertEventApproved(s: State, who: SessionId, me: Session, event: AuditEvent, ok: Approved)
    requires AllApproved(s, ok) && SessionApproved(me, ok)
    ensures AllApproved(InsertEventStep(s, who, me, event), ok)
  {
    hide RowsApproved, With;
    if me.outer {
      WithApproved(s, who, me.(events := me.events[event.id := event], phase := Appending(event)), ok);
    } else {
      CommittedApproved(s, s.committed, s.events[event.id := event], ok);
      WithApproved(s.(events := s.events[event.id := event]), who, me.(phase := Appending(event)), ok);
    }
  }

  lemma CommitInnerApproved(s: State, who: SessionId, me: Session, ok: Approved)
    requires AllApproved(s, ok) && SessionApproved(me, ok) && me.phase.Written?
    ensures AllApproved(CommitRow(s, who, me, me.phase.tenant, me.phase.row), ok)
  {
    hide RowsApproved, With;
    var tenant, row := me.phase.tenant, me.phase.row;
    if me.outer {
      GrownApproved(me.pending, tenant, row, ok);
      WithApproved(s, who, me.(pending := me.pending[tenant := Rows(me.pending, tenant) + [row]],
                               locks := Held(me), inner := {}, phase := Idle), ok);
    } else {
      GrownApproved(s.committed, tenant, row, ok);
      CommittedApproved(s, s.committed[tenant := Rows(s.committed, tenant) + [row]], s.events, ok);
      WithApproved(s.(committed := s.committed[tenant := Rows(s.committed, tenant) + [row]]), who,
                   me.(inner := {}, phase := Idle), ok);
    }
  }

  // Whole runs.

  lemma {:induction false} RunSnoc(ctx: Setting, s: State, steps: seq<Step>, last: Step)
    ensures Run(ctx, s, steps + [last]) == Apply(ctx, Run(ctx, s, steps), last).GetOr(Run(ctx, s, steps))
    decreases |steps|
  {
    hide Apply;
    if steps == [] {
      assert [last][1..] == [];
    } else {
      assert (steps + [last])[1..] == steps[1..] + [last];
      RunSnoc(ctx, Apply(ctx, s, steps[0]).GetOr(s), steps[1..], last);
    }
  }

  /** Step k reads the plan for the append of this event, and finds the tenant on it. */
  ghost predicate FoundOnPlan(ctx: Setting, steps: seq<Step>, event: AuditEvent, tenant: JsString, k: nat) {
    && k < |steps| && steps[k].action.ReadPlan? && event.tenantId == Some(tenant) && tenant != []
    && Of(Run(ctx, EMPTY, steps[..k]), steps[k].who).phase == Appending(event)
    && tenant in Run(ctx, EMPTY, steps[..k]).enterprise
  }

  /** The appends that found their tenant on the plan. */
  ghost function Found(ctx: Setting, steps: seq<Step>): Approved {
    iset event, tenant | exists k: nat :: FoundOnPlan(ctx, steps, event, tenant, k) :: (event, tenant)
  }

  lemma FoundGrows(ctx: Setting, steps: seq<Step>, last: Step)
    ensures Found(ctx, steps) <= Found(ctx, steps + [last])
    ensures ReadsApproved(Run(ctx, EMPTY, steps), last, Found(ctx, steps + [last]))
  {
    hide Run;
    var all := steps + [last];
    forall event, tenant, k: nat | FoundOnPlan(ctx, steps, event, tenant, k) ensures FoundOnPlan(ctx, all, event, tenant, k) {
      assert all[..k] == steps[..k];
    }
    assert all[..|steps|] == steps;
    var phase := Of(Run(ctx, EMPTY, steps), last.who).phase;
    if last.action.ReadPlan? && phase.Appending? && ChainTenant(phase.event).Some?
       && ChainTenant(phase.event).value in Run(ctx, EMPTY, steps).enterprise {
      assert FoundOnPlan(ctx, all, phase.event, ChainTenant(phase.event).value, |steps|);
    }
  }

  lemma MoreApproved(s: State, ok: Approved, ok': Approved)
    requires AllApproved(s, ok) && ok <= ok'
    ensures AllApproved(s, ok')
  {
  }

  lemma {:induction false} RunApproved(ctx: Setting, steps: seq<Step>)
    ensures AllApproved(Run(ctx, EMPTY, steps), Found(ctx, steps))
    decreases |steps|
  {
    hide AllApproved, Apply, Found, ReadsApproved;
    if steps == [] {
      NothingToApprove(ctx);
    } else {
      var front, last := steps[..|steps| - 1], steps[|steps| - 1];
      assert steps == front + [last];
      RunApproved(ctx, front);
      FoundGrows(ctx, front, last);
      RunSnoc(ctx, EMPTY, front, last);
      MoreApproved(Run(ctx, EMPTY, front), Found(ctx, front), Found(ctx, steps));
      StepApproved(ctx, Run(ctx, EMPTY, front), last, Found(ctx, steps));
    }
  }

  lemma NothingToApprove(ctx: Setting)
    ensures AllApproved(Run(ctx, EMPTY, []), Found(ctx, []))
  {
  }

  /** Every committed row comes from an append that read the plan while its tenant was on it. */
  lemma RowsOnlyFromPlan(ctx: Setting, steps: seq<Step>, tenant: JsString, i: nat)
    requires i < |ChainAfter(ctx, steps, tenant)|
    ensures exists k: nat :: FoundOnPlan(ctx, steps, ChainAfter(ctx, steps, tenant)[i].event, tenant, k)
  {
    hide Run, FoundOnPlan;
    RunApproved(ctx, steps);
    assert (ChainAfter(ctx, steps, tenant)[i].event, tenant) in Found(ctx, steps);
  }

  lemma {:induction false} NeverOnPlan(ctx: Setting, steps: seq<Step>, tenant: JsString)
    requires forall k :: 0 <= k < |steps| ==> steps[k].action != SetPlan(tenant, true)
    ensures tenant !in Run(ctx, EMPTY, steps).enterprise
    decreases |steps|
  {
    hide Run;
    if steps == [] {
      NothingRuns(ctx);
    } else {
      var front, last := steps[..|steps| - 1], steps[|steps| - 1];
      assert steps == front + [last];
      NeverOnPlan(ctx, front, tenant);
      RunSnoc(ctx, EMPTY, front, last);
      PlanStep(ctx, Run(ctx, EMPTY, front), last, tenant);
    }
  }

  lemma NothingRuns(ctx: Setting)
    ensures Run(ctx, EMPTY, []) == EMPTY
  {
  }

  lemma PlanStep(ctx: Setting, s: State, step: Step, tenant: JsString)
    ensures tenant in Apply(ctx, s, step).GetOr(s).enterprise ==>
              tenant in s.enterprise || step.action == SetPlan(tenant, true)
  {
    hide Of, IndexesAllow, Blocked, IdTaken, HasEvent, RowFor, Plan, Enrol, Merge;
  }

  /** A tenant that was never put on the enterprise plan has no chain, whatever the schedule. */
  lemma NoPlanNoChain(ctx: Setting, steps: seq<Step>, tenant: JsString)
    requires forall k :: 0 <= k < |steps| ==> steps[k].action != SetPlan(tenant, true)
    ensures ChainAfter(ctx, steps, tenant) == []
  {
    hide Run, ChainAfter;
    if ChainAfter(ctx, steps, tenant) != [] {
      RowsOnlyFromPlan(ctx, steps, tenant, 0);
      var k: nat :| FoundOnPlan(ctx, steps, ChainAfter(ctx, steps, tenant)[0].event, tenant, k);
      NeverOnPlan(ctx, steps[..k], tenant);
    }
  }

  /** Events without a tenant, or with an empty one, are in no chain. */
  lemma NoTenantNoChain(ctx: Setting, steps: seq<Step>, tenant: JsString, i: nat)
    requires i < |ChainAfter(ctx, steps, tenant)|
    ensures tenant != [] && ChainAfter(ctx, steps, tenant)[i].event.tenantId == Some(tenant)
  {
    hide Run, ChainAfter;
    RowsOnlyFromPlan(ctx, steps, tenant, i);
  }

  // What each step does to a committed chain.

  /** The rows that a step adds to the committed chain of a tenant: those of a commit, and no others. */
  function Added(s: State, step: Step, tenant: JsString): seq<Row> {
    var me := Of(s, step.who);
    if step.action.CommitInner? && me.phase.Written? && !me.outer && me.phase.tenant == tenant then [me.phase.row]
    else if step.action.CommitOuter? && me.phase.Idle? && me.outer then Rows(me.pending, tenant)
    else []
  }

  /** Only commits add rows: aborts, rollbacks and unfinished appends leave no trace. */
  lemma OnlyCommitsAdd(ctx: Setting, s: State, step: Step, tenant: JsString)
    ensures Rows(Apply(ctx, s, step).GetOr(s).committed, tenant) == Rows(s.committed, tenant) + Added(s, step, tenant)
    ensures step.action.Abort? ==>
              Apply(ctx, s, step).Some? && Of(Apply(ctx, s, step).value, step.who) == FRESH
              && Apply(ctx, s, step).value.committed == s.committed && Apply(ctx, s, step).value.events == s.events
  {
    hide IndexesAllow, Blocked, IdTaken, HasEvent, RowFor, Plan, Enrol;
    assert Rows(s.committed, tenant) + [] == Rows(s.committed, tenant);
    var me := Of(s, step.who);
    assert step.action.CommitOuter? ==>
        Rows(Merge(s.committed, me.pending), tenant) == Rows(s.committed, tenant) + Rows(me.pending, tenant);
  }
}
