/** The audit tables as one connection without rivals updates them. */
module AuditStore {
  import opened Bytes
  import opened JsStrings
  import opened ChainRows
  import opened AuditChain
  import opened AuditChainSafety
  import opened AuditChainRuns

  /** The steps of one append outside a caller's transaction. */
  function Script(who: SessionId, event: AuditEvent): seq<Step> {
    [Step(who, AppendAgain(event)), Step(who, ReadPlan), Step(who, TakeLock),
     Step(who, ReadLatest), Step(who, InsertRow), Step(who, CommitInner)]
  }

  function NextRow(ctx: Setting, s: State, event: AuditEvent, tenant: JsString): Option<Row> {
    RowFor(ctx, Plan(s, FRESH, event, tenant))
  }

  lemma WithWith(s: State, who: SessionId, a: Session, b: Session)
    ensures With(With(s, who, a), who, b) == With(s, who, b)
  {
    assert s.sessions[who := a][who := b] == s.sessions[who := b];
  }

  lemma RunFirst(ctx: Setting, s: State, step: Step, rest: seq<Step>)
    ensures Run(ctx, s, [step] + rest) == Run(ctx, Apply(ctx, s, step).GetOr(s), rest)
  {
    hide Apply;
    assert ([step] + rest)[1..] == rest;
  }

  lemma EnrolledNext(ctx: Setting, s: State, who: SessionId, event: AuditEvent, tenant: JsString)
    requires Of(s, who) == FRESH && HasEvent(s.events, event)
    requires ChainTenant(event) == Some(tenant) && tenant in s.enterprise
    ensures Apply(ctx, s, Step(who, AppendAgain(event))) == Some(With(s, who, FRESH.(phase := Appending(event))))
    ensures var s' := With(s, who, FRESH.(phase := Appending(event)));
            Apply(ctx, s', Step(who, ReadPlan)) == Some(With(s, who, FRESH.(phase := Enrolled(event, tenant))))
  {
    assert s.events + FRESH.events == s.events;
    WithWith(s, who, FRESH.(phase := Appending(event)), FRESH.(phase := Enrolled(event, tenant)));
  }

  lemma LockedNext(ctx: Setting, s: State, who: SessionId, event: AuditEvent, tenant: JsString)
    requires Of(s, who) == FRESH && !Blocked(s, who, ctx.lockOf(tenant))
    ensures var x := FRESH.(phase := Enrolled(event, tenant));
            var y := FRESH.(inner := {ctx.lockOf(tenant)}, phase := Locked(event, tenant));
            && Apply(ctx, With(s, who, x), Step(who, TakeLock)) == Some(With(s, who, y))
            && Apply(ctx, With(s, who, y), Step(who, ReadLatest)) == Some(With(s, who, y.(phase := Plan(s, FRESH, event, tenant))))
  {
    var x := FRESH.(phase := Enrolled(event, tenant));
    var y := FRESH.(inner := {ctx.lockOf(tenant)}, phase := Locked(event, tenant));
    var z := y.(phase := Plan(s, FRESH, event, tenant));
    WithWith(s, who, x, y);
    WithWith(s, who, y, z);
    assert Plan(With(s, who, y), y, event, tenant) == Plan(s, FRESH, event, tenant);
    assert !Blocked(With(s, who, x), who, ctx.lockOf(tenant));
  }

  lemma StillUnchained(s: State, who: SessionId, y: Session, id: JsString)
    requires EventUnchained(s, id) && y.pending == map[] && !y.phase.Written?
    ensures EventUnchained(With(s, who, y), id)
  {
  }

  lemma InsertedNext(ctx: Setting, s: State, who: SessionId, event: AuditEvent, tenant: JsString)
    requires NextRow(ctx, s, event, tenant).Some? && EventUnchained(s, event.id)
    requires var y := FRESH.(inner := {ctx.lockOf(tenant)}, phase := Plan(s, FRESH, event, tenant)); Inv(ctx, With(s, who, y))
    ensures var row := NextRow(ctx, s, event, tenant).value;
            var y := FRESH.(inner := {ctx.lockOf(tenant)}, phase := Plan(s, FRESH, event, tenant));
            && Apply(ctx, With(s, who, y), Step(who, InsertRow)) == Some(With(s, who, y.(phase := Written(event, tenant, row))))
            && Apply(ctx, With(s, who, y.(phase := Written(event, tenant, row))), Step(who, CommitInner))
               == Some(With(s.(committed := s.committed[tenant := Rows(s.committed, tenant) + [row]]), who, FRESH))
  {
    hide Inv, IndexesAllow, SequenceFree, EventUnchained, RowFor;
    var row := NextRow(ctx, s, event, tenant).value;
    var y := FRESH.(inner := {ctx.lockOf(tenant)}, phase := Plan(s, FRESH, event, tenant));
    assert row.event == event && row.sequenceNum == y.phase.sequenceNum by { RowForMeans(ctx, y.phase); }
    PlannedIsFree(ctx, With(s, who, y), who);
    StillUnchained(s, who, y, event.id);
    IndexesAreTwo(With(s, who, y), tenant, row);
    WithWith(s, who, y, y.(phase := Written(event, tenant, row)));
    var s' := s.(committed := s.committed[tenant := Rows(s.committed, tenant) + [row]]);
    WithWith(s', who, y.(phase := Written(event, tenant, row)), FRESH);
  }

  lemma RowForMeans(ctx: Setting, phase: Phase)
    requires phase.Planned? && RowFor(ctx, phase).Some?
    ensures var row := RowFor(ctx, phase).value;
            row.event == phase.event && row.sequenceNum == phase.sequenceNum && row.prevHash == phase.prevHash
            && ChainHash(ctx.h, row.prevHash, row.event) == Ok(row.thisHash)
  {
  }

  lemma StepTakes(ctx: Setting, s: State, step: Step, s': State)
    requires Inv(ctx, s) && Apply(ctx, s, step) == Some(s')
    ensures Inv(ctx, s')
  {
    hide Inv, Apply;
    StepKeeps(ctx, s, step);
  }

  /** A writer without rivals adds one row for its event at the end of its tenant's chain, and lets go of the lock. */
  lemma ScriptRuns(ctx: Setting, s: State, who: SessionId, event: AuditEvent, tenant: JsString)
    requires Inv(ctx, s) && Of(s, who) == FRESH && HasEvent(s.events, event)
    requires ChainTenant(event) == Some(tenant) && tenant in s.enterprise && !Blocked(s, who, ctx.lockOf(tenant))
    requires NextRow(ctx, s, event, tenant).Some? && EventUnchained(s, event.id)
    ensures Run(ctx, s, Script(who, event)) ==
            With(s.(committed := s.committed[tenant := Rows(s.committed, tenant) + [NextRow(ctx, s, event, tenant).value]]), who, FRESH)
  {
    hide *;
    var x1 := FRESH.(phase := Appending(event));
    var x2 := FRESH.(phase := Enrolled(event, tenant));
    var x3 := FRESH.(inner := {ctx.lockOf(tenant)}, phase := Locked(event, tenant));
    var x4 := x3.(phase := Plan(s, FRESH, event, tenant));
    var x5 := x3.(phase := Written(event, tenant, NextRow(ctx, s, event, tenant).value));
    EnrolledNext(ctx, s, who, event, tenant);
    LockedNext(ctx, s, who, event, tenant);
    StepTakes(ctx, s, Step(who, AppendAgain(event)), With(s, who, x1));
    StepTakes(ctx, With(s, who, x1), Step(who, ReadPlan), With(s, who, x2));
    StepTakes(ctx, With(s, who, x2), Step(who, TakeLock), With(s, who, x3));
    StepTakes(ctx, With(s, who, x3), Step(who, ReadLatest), With(s, who, x4));
    InsertedNext(ctx, s, who, event, tenant);
    ScriptUnrolls(ctx, s, who, event, With(s, who, x1), With(s, who, x2), With(s, who, x3), With(s, who, x4), With(s, who, x5),
                  With(s.(committed := s.committed[tenant := Rows(s.committed, tenant) + [NextRow(ctx, s, event, tenant).value]]), who, FRESH));
  }

  lemma ScriptUnrolls(ctx: Setting, s0: State, who: SessionId, event: AuditEvent,
                      s1: State, s2: State, s3: State, s4: State, s5: State, s6: State)
    requires Apply(ctx, s0, Step(who, AppendAgain(event))) == Some(s1)
    requires Apply(ctx, s1, Step(who, ReadPlan)) == Some(s2)
    requires Apply(ctx, s2, Step(who, TakeLock)) == Some(s3)
    requires Apply(ctx, s3, Step(who, ReadLatest)) == Some(s4)
    requires Apply(ctx, s4, Step(who, InsertRow)) == Some(s5)
    requires Apply(ctx, s5, Step(who, CommitInner)) == Some(s6)
    ensures Run(ctx, s0, Script(who, event)) == s6
  {
    hide Apply, Run;
    var steps := Script(who, event);
    RunFirst(ctx, s0, steps[0], steps[1..]);
    RunFirst(ctx, s1, steps[1], steps[2..]);
    RunFirst(ctx, s2, steps[2], steps[3..]);
    RunFirst(ctx, s3, steps[3], steps[4..]);
    RunFirst(ctx, s4, steps[4], steps[5..]);
    RunFirst(ctx, s5, steps[5], []);
    RunNothing(ctx, s6);
    assert steps == [steps[0]] + steps[1..] && steps[1..] == [steps[1]] + steps[2..] && steps[2..] == [steps[2]] + steps[3..];
    assert steps[3..] == [steps[3]] + steps[4..] && steps[4..] == [steps[4]] + steps[5..] && steps[5..] == [steps[5]] + [];
  }

  lemma RunNothing(ctx: Setting, s: State)
    ensures Run(ctx, s, []) == s
  {
    hide Apply;
  }

  lemma NextRowFollows(ctx: Setting, s: State, event: AuditEvent, tenant: JsString)
    requires Inv(ctx, s) && ChainTenant(event) == Some(tenant)
    ensures EventBytes(event).Ok? <==> NextRow(ctx, s, event, tenant).Some?
    ensures var row := NextRow(ctx, s, event, tenant);
            row.Some? ==> row.value.event == event && Follows(ctx.h, tenant, Rows(s.committed, tenant), row.value)
  {
    hide Inv, WellFormedChain, NextSequence, PreviousHash, LastHash, EventBytes;
    CommittedFacts(ctx, s, tenant);
    LatestIsLast(ctx.h, tenant, Rows(s.committed, tenant));
    assert Visible(s.committed, FRESH, tenant) == Rows(s.committed, tenant);
  }

  lemma ForgetSessions(ctx: Setting, s: State)
    requires Inv(ctx, s)
    ensures Inv(ctx, s.(sessions := map[]))
  {
    hide Good, SessionOk;
    FreshOk(ctx, s.committed, s.events);
  }

  /** The row's number is free when nobody else is at work. */
  lemma QuietIndexes(ctx: Setting, s: State, event: AuditEvent, tenant: JsString)
    requires Inv(ctx, s) && s.sessions == map[] && NextRow(ctx, s, event, tenant).Some?
    requires ChainTenant(event) == Some(tenant)
    ensures IndexesAllow(s, tenant, NextRow(ctx, s, event, tenant).value) <==> EventUnchained(s, event.id)
  {
    hide Inv, IndexesAllow, EventUnchained, Follows, ChainHash;
    var row := NextRow(ctx, s, event, tenant).value;
    NextRowFollows(ctx, s, event, tenant);
    assert row.sequenceNum == |Rows(s.committed, tenant)| + 1 by { FollowsNumber(ctx, s, tenant, row); }
    forall i | 0 <= i < |Rows(s.committed, tenant)| ensures Rows(s.committed, tenant)[i].sequenceNum == i + 1 {
      assert Visible(s.committed, Of(s, 0), tenant) == Rows(s.committed, tenant);
      VisibleNumbers(ctx, s, 0, tenant, i);
    }
    IndexesAreTwo(s, tenant, row);
  }

  lemma FollowsNumber(ctx: Setting, s: State, tenant: JsString, row: Row)
    requires Follows(ctx.h, tenant, Rows(s.committed, tenant), row)
    ensures row.sequenceNum == |Rows(s.committed, tenant)| + 1
  {
    hide ChainHash;
  }

  lemma PlannedRow(ctx: Setting, s: State, event: AuditEvent, tenant: JsString)
    requires Inv(ctx, s) && s.sessions == map[] && ChainTenant(event) == Some(tenant)
    ensures var rows := Rows(s.committed, tenant);
            var thisHash := ChainHash(ctx.h, PreviousHash(rows), event);
            && (thisHash.Ok? <==> EventBytes(event).Ok?)
            && (thisHash.Ok? ==>
                var row := Row(event, NextSequence(rows), PreviousHash(rows), thisHash.value);
                NextRow(ctx, s, event, tenant) == Some(row) && (IndexesAllow(s, tenant, row) <==> EventUnchained(s, event.id)))
  {
    hide Inv, PreviousHash, NextSequence, EventBytes, IndexesAllow, EventUnchained;
    assert Visible(s.committed, FRESH, tenant) == Rows(s.committed, tenant);
    NextRowFollows(ctx, s, event, tenant);
    if NextRow(ctx, s, event, tenant).Some? {
      QuietIndexes(ctx, s, event, tenant);
    }
  }

  lemma AppendedRow(ctx: Setting, s: State, event: AuditEvent, tenant: JsString)
    requires Inv(ctx, s) && s.sessions == map[] && HasEvent(s.events, event)
    requires ChainTenant(event) == Some(tenant) && tenant in s.enterprise
    requires NextRow(ctx, s, event, tenant).Some? && EventUnchained(s, event.id)
    ensures var row := NextRow(ctx, s, event, tenant).value;
            var s' := s.(committed := s.committed[tenant := Rows(s.committed, tenant) + [row]]);
            && Inv(ctx, s')
            && Grown(ctx, tenant, event, s.committed, s'.committed)
            && Run(ctx, s, Script(0, event)) == With(s', 0, FRESH)
  {
    hide Inv, EventUnchained, NextRow, Follows, Run, Script;
    var row := NextRow(ctx, s, event, tenant).value;
    var s' := s.(committed := s.committed[tenant := Rows(s.committed, tenant) + [row]]);
    NextRowFollows(ctx, s, event, tenant);
    ScriptRuns(ctx, s, 0, event, tenant);
    RunKeeps(ctx, s, Script(0, event));
    ForgetSessions(ctx, With(s', 0, FRESH));
    assert With(s', 0, FRESH).(sessions := map[]) == s';
  }

  lemma NewEventUnchained(ctx: Setting, s: State, event: AuditEvent)
    requires Inv(ctx, s) && s.sessions == map[] && event.id !in s.events
    ensures var s' := s.(events := s.events[event.id := event]); Inv(ctx, s') && EventUnchained(s', event.id)
  {
    hide Inv, WellFormedChain;
    var s' := s.(events := s.events[event.id := event]);
    PhaseFacts(ctx, s, 0);
    InsertEventKeeps(ctx, s, 0, event);
    ForgetSessions(ctx, With(s', 0, FRESH.(phase := Appending(event))));
    assert With(s', 0, FRESH.(phase := Appending(event))).(sessions := map[]) == s';
    forall t, i | t in s.committed && 0 <= i < |s.committed[t]| ensures s.committed[t][i].event.id != event.id {
      CommittedFacts(ctx, s, t);
      assert AllStored(Rows(s.committed, t), s.events);
    }
  }

  datatype Outcome = NotEnterprise | Chained | Refused

  class AuditStore {
    const ctx: Setting
    var enterprise: set<JsString>
    var events: Events
    var chain: Chains

    function Snapshot(): State
      reads this
    {
      State(chain, events, enterprise, map[])
    }

    ghost predicate Valid()
      reads this
    {
      Inv(ctx, Snapshot())
    }

    constructor (ctx: Setting, enterprise: set<JsString>)
      ensures Valid() && this.ctx == ctx && this.enterprise == enterprise && events == map[] && chain == map[]
    {
      this.ctx := ctx;
      this.enterprise := enterprise;
      events := map[];
      chain := map[];
      new;
      EmptyIsSafe(ctx);
      SetPlanKeeps(ctx, EMPTY, enterprise);
    }

    /** Chains the event at the end of its tenant's chain, or throws and leaves the chain as it was. */
    method AppendChainEntryIfEnterprise(event: AuditEvent) returns (outcome: Outcome)
      requires Valid() && HasEvent(events, event)
      modifies this`chain
      ensures Valid()
      ensures outcome.NotEnterprise? <==> ChainTenant(event).None? || ChainTenant(event).value !in enterprise
      ensures outcome.Refused? ==> EventBytes(event).Err? || !old(EventUnchained(Snapshot(), event.id))
      ensures outcome.Chained? ==> EventBytes(event).Ok? && old(EventUnchained(Snapshot(), event.id))
      ensures !outcome.Chained? ==> chain == old(chain)
      ensures outcome.Chained? ==> Grown(ctx, ChainTenant(event).value, event, old(chain), chain)
      ensures outcome.Chained? ==>
                Run(ctx, old(Snapshot()), Script(0, event)) == With(Snapshot(), 0, FRESH)
    {
      hide Inv, EventBytes, IndexesAllow, EventUnchained, Follows, Run, ChainHash, PreviousHash, NextSequence, Script, Grown;
      outcome := NotEnterprise;
      var chainTenant := ChainTenant(event);
      if chainTenant.Some? && chainTenant.value in enterprise {
        var tenant := chainTenant.value;
        var rows := Rows(chain, tenant);
        var prevHash, sequenceNum := PreviousHash(rows), NextSequence(rows);
        var thisHash := ChainHash(ctx.h, prevHash, event);
        PlannedRow(ctx, Snapshot(), event, tenant);
        outcome := Refused;
        if thisHash.Ok? {
          var row := Row(event, sequenceNum, prevHash, thisHash.value);
          if IndexesAllow(Snapshot(), tenant, row) {
            AppendedRow(ctx, Snapshot(), event, tenant);
            chain := chain[tenant := rows + [row]];
            outcome := Chained;
          }
        }
      }
    }

    /** Stores a new event, whatever becomes of its chain row. */
    method WriteAuditEvent(event: AuditEvent) returns (outcome: Outcome)
      requires Valid() && event.id !in events
      modifies this`events, this`chain
      ensures Valid() && events == old(events)[event.id := event]
      ensures outcome.NotEnterprise? <==> ChainTenant(event).None? || ChainTenant(event).value !in enterprise
      ensures outcome.Refused? ==> EventBytes(event).Err?
      ensures !outcome.Chained? ==> chain == old(chain)
      ensures outcome.Chained? ==> Grown(ctx, ChainTenant(event).value, event, old(chain), chain)
    {
      hide Inv, EventBytes, EventUnchained, Run, Script, Grown;
      NewEventUnchained(ctx, Snapshot(), event);
      events := events[event.id := event];
      outcome := AppendChainEntryIfEnterprise(event);
    }
  }

  /** One chain has one more row, for this event; the others are as they were. */
  predicate Grown(ctx: Setting, tenant: JsString, event: AuditEvent, before: Chains, after: Chains) {
    && after.Keys == before.Keys + {tenant}
    && (forall t :: t in before && t != tenant ==> after[t] == before[t])
    && |after[tenant]| == |Rows(before, tenant)| + 1
    && after[tenant][..|Rows(before, tenant)|] == Rows(before, tenant)
    && after[tenant][|Rows(before, tenant)|].event == event
    && Follows(ctx.h, tenant, Rows(before, tenant), after[tenant][|Rows(before, tenant)|])
  }
}
