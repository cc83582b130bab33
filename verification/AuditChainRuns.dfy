/** The guarantees of the audit chain under any interleaving of writers, commits and aborts. */
module AuditChainRuns {
  import opened Bytes
  import opened JsStrings
  import opened ChainRows
  import opened AuditChain
  import opened AuditChainSafety

  /** The committed chain of a tenant after any schedule from the empty database. */
  function ChainAfter(ctx: Setting, steps: seq<Step>, tenant: JsString): seq<Row> {
    Rows(Run(ctx, EMPTY, steps).committed, tenant)
  }

  lemma CommittedIsGood(ctx: Setting, steps: seq<Step>, tenant: JsString)
    ensures Good(ctx, tenant, ChainAfter(ctx, steps, tenant), Run(ctx, EMPTY, steps).events)
  {
    hide Inv, Good, Run;
    EmptyIsSafe(ctx);
    RunKeeps(ctx, EMPTY, steps);
    CommittedFacts(ctx, Run(ctx, EMPTY, steps), tenant);
  }

  /**
    After any schedule a tenant's rows are numbered from one without gaps, each links to the row
    before it, each hash recomputes, and each row's event is the stored one, of that tenant.
    */
  lemma ChainsAreSound(ctx: Setting, steps: seq<Step>, tenant: JsString, i: nat)
    requires i < |ChainAfter(ctx, steps, tenant)|
    ensures var rows := ChainAfter(ctx, steps, tenant);
            && rows[i].sequenceNum == i + 1
            && rows[i].prevHash == (if i == 0 then Genesis() else rows[i - 1].thisHash)
            && ChainHash(ctx.h, rows[i].prevHash, rows[i].event) == Ok(rows[i].thisHash)
            && rows[i].event.tenantId == Some(tenant)
            && HasEvent(Run(ctx, EMPTY, steps).events, rows[i].event)
  {
    hide ChainHash, WellFormedChain, Run, ChainAfter;
    CommittedIsGood(ctx, steps, tenant);
    RowMeaning(ctx.h, tenant, ChainAfter(ctx, steps, tenant), i);
  }

  /** No event is chained twice, in one chain or in two. */
  lemma NoEventTwice(ctx: Setting, steps: seq<Step>, t: JsString, i: nat, u: JsString, j: nat)
    requires i < |ChainAfter(ctx, steps, t)| && j < |ChainAfter(ctx, steps, u)| && (t != u || i != j)
    ensures ChainAfter(ctx, steps, t)[i].event.id != ChainAfter(ctx, steps, u)[j].event.id
  {
    hide ChainHash, WellFormedChain, Run, ChainAfter;
    CommittedIsGood(ctx, steps, t);
    CommittedIsGood(ctx, steps, u);
    if t != u {
      ChainsAreSound(ctx, steps, t, i);
      ChainsAreSound(ctx, steps, u, j);
    } else if i < j {
      assert DistinctIds(ChainAfter(ctx, steps, t));
    }
  }

  /** A step never removes or changes a committed row. */
  lemma StepAppends(ctx: Setting, s: State, step: Step, tenant: JsString)
    ensures Rows(s.committed, tenant) <= Rows(Apply(ctx, s, step).GetOr(s).committed, tenant)
  {
    hide IndexesAllow, Blocked, IdTaken, HasEvent, RowFor, Plan, Enrol;
    var me := Of(s, step.who);
    assert step.action.CommitOuter? ==>
        Rows(Merge(s.committed, me.pending), tenant) == Rows(s.committed, tenant) + Rows(me.pending, tenant);
  }

  /** Committed rows are never removed or changed. */
  lemma {:induction false} AppendOnly(ctx: Setting, s: State, steps: seq<Step>, tenant: JsString)
    ensures Rows(s.committed, tenant) <= Rows(Run(ctx, s, steps).committed, tenant)
    decreases |steps|
  {
    hide Apply;
    if steps != [] {
      var next := Apply(ctx, s, steps[0]).GetOr(s);
      StepAppends(ctx, s, steps[0], tenant);
      AppendOnly(ctx, next, steps[1..], tenant);
    }
  }

  predicate InCriticalSection(session: Session, tenant: JsString) {
    match session.phase
    case Locked(_, t) => t == tenant
    case Planned(_, t, _, _) => t == tenant
    case Written(_, t, _) => t == tenant
    case _ => Rows(session.pending, tenant) != []
  }

  lemma CriticalHoldsLock(ctx: Setting, s: State, who: SessionId, tenant: JsString)
    requires Inv(ctx, s)
    requires InCriticalSection(Of(s, who), tenant) || Rows(Of(s, who).pending, tenant) != []
    ensures ctx.lockOf(tenant) in Held(Of(s, who))
  {
    hide Inv, Of;
    PhaseFacts(ctx, s, who);
    if Rows(Of(s, who).pending, tenant) != [] {
      PendingFacts(ctx, s, who, tenant);
    }
  }

  lemma LockExcludes(ctx: Setting, s: State, a: SessionId, b: SessionId, lock: LockId)
    requires Inv(ctx, s) && a != b && lock in Held(Of(s, a))
    ensures lock !in Held(Of(s, b))
  {
    hide Inv, Of;
    ApartFacts(ctx, s, a, b);
  }

  /** Another session has no row of the tenant under way. */
  lemma OthersKeepOut(ctx: Setting, s: State, a: SessionId, b: SessionId, tenant: JsString)
    requires Inv(ctx, s) && a != b && InCriticalSection(Of(s, a), tenant)
    ensures Rows(Of(s, b).pending, tenant) == [] && !InCriticalSection(Of(s, b), tenant)
  {
    hide Inv, Of, InCriticalSection;
    CriticalHoldsLock(ctx, s, a, tenant);
    LockExcludes(ctx, s, a, b, ctx.lockOf(tenant));
    if Rows(Of(s, b).pending, tenant) != [] || InCriticalSection(Of(s, b), tenant) {
      CriticalHoldsLock(ctx, s, b, tenant);
    }
  }

  /** From taking the lock to the end of the transaction, a tenant's chain has one writer. */
  lemma OneWriter(ctx: Setting, steps: seq<Step>, a: SessionId, b: SessionId, tenant: JsString)
    requires var s := Run(ctx, EMPTY, steps);
             InCriticalSection(Of(s, a), tenant) && InCriticalSection(Of(s, b), tenant)
    ensures a == b
  {
    hide Run, Good, SessionOk, InCriticalSection;
    EmptyIsSafe(ctx);
    RunKeeps(ctx, EMPTY, steps);
    var s := Run(ctx, EMPTY, steps);
    if a != b {
      OthersKeepOut(ctx, s, a, b, tenant);
    }
  }

  // The unique indexes.

  /** No row anywhere, committed or not, has this number in this tenant's chain. */
  predicate SequenceFree(s: State, tenant: JsString, n: nat) {
    && (forall i :: 0 <= i < |Rows(s.committed, tenant)| ==> Rows(s.committed, tenant)[i].sequenceNum != n)
    && (forall who, i :: who in s.sessions && 0 <= i < |Rows(s.sessions[who].pending, tenant)|
          ==> Rows(s.sessions[who].pending, tenant)[i].sequenceNum != n)
    && (forall who :: who in s.sessions && s.sessions[who].phase.Written? && s.sessions[who].phase.tenant == tenant
          ==> s.sessions[who].phase.row.sequenceNum != n)
  }

  /** No row anywhere, committed or not, is for this event. */
  predicate EventUnchained(s: State, id: JsString) {
    && (forall t, i :: t in s.committed && 0 <= i < |s.committed[t]| ==> s.committed[t][i].event.id != id)
    && (forall who, t, i :: who in s.sessions && t in s.sessions[who].pending && 0 <= i < |s.sessions[who].pending[t]|
          ==> s.sessions[who].pending[t][i].event.id != id)
    && (forall who :: who in s.sessions && s.sessions[who].phase.Written? ==> s.sessions[who].phase.row.event.id != id)
  }

  lemma VisibleNumbers(ctx: Setting, s: State, who: SessionId, tenant: JsString, i: nat)
    requires Inv(ctx, s) && i < |Visible(s.committed, Of(s, who), tenant)|
    ensures Visible(s.committed, Of(s, who), tenant)[i].sequenceNum == i + 1
  {
    hide Inv, WellFormedChain, ChainHash, Of, Visible;
    VisibleFacts(ctx, s, who, tenant);
    RowMeaning(ctx.h, tenant, Visible(s.committed, Of(s, who), tenant), i);
  }

  lemma PlannedNumber(ctx: Setting, s: State, who: SessionId)
    requires Inv(ctx, s) && Of(s, who).phase.Planned?
    ensures Of(s, who).phase.sequenceNum == |Visible(s.committed, Of(s, who), Of(s, who).phase.tenant)| + 1
  {
    hide Inv, LastHash, Of, Visible;
    PhaseFacts(ctx, s, who);
  }

  lemma PlannedIsFree(ctx: Setting, s: State, who: SessionId)
    requires Inv(ctx, s) && Of(s, who).phase.Planned?
    ensures SequenceFree(s, Of(s, who).phase.tenant, Of(s, who).phase.sequenceNum)
  {
    hide Inv;
    var x := Of(s, who);
    var t, n := x.phase.tenant, x.phase.sequenceNum;
    PlannedNumber(ctx, s, who);
    var rows := Visible(s.committed, x, t);
    forall i | 0 <= i < |Rows(s.committed, t)| ensures Rows(s.committed, t)[i].sequenceNum != n {
      assert Rows(s.committed, t)[i] == rows[i];
      VisibleNumbers(ctx, s, who, t, i);
    }
    forall b, i | b in s.sessions && 0 <= i < |Rows(s.sessions[b].pending, t)|
      ensures Rows(s.sessions[b].pending, t)[i].sequenceNum != n
    {
      if b == who {
        assert Rows(x.pending, t)[i] == rows[|Rows(s.committed, t)| + i];
        VisibleNumbers(ctx, s, who, t, |Rows(s.committed, t)| + i);
      } else {
        OthersKeepOut(ctx, s, who, b, t);
      }
    }
    forall b: SessionId ensures !(Of(s, b).phase.Written? && Of(s, b).phase.tenant == t) {
      if b != who {
        OthersKeepOut(ctx, s, who, b, t);
      }
    }
    assert forall b :: b in s.sessions ==> Of(s, b) == s.sessions[b];
  }

  /** A row is let in exactly when its number is free in its tenant's chain and its event is in no chain. */
  lemma IndexesAreTwo(s: State, tenant: JsString, row: Row)
    ensures IndexesAllow(s, tenant, row) <==> SequenceFree(s, tenant, row.sequenceNum) && EventUnchained(s, row.event.id)
  {
    if IndexesAllow(s, tenant, row) {
      AllowedIsUnchained(s, tenant, row);
      AllowedIsFree(s, tenant, row);
    }
    if SequenceFree(s, tenant, row.sequenceNum) && EventUnchained(s, row.event.id) {
      forall t, i | t in s.committed && 0 <= i < |s.committed[t]| ensures !Clashes(row, tenant, s.committed[t][i], t) {
        assert t == tenant ==> s.committed[t] == Rows(s.committed, tenant);
      }
      forall who, t, i | who in s.sessions && t in s.sessions[who].pending && 0 <= i < |s.sessions[who].pending[t]|
        ensures !Clashes(row, tenant, s.sessions[who].pending[t][i], t)
      {
        assert t == tenant ==> s.sessions[who].pending[t] == Rows(s.sessions[who].pending, tenant);
      }
    }
  }

  lemma AllowedIsUnchained(s: State, tenant: JsString, row: Row)
    requires IndexesAllow(s, tenant, row)
    ensures EventUnchained(s, row.event.id)
  {
    forall t, i | t in s.committed && 0 <= i < |s.committed[t]| ensures s.committed[t][i].event.id != row.event.id {
      assert !Clashes(row, tenant, s.committed[t][i], t);
    }
    forall who, t, i | who in s.sessions && t in s.sessions[who].pending && 0 <= i < |s.sessions[who].pending[t]|
      ensures s.sessions[who].pending[t][i].event.id != row.event.id
    {
      assert !Clashes(row, tenant, s.sessions[who].pending[t][i], t);
    }
  }

  lemma AllowedIsFree(s: State, tenant: JsString, row: Row)
    requires IndexesAllow(s, tenant, row)
    ensures SequenceFree(s, tenant, row.sequenceNum)
  {
    forall i | 0 <= i < |Rows(s.committed, tenant)| ensures Rows(s.committed, tenant)[i].sequenceNum != row.sequenceNum {
      assert !Clashes(row, tenant, s.committed[tenant][i], tenant);
    }
    forall who, i | who in s.sessions && 0 <= i < |Rows(s.sessions[who].pending, tenant)|
      ensures Rows(s.sessions[who].pending, tenant)[i].sequenceNum != row.sequenceNum
    {
      assert !Clashes(row, tenant, s.sessions[who].pending[tenant][i], tenant);
    }
  }

  /**
    In every reachable state the writer that has read the latest row can insert its own unless the
    event cannot be serialised or is chained already: the index on (tenant, sequence) never refuses it.
    */
  lemma SequenceIndexNeverRejects(ctx: Setting, steps: seq<Step>, who: SessionId)
    requires Of(Run(ctx, EMPTY, steps), who).phase.Planned?
    ensures var s := Run(ctx, EMPTY, steps);
            var phase := Of(s, who).phase;
            && SequenceFree(s, phase.tenant, phase.sequenceNum)
            && (Apply(ctx, s, Step(who, InsertRow)).Some? <==>
                EventBytes(phase.event).Ok? && EventUnchained(s, phase.event.id))
  {
    hide Run, Inv, SequenceFree, IndexesAllow, EventUnchained, EventBytes;
    EmptyIsSafe(ctx);
    RunKeeps(ctx, EMPTY, steps);
    var s := Run(ctx, EMPTY, steps);
    PlannedIsFree(ctx, s, who);
    var phase := Of(s, who).phase;
    if RowFor(ctx, phase).Some? {
      IndexesAreTwo(s, phase.tenant, RowFor(ctx, phase).value);
    }
  }
}
