/**
 Usage metering as an interleaving of atomic steps. Each metering call reads the tenant's
 record (from its process's cache or from the row), writes back the record with one more
 document on it, then drops its own process's cache entry. Calls of several processes,
 redelivered queue jobs and plan assignments interleave freely, and any call can stop at any
 point. A read made by the enforcement middleware is a call that stops before its write.
 */
module Metering {
  import opened Options
  import opened Entitlements
  import opened Replies

  type CallId = nat
  type ProcId = nat
  type JobId = nat

  /**
   A copy of the tenant's record. `base` is the record as it was assigned and `lineage` lists
   the calls whose documents the copy contains, in the order they were written.
   */
  datatype Snapshot = Snapshot(sub: Subscription, base: Subscription, lineage: seq<CallId>)

  datatype CacheEntry = Negative | Positive(snap: Snapshot)

  /** How far one call has come. */
  datatype Call =
    | Started(proc: ProcId)
    | Selected(proc: ProcId, row: Option<Snapshot>)
    | Resolved(proc: ProcId, snap: Snapshot)
    | Wrote(proc: ProcId)

  datatype State = State(
    row: Option<Snapshot>,
    caches: map<ProcId, CacheEntry>,
    calls: map<CallId, Call>,
    docs: map<CallId, Doc>,
    jobOf: map<CallId, JobId>,
    markers: set<JobId>,
    everWritten: set<CallId>,
    // since the last plan assignment: its id, the calls that wrote, and whether each of them
    // wrote on top of the row it found
    assignedId: nat,
    written: set<CallId>,
    allFresh: bool,
    usedIds: set<nat>)

  datatype Step =
    | BeginSync(call: CallId, proc: ProcId, doc: Doc)
    | DeliverJob(job: JobId, call: CallId, proc: ProcId, doc: Doc, reply: Reply)
    | MarkerExpires(job: JobId)
    | CacheHit(call: CallId)
    | SelectRow(call: CallId)
    | FillCache(call: CallId)
    | WriteRow(call: CallId)
    | DropCache(call: CallId)
    | Stop(call: CallId)
    | EntryGone(proc: ProcId)
    | AssignPlan(id: nat, plan: Plan, now: int, periodEnd: int)

  const INITIAL := State(None, map[], map[], map[], map[], {}, {}, 0, {}, true, {})

  function Begin(s: State, call: CallId, proc: ProcId, doc: Doc): State {
    s.(calls := s.calls[call := Started(proc)], docs := s.docs[call := doc])
  }

  /** One atomic step; a step that is not possible in `s` leaves it as it is. */
  function Apply(s: State, step: Step): State {
    match step
    case BeginSync(c, p, doc) => if c in s.docs then s else Begin(s, c, p, doc)
    case DeliverJob(j, c, p, doc, reply) =>
      if c in s.docs then s
      else if reply.Answered? && j in s.markers then s
      else
        var marked := if Done(reply) then s.markers + {j} else s.markers;
        Begin(s, c, p, doc).(markers := marked, jobOf := s.jobOf[c := j])
    case MarkerExpires(j) => s.(markers := s.markers - {j})
    case CacheHit(c) =>
      if c in s.calls && s.calls[c].Started? && s.calls[c].proc in s.caches then
        match s.caches[s.calls[c].proc]
        case Negative => s.(calls := s.calls - {c})
        case Positive(snap) => s.(calls := s.calls[c := Resolved(s.calls[c].proc, snap)])
      else s
    case SelectRow(c) =>
      if c in s.calls && s.calls[c].Started? then s.(calls := s.calls[c := Selected(s.calls[c].proc, s.row)]) else s
    case FillCache(c) =>
      if c in s.calls && s.calls[c].Selected? then
        var p := s.calls[c].proc;
        match s.calls[c].row
        case None => s.(caches := s.caches[p := Negative], calls := s.calls - {c})
        case Some(snap) => s.(caches := s.caches[p := Positive(snap)], calls := s.calls[c := Resolved(p, snap)])
      else s
    case WriteRow(c) =>
      if c in s.calls && s.calls[c].Resolved? && c in s.docs then
        var snap := s.calls[c].snap;
        s.(row := Some(Extend(snap, c, s.docs[c])),
           calls := s.calls[c := Wrote(s.calls[c].proc)],
           everWritten := s.everWritten + {c},
           written := s.written + {c},
           allFresh := s.allFresh && s.row == Some(snap))
      else s
    case DropCache(c) =>
      if c in s.calls && s.calls[c].Wrote? then s.(caches := s.caches - {s.calls[c].proc}, calls := s.calls - {c})
      else s
    case Stop(c) => s.(calls := s.calls - {c})
    case EntryGone(p) => s.(caches := s.caches - {p})
    case AssignPlan(id, plan, now, periodEnd) =>
      if id in s.usedIds then s
      else
        var sub := CreateSubscription(id, plan, now, periodEnd);
        s.(row := Some(Snapshot(sub, sub, [])), assignedId := id, written := {}, allFresh := true,
            usedIds := s.usedIds + {id})
  }

  /** What a call stores, given the copy it resolved. */
  function Extend(snap: Snapshot, call: CallId, doc: Doc): Snapshot {
    Snapshot(RecordUsage(snap.sub, doc), snap.base, snap.lineage + [call])
  }

  function Exec(steps: seq<Step>): State {
    if steps == [] then INITIAL else Apply(Exec(steps[..|steps| - 1]), steps[|steps| - 1])
  }

  // ---- every stored record is the result of a sequential run -------------------------

  ghost predicate Held(s: State, x: Snapshot) { s.row == Some(x) || HeldByCache(s, x) || HeldByCall(s, x) }

  ghost predicate HeldByCache(s: State, x: Snapshot) { exists p :: p in s.caches && s.caches[p] == Positive(x) }

  ghost predicate HeldByCall(s: State, x: Snapshot) { exists c :: c in s.calls && CallHolds(s.calls[c], x) }

  predicate CallHolds(call: Call, x: Snapshot) {
    (call.Selected? && call.row == Some(x)) || (call.Resolved? && call.snap == x)
  }

  predicate NoDuplicates(calls: seq<CallId>) {
    forall i, j :: 0 <= i < j < |calls| ==> calls[i] != calls[j]
  }

  predicate AllIn(calls: seq<CallId>, known: set<CallId>) { forall c :: c in calls ==> c in known }

  function DocsOf(calls: seq<CallId>, docs: map<CallId, Doc>): seq<Doc>
    requires AllIn(calls, docs.Keys)
  {
    if calls == [] then [] else DocsOf(calls[..|calls| - 1], docs) + [docs[calls[|calls| - 1]]]
  }

  /** The copy is what metering its lineage one call after another would have produced. */
  ghost predicate Sequential(s: State, x: Snapshot) {
    && AllIn(x.lineage, s.docs.Keys) && AllIn(x.lineage, s.everWritten) && NoDuplicates(x.lineage)
    && x.base.usage == Usage(0, 0, 0, 0) && x.base.id in s.usedIds
    && x.sub == After(x.base, DocsOf(x.lineage, s.docs))
    && (x.base.id == s.assignedId ==> AllIn(x.lineage, s.written))
  }

  ghost predicate Inv(s: State) {
    && FrameInv(s)
    && (forall x :: Held(s, x) ==> Sequential(s, x))
  }

  /** The only new copies a step brings into being are the ones it writes to the row. */
  lemma HeldBefore(s: State, step: Step, x: Snapshot)
    requires Held(Apply(s, step), x)
    ensures Held(s, x) || Apply(s, step).row == Some(x)
  {
    if HeldByCache(Apply(s, step), x) { CacheHeldBefore(s, step, x); }
    else if HeldByCall(Apply(s, step), x) { CallHeldBefore(s, step, x); }
  }

  lemma CacheHeldBefore(s: State, step: Step, x: Snapshot)
    requires HeldByCache(Apply(s, step), x)
    ensures Held(s, x)
  {
    var p :| p in Apply(s, step).caches && Apply(s, step).caches[p] == Positive(x);
    if p in s.caches && s.caches[p] == Positive(x) {
    } else {
      assert step.FillCache? && CallHolds(s.calls[step.call], x);
    }
  }

  lemma CallHeldBefore(s: State, step: Step, x: Snapshot)
    requires HeldByCall(Apply(s, step), x)
    ensures Held(s, x)
  {
    var c :| c in Apply(s, step).calls && CallHolds(Apply(s, step).calls[c], x);
    if c in s.calls && CallHolds(s.calls[c], x) {
    } else {
      assert step.SelectRow? || step.CacheHit?;
    }
  }

  lemma DocsOfStable(calls: seq<CallId>, docs: map<CallId, Doc>, docs': map<CallId, Doc>)
    requires AllIn(calls, docs.Keys) && (forall c :: c in docs ==> c in docs' && docs'[c] == docs[c])
    ensures AllIn(calls, docs'.Keys) && DocsOf(calls, docs') == DocsOf(calls, docs)
  {
    if calls != [] { DocsOfStable(calls[..|calls| - 1], docs, docs'); }
  }

  /** Recording one more document extends the sequential run by that document. */
  lemma ExtendIsSequential(s: State, c: CallId, snap: Snapshot)
    requires Sequential(s, snap) && c in s.docs && c !in s.everWritten
    requires s.written <= s.everWritten <= s.docs.Keys
    ensures var t := s.(everWritten := s.everWritten + {c}, written := s.written + {c});
            Sequential(t, Extend(snap, c, s.docs[c]))
  {
    var x := Extend(snap, c, s.docs[c]);
    assert x.lineage[..|x.lineage| - 1] == snap.lineage;
    var ds := DocsOf(x.lineage, s.docs);
    assert ds[..|ds| - 1] == DocsOf(snap.lineage, s.docs);
  }

  predicate FrameInv(s: State) {
    && s.everWritten <= s.docs.Keys && s.calls.Keys <= s.docs.Keys && s.jobOf.Keys <= s.docs.Keys
    && s.written <= s.everWritten
    && (forall c :: c in s.calls && !s.calls[c].Wrote? ==> c !in s.everWritten)
  }

  lemma FrameInvStep(s: State, step: Step)
    requires FrameInv(s)
    ensures FrameInv(Apply(s, step))
    ensures forall c :: c in s.docs ==> c in Apply(s, step).docs && Apply(s, step).docs[c] == s.docs[c]
    ensures s.everWritten <= Apply(s, step).everWritten && s.usedIds <= Apply(s, step).usedIds
  {
    hide RecordUsage;
    hide CreateSubscription;
  }

  lemma InvStep(s: State, step: Step)
    requires Inv(s)
    ensures Inv(Apply(s, step))
  {
    var t := Apply(s, step);
    FrameInvStep(s, step);
    forall x | Held(t, x) ensures Sequential(t, x) {
      HeldBefore(s, step, x);
      if Held(s, x) {
        SequentialStays(s, step, x);
      } else if step.WriteRow? {
        var c := step.call;
        assert Held(s, s.calls[c].snap);
        ExtendIsSequential(s, c, s.calls[c].snap);
        DocsOfStable(x.lineage, s.docs, t.docs);
      } else {
        assert step.AssignPlan?;
      }
    }
  }

  lemma SequentialStays(s: State, step: Step, x: Snapshot)
    requires FrameInv(s) && Sequential(s, x)
    ensures Sequential(Apply(s, step), x)
  {
    FrameInvStep(s, step);
    DocsOfStable(x.lineage, s.docs, Apply(s, step).docs);
  }

  lemma {:induction false} InvAlways(steps: seq<Step>)
    ensures Inv(Exec(steps))
  {
    if steps != [] {
      InvAlways(steps[..|steps| - 1]);
      InvStep(Exec(steps[..|steps| - 1]), steps[|steps| - 1]);
    }
  }

  // ---- upper bounds ------------------------------------------------------------------

  function SumFullPrices(plan: Plan, docs: map<CallId, Doc>, calls: set<CallId>): nat
    requires calls <= docs.Keys
  {
    if calls == {} then 0
    else var c := LeastOf(calls); FullPrice(plan, docs[c].pages) + SumFullPrices(plan, docs, calls - {c})
  }

  ghost predicate Least(calls: set<CallId>, c: CallId) { c in calls && forall d :: d in calls ==> c <= d }

  function LeastOf(calls: set<CallId>): (c: CallId)
    requires calls != {}
    ensures Least(calls, c)
  {
    LeastExists(calls);
    var c :| c in calls && forall d :: d in calls ==> c <= d;
    c
  }

  lemma LeastExists(calls: set<CallId>)
    requires calls != {}
    ensures exists c :: Least(calls, c)
  {
    var c :| c in calls;
    var rest := calls - {c};
    if rest == {} {
      assert calls == {c};
      assert Least(calls, c);
    } else {
      LeastExists(rest);
      var m :| Least(rest, m);
      var least := if c <= m then c else m;
      forall d | d in calls ensures least <= d {
        if d != c { assert d in rest; }
      }
      assert Least(calls, least);
    }
  }

  lemma {:induction false} SumAddsOne(plan: Plan, docs: map<CallId, Doc>, calls: set<CallId>, c: CallId)
    requires calls <= docs.Keys && c in calls
    ensures SumFullPrices(plan, docs, calls) == FullPrice(plan, docs[c].pages) + SumFullPrices(plan, docs, calls - {c})
    decreases |calls|
  {
    var m := LeastOf(calls);
    if m != c {
      SumAddsOne(plan, docs, calls - {m}, c);
      assert m in calls - {c} && LeastOf(calls - {c}) in calls;
      assert calls - {m} - {c} == calls - {c} - {m};
    }
  }

  lemma {:induction false} SumGrows(plan: Plan, docs: map<CallId, Doc>, few: set<CallId>, many: set<CallId>)
    requires few <= many <= docs.Keys
    ensures SumFullPrices(plan, docs, few) <= SumFullPrices(plan, docs, many)
    decreases |many|
  {
    if few != many {
      assert !(many <= few);
      var c :| c in many && c !in few;
      SumAddsOne(plan, docs, many, c);
      SumGrows(plan, docs, few, many - {c});
    }
  }

  function SetOf(calls: seq<CallId>): set<CallId> { set c | c in calls }

  /** A sequential run counts each of its distinct calls once and never charges over full price. */
  lemma {:induction false} SequentialRunBounds(base: Subscription, calls: seq<CallId>, docs: map<CallId, Doc>)
    requires AllIn(calls, docs.Keys) && NoDuplicates(calls) && base.usage == Usage(0, 0, 0, 0)
    ensures SetOf(calls) <= docs.Keys && |SetOf(calls)| == |calls|
    ensures After(base, DocsOf(calls, docs)).plan == base.plan
    ensures After(base, DocsOf(calls, docs)).usage.documents == |calls|
    ensures After(base, DocsOf(calls, docs)).usage.amount <= SumFullPrices(base.plan, docs, SetOf(calls))
  {
    if calls != [] {
      var init, c := calls[..|calls| - 1], calls[|calls| - 1];
      SequentialRunBounds(base, init, docs);
      assert SetOf(calls) == SetOf(init) + {c};
      assert c !in SetOf(init);
      assert SetOf(calls) - {c} == SetOf(init);
      SumAddsOne(base.plan, docs, SetOf(calls), c);
      var ds := DocsOf(calls, docs);
      assert ds[..|ds| - 1] == DocsOf(init, docs);
      ChargeAtMostFullPrice(After(base, DocsOf(init, docs)), docs[c].pages, docs[c].at);
    }
  }

  /**
   In every interleaving the stored document count is at most the number of distinct calls that
   ever wrote, and the stored amount at most the sum of their full prices.
   */
  lemma StoredUsageNeverExceedsCalls(steps: seq<Step>)
    requires Exec(steps).row.Some?
    ensures Exec(steps).everWritten <= Exec(steps).docs.Keys
    ensures Exec(steps).row.value.sub.usage.documents <= |Exec(steps).everWritten|
    ensures Exec(steps).row.value.sub.usage.amount
            <= SumFullPrices(Exec(steps).row.value.sub.plan, Exec(steps).docs, Exec(steps).everWritten)
  {
    InvAlways(steps);
    var s := Exec(steps);
    var x := s.row.value;
    assert Held(s, x);
    SequentialRunBounds(x.base, x.lineage, s.docs);
    assert SetOf(x.lineage) <= s.everWritten;
    SubsetCardinality(SetOf(x.lineage), s.everWritten);
    SumGrows(x.sub.plan, s.docs, SetOf(x.lineage), s.everWritten);
  }

  lemma {:induction false} SubsetCardinality(few: set<CallId>, many: set<CallId>)
    requires few <= many
    ensures |few| <= |many|
    ensures |few| == |many| ==> few == many
  {
    if few != {} {
      var c :| c in few;
      SubsetCardinality(few - {c}, many - {c});
    }
  }

  // ---- exactly when nothing is lost --------------------------------------------------

  /** No copy of the assigned record contains both calls, and both of them wrote. */
  ghost predicate Torn(s: State, a: CallId, b: CallId) {
    a in s.written && b in s.written && forall x :: Held(s, x) && x.base.id == s.assignedId ==>
        !(a in x.lineage && b in x.lineage)
  }

  ghost predicate FreshInv(s: State) {
    if s.allFresh then
      && (s.row.None? ==> s.written == {} && forall x :: !Held(s, x))
      && (s.row.Some? ==>
            && s.row.value.base.id == s.assignedId && SetOf(s.row.value.lineage) == s.written
            && forall x :: Held(s, x) && x.base.id == s.assignedId ==>
                x.base == s.row.value.base && x.lineage <= s.row.value.lineage)
    else s.row.Some? && exists a, b :: Torn(s, a, b)
  }

  /** A copy nobody held before is a fresh assignment, or was written on top of one that a call held. */
  lemma NewlyHeld(s: State, step: Step, x: Snapshot)
    requires Held(Apply(s, step), x) && !Held(s, x)
    ensures (step.AssignPlan? && step.id !in s.usedIds)
      || (step.WriteRow? && step.call in s.calls && s.calls[step.call].Resolved? && step.call in s.docs
          && Held(s, s.calls[step.call].snap)
          && x == Extend(s.calls[step.call].snap, step.call, s.docs[step.call]))
  {
    hide RecordUsage;
    hide CreateSubscription;
    HeldBefore(s, step, x);
    if step.WriteRow? && step.call in s.calls && s.calls[step.call].Resolved? {
      assert Held(s, s.calls[step.call].snap);
    }
  }

  lemma AssignmentKept(s: State, step: Step)
    requires !(step.AssignPlan? && step.id !in s.usedIds)
    ensures Apply(s, step).assignedId == s.assignedId && s.written <= Apply(s, step).written
    ensures step.WriteRow? && step.call in s.calls && s.calls[step.call].Resolved? && step.call in s.docs ==>
              Apply(s, step).written == s.written + {step.call}
  {
    hide RecordUsage;
  }

  lemma TornStays(s: State, step: Step, a: CallId, b: CallId)
    requires Inv(s) && Torn(s, a, b) && !(step.AssignPlan? && step.id !in s.usedIds)
    ensures Torn(Apply(s, step), a, b)
  {
    var t := Apply(s, step);
    AssignmentKept(s, step);
    WritesOnce(s, step);
    hide Apply;
    hide RecordUsage;
    hide Held;
    hide Inv;
    forall x | Held(t, x) && x.base.id == t.assignedId ensures !(a in x.lineage && b in x.lineage) {
      if !Held(s, x) { NewlyHeld(s, step, x); }
    }
  }

  /** A call that can still write has not written. */
  lemma WritesOnce(s: State, step: Step)
    requires Inv(s)
    ensures step.WriteRow? && step.call in s.calls && s.calls[step.call].Resolved? ==> step.call !in s.written
  {
    hide Held;
  }

  lemma FreshWrite(s: State, c: CallId)
    requires Inv(s) && FreshInv(s) && s.allFresh
    requires c in s.calls && s.calls[c].Resolved? && s.row == Some(s.calls[c].snap)
    ensures FreshInv(Apply(s, WriteRow(c)))
  {
    var t := Apply(s, WriteRow(c));
    var old_ := s.row.value;
    assert Held(s, old_);
    assert t.row.value.lineage == old_.lineage + [c];
    assert SetOf(t.row.value.lineage) == SetOf(old_.lineage) + {c};
    forall x | Held(t, x) && x.base.id == t.assignedId
      ensures x.base == t.row.value.base && x.lineage <= t.row.value.lineage {
      HeldBefore(s, WriteRow(c), x);
    }
  }

  lemma StaleWrite(s: State, c: CallId)
    requires Inv(s) && FreshInv(s) && s.allFresh
    requires c in s.calls && s.calls[c].Resolved? && s.row != Some(s.calls[c].snap)
    ensures FreshInv(Apply(s, WriteRow(c)))
  {
    var t := Apply(s, WriteRow(c));
    var snap := s.calls[c].snap;
    assert Held(s, snap);
    var row := s.row.value;
    assert Held(s, row);
    // the call missed: itself if it wrote under an old assignment, else the last call on the row
    var a := if snap.base.id != s.assignedId then c else row.lineage[|row.lineage| - 1];
    assert a == c || a in SetOf(row.lineage);
    if snap.base.id == s.assignedId { assert snap.lineage != row.lineage; }
    forall x | Held(t, x) && x.base.id == t.assignedId ensures !(a in x.lineage && c in x.lineage) {
      HeldBefore(s, WriteRow(c), x);
      if Held(s, x) {
        assert c !in x.lineage;
      } else {
        assert x.lineage == snap.lineage + [c] && snap.lineage < row.lineage;
      }
    }
    assert Torn(t, a, c);
  }

  lemma AssignedIsFresh(s: State, step: Step)
    requires Inv(s) && step.AssignPlan? && step.id !in s.usedIds
    ensures FreshInv(Apply(s, step))
  {
    var t := Apply(s, step);
    hide RecordUsage;
    forall x | Held(t, x) && x.base.id == t.assignedId ensures x == t.row.value {
      HeldBefore(s, step, x);
    }
  }

  lemma FreshInvStep(s: State, step: Step)
    requires Inv(s) && FreshInv(s)
    ensures FreshInv(Apply(s, step))
  {
    hide CreateSubscription;
    hide RecordUsage;
    var t := Apply(s, step);
    if step.AssignPlan? && step.id !in s.usedIds {
      AssignedIsFresh(s, step);
    } else if !s.allFresh {
      var a, b :| Torn(s, a, b);
      TornStays(s, step, a, b);
    } else if step.WriteRow? && t != s {
      if s.row == Some(s.calls[step.call].snap) { FreshWrite(s, step.call); } else { StaleWrite(s, step.call); }
    } else {
      forall x | Held(t, x) ensures Held(s, x) { HeldBefore(s, step, x); }
    }
  }

  lemma {:induction false} FreshInvAlways(steps: seq<Step>)
    ensures FreshInv(Exec(steps))
  {
    if steps != [] {
      InvAlways(steps[..|steps| - 1]);
      FreshInvAlways(steps[..|steps| - 1]);
      FreshInvStep(Exec(steps[..|steps| - 1]), steps[|steps| - 1]);
    }
  }

  /**
   In every interleaving, since the last plan assignment the row still belongs to that
   assignment and counts every call that wrote, if and only if each call wrote on top of
   exactly the row it had read.
   */
  lemma NothingLostIffEveryWriteIsFresh(steps: seq<Step>)
    requires Exec(steps).row.Some?
    ensures var s := Exec(steps);
            (s.row.value.sub.id == s.assignedId && s.row.value.sub.usage.documents == |s.written|) <==> s.allFresh
  {
    InvAlways(steps);
    FreshInvAlways(steps);
    var s := Exec(steps);
    var x := s.row.value;
    assert Held(s, x);
    RunFrame(x.base, DocsOf(x.lineage, s.docs));
    SequentialRunBounds(x.base, x.lineage, s.docs);
    if x.base.id == s.assignedId {
      assert SetOf(x.lineage) <= s.written;
      SubsetCardinality(SetOf(x.lineage), s.written);
      if !s.allFresh {
        var a, b :| Torn(s, a, b);
        assert !(a in SetOf(x.lineage) && b in SetOf(x.lineage));
      }
    }
  }

  // ---- redelivered jobs ----------------------------------------------------------------

  function RedisFailures(job: JobId, steps: seq<Step>): nat {
    if steps == [] then 0
    else
      var last := steps[|steps| - 1];
      RedisFailures(job, steps[..|steps| - 1])
          + (if last.DeliverJob? && last.job == job && last.reply != Answered then 1 else 0)
  }

  function MarkerExpiries(job: JobId, steps: seq<Step>): nat {
    if steps == [] then 0
    else
      var last := steps[|steps| - 1];
      MarkerExpiries(job, steps[..|steps| - 1]) + (if last.MarkerExpires? && last.job == job then 1 else 0)
  }

  function CallsOfJob(s: State, job: JobId): set<CallId> { set c | c in s.jobOf && s.jobOf[c] == job }

  predicate StartsJob(s: State, step: Step, job: JobId) {
    step.DeliverJob? && step.job == job && step.call !in s.docs && !(step.reply.Answered? && job in s.markers)
  }

  lemma JobCallsStep(s: State, step: Step, job: JobId)
    requires FrameInv(s)
    ensures CallsOfJob(Apply(s, step), job)
         == CallsOfJob(s, job) + (if StartsJob(s, step, job) then {step.call} else {})
    ensures StartsJob(s, step, job) && step.reply.Answered? ==> job !in s.markers && job in Apply(s, step).markers
    ensures job in s.markers && job !in Apply(s, step).markers ==> step == MarkerExpires(job)
  {
    var t := Apply(s, step);
    if !step.DeliverJob? { assert t.jobOf == s.jobOf; }
  }

  lemma {:induction false} JobCallsCovered(job: JobId, steps: seq<Step>)
    ensures |CallsOfJob(Exec(steps), job)|
            <= RedisFailures(job, steps) + MarkerExpiries(job, steps) + (if job in Exec(steps).markers then 1 else 0)
  {
    if steps == [] {
      assert CallsOfJob(Exec(steps), job) == {};
    } else {
      var init, last := steps[..|steps| - 1], steps[|steps| - 1];
      JobCallsCovered(job, init);
      InvAlways(init);
      JobCallsStep(Exec(init), last, job);
    }
  }

  /**
   However often a job is redelivered, it starts at most one metering call, plus one for each
   delivery Redis failed to answer and one for each time its marker expired.
   */
  lemma JobMeteredAtMostOnce(job: JobId, steps: seq<Step>)
    ensures |CallsOfJob(Exec(steps), job)| <= 1 + RedisFailures(job, steps) + MarkerExpiries(job, steps)
  {
    JobCallsCovered(job, steps);
  }

  // ---- a run that loses usage --------------------------------------------------------------------------

  lemma ExecSnoc(steps: seq<Step>, step: Step)
    ensures Exec(steps + [step]) == Apply(Exec(steps), step)
  {
    assert (steps + [step])[..|steps|] == steps;
  }

  lemma ExecFour(steps: seq<Step>, a: Step, b: Step, c: Step, d: Step)
    ensures Exec(steps + [a, b, c, d]) == Apply(Apply(Apply(Apply(Exec(steps), a), b), c), d)
  {
    ExecSnoc(steps, a);
    ExecSnoc(steps + [a], b);
    ExecSnoc(steps + [a] + [b], c);
    ExecSnoc(steps + [a] + [b] + [c], d);
    assert steps + [a] + [b] + [c] + [d] == steps + [a, b, c, d];
  }

  /** Two processes that both read the record before either writes record two documents as one. */
  lemma TwoReadsRecordOneDocument(plan: Plan, a: Doc, b: Doc, now: int, periodEnd: int)
    ensures var begin := [AssignPlan(1, plan, now, periodEnd), BeginSync(0, 0, a), BeginSync(1, 1, b), SelectRow(0)];
            var s := Exec(begin + [SelectRow(1), FillCache(0), FillCache(1), WriteRow(0)] + [WriteRow(1)]);
            && s.row.Some? && s.row.value.sub.usage.documents == 1 && s.written == {0, 1}
  {
    var begin := [AssignPlan(1, plan, now, periodEnd), BeginSync(0, 0, a), BeginSync(1, 1, b), SelectRow(0)];
    var more := [SelectRow(1), FillCache(0), FillCache(1), WriteRow(0)];
    var sub := CreateSubscription(1, plan, now, periodEnd);
    var unused := Snapshot(sub, sub, []);
    assert sub.usage.documents == 0;
    assert RecordUsage(sub, b).usage.documents == 1;
    hide CreateSubscription;
    hide RecordUsage;
    ExecFour([], begin[0], begin[1], begin[2], begin[3]);
    assert [] + begin == begin;
    BothStarted(unused, a, b, plan, now, periodEnd);
    ExecFour(begin, more[0], more[1], more[2], more[3]);
    BothResolved(Exec(begin), unused, a, b);
    ExecSnoc(begin + more, WriteRow(1));
  }

  lemma BothStarted(unused: Snapshot, a: Doc, b: Doc, plan: Plan, now: int, periodEnd: int)
    requires unused
         == Snapshot(CreateSubscription(1, plan, now, periodEnd), CreateSubscription(1, plan, now, periodEnd), [])
    ensures var s := Apply(Apply(Apply(Apply(INITIAL, AssignPlan(1, plan, now, periodEnd)), BeginSync(0, 0, a)),
                                 BeginSync(1, 1, b)), SelectRow(0));
            && s.row == Some(unused) && s.calls == map[0 := Selected(0, Some(unused)), 1 := Started(1)]
            && s.docs == map[0 := a, 1 := b] && s.written == {}
  {
    hide CreateSubscription;
  }

  lemma BothResolved(s: State, unused: Snapshot, a: Doc, b: Doc)
    requires s.row == Some(unused) && s.calls == map[0 := Selected(0, Some(unused)), 1 := Started(1)]
    requires s.docs == map[0 := a, 1 := b] && s.written == {}
    ensures var t := Apply(Apply(Apply(Apply(s, SelectRow(1)), FillCache(0)), FillCache(1)), WriteRow(0));
            && t.docs == s.docs && t.written == {0}
            && 1 in t.calls && t.calls[1] == Resolved(1, unused)
  {
    hide RecordUsage;
  }
}
