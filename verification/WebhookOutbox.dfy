/**
 The webhook outbox shared by any number of workers, as an interleaving of atomic statements.
 Claiming a due delivery bumps its attempt number but takes no lease, so a second claim can
 overtake an attempt that is still in flight, and a worker can stop before it reports back.
 A worker's write may be refused, or committed without the worker hearing of it; one `catch`
 then writes a failure on top, whatever the first write was.
 A claim statement that takes several rows acts as the claims of its rows one after another.
 */
module WebhookOutbox {
  import opened Options
  import opened Replies

  type DeliveryId = nat
  type EndpointId = nat

  const MAX_ATTEMPTS: nat := 6
  const BASE_BACKOFF_MS := 10_000

  datatype Status = Pending | Succeeded | Dead

  /** Why the last attempt did not succeed. */
  datatype Cause = Blocked | EndpointDeleted | Failed(attempt: nat)

  datatype Row =
    Row(endpoint: EndpointId, status: Status, attempts: nat, nextAttemptAt: int, lastError: Option<Cause>)

  /** A delivery in a worker's hands, with the attempt number its claim returned. */
  datatype Claim = Claim(delivery: DeliveryId, attempts: nat)

  /** How sending ended: refused beforehand, answered with a status, or no answer. */
  datatype Outcome = UrlBlocked | Responded(status: int) | NoResponse

  /** What the log remembers of a claim; `RescheduledAgain` is the catch repeating a reschedule. */
  datatype Kind = Claimed | Rescheduled | RescheduledAgain | ReplyLost

  datatype Event = Event(kind: Kind, claim: Claim)

  /** `inFlight` attempts are being sent; those in `catching` have yet to run their `catch`. */
  datatype State = State(
    endpoints: map<EndpointId, bool>, rows: map<DeliveryId, Row>, used: set<DeliveryId>,
    inFlight: set<Claim>, catching: set<Claim>, log: seq<Event>)

  datatype Step =
    | SetEndpoint(endpoint: EndpointId, enabled: bool)
    | DeleteEndpoint(endpoint: EndpointId)
    | Enqueue(delivery: DeliveryId, endpoint: EndpointId, now: int)
    | ClaimDue(delivery: DeliveryId, now: int)
    | Report(claim: Claim, outcome: Outcome, reply: Reply, now: int)
    | Catch(claim: Claim, reply: Reply, now: int)
    | Crash(claim: Claim)
    | Reap
    | Purge(delivery: DeliveryId)

  const INITIAL := State(map[], map[], {}, {}, {}, [])

  function Pow2(n: nat): nat { if n == 0 then 1 else 2 * Pow2(n - 1) }

  function BackoffMs(attempts: nat): nat { BASE_BACKOFF_MS * Pow2(if attempts > 1 then attempts - 1 else 0) }

  predicate IsSuccess(status: int) { 200 <= status < 300 }

  predicate Due(row: Row, endpoints: map<EndpointId, bool>, now: int) {
    row.status == Pending && row.nextAttemptAt <= now && row.endpoint in endpoints && endpoints[row.endpoint]
  }

  predicate Orphaned(row: Row, endpoints: map<EndpointId, bool>) {
    row.status == Pending && row.endpoint !in endpoints
  }

  function FailedRow(row: Row, claim: Claim, now: int): Row {
    var failed := row.(lastError := Some(Failed(claim.attempts)));
    if claim.attempts >= MAX_ATTEMPTS then failed.(status := Dead)
    else failed.(status := Pending, nextAttemptAt := now + BackoffMs(claim.attempts))
  }

  /** The row after the first write of an attempt, which overwrites it whatever its status. No answer, no write. */
  function ReportedRow(row: Row, claim: Claim, outcome: Outcome, reply: Reply, now: int): Row {
    if reply.Rejected? then row
    else
      match outcome
      case UrlBlocked => row.(status := Dead, lastError := Some(Blocked))
      case Responded(status) =>
        if IsSuccess(status) then row.(status := Succeeded, lastError := None) else FailedRow(row, claim, now)
      case NoResponse => row
  }

  /** The row after the `catch` has written a failure. */
  function CaughtRow(row: Row, claim: Claim, reply: Reply, now: int): Row {
    if reply.Rejected? then row else FailedRow(row, claim, now)
  }

  /** The `catch` runs when the request got no answer, or the write for its answer no reply. */
  predicate GoesToCatch(outcome: Outcome, reply: Reply) {
    outcome.NoResponse? || (outcome.Responded? && reply != Answered)
  }

  /** The first write puts the delivery back in the queue. */
  predicate Reschedules(claim: Claim, outcome: Outcome, reply: Reply) {
    outcome.Responded? && !IsSuccess(outcome.status) && reply != Rejected && claim.attempts < MAX_ATTEMPTS
  }

  function ReapedRow(row: Row, endpoints: map<EndpointId, bool>): Row {
    if Orphaned(row, endpoints) then row.(status := Dead, lastError := Some(EndpointDeleted)) else row
  }

  function OnRow(rows: map<DeliveryId, Row>, d: DeliveryId, change: Row -> Row): map<DeliveryId, Row> {
    if d in rows then rows[d := change(rows[d])] else rows
  }

  /** What a first write adds to the log. */
  function ReportEvents(c: Claim, outcome: Outcome, reply: Reply): seq<Event> {
    if !Reschedules(c, outcome, reply) then []
    else [Event(Rescheduled, c)] + (if reply.Unanswered? then [Event(ReplyLost, c)] else [])
  }

  function CatchEvents(log: seq<Event>, c: Claim, reply: Reply): seq<Event> {
    if reply.Rejected? || c.attempts >= MAX_ATTEMPTS then []
    else [Event(if Event(Rescheduled, c) in log then RescheduledAgain else Rescheduled, c)]
  }

  /** One atomic step; a step that is not possible in `s` leaves it as it is. */
  function Apply(s: State, step: Step): State {
    match step
    case SetEndpoint(e, enabled) => s.(endpoints := s.endpoints[e := enabled])
    case DeleteEndpoint(e) => s.(endpoints := s.endpoints - {e})
    case Enqueue(d, e, now) =>
      if d in s.used then s else s.(rows := s.rows[d := Row(e, Pending, 0, now, None)], used := s.used + {d})
    case ClaimDue(d, now) =>
      if d in s.rows && Due(s.rows[d], s.endpoints, now) then
        var n := s.rows[d].attempts + 1;
        s.(rows := s.rows[d := s.rows[d].(attempts := n)],
           inFlight := s.inFlight + {Claim(d, n)},
           log := s.log + [Event(Claimed, Claim(d, n))])
      else s
    case Report(c, outcome, reply, now) =>
      if c in s.inFlight then
        s.(rows := OnRow(s.rows, c.delivery, (row: Row) => ReportedRow(row, c, outcome, reply, now)),
           inFlight := s.inFlight - {c},
           catching := if GoesToCatch(outcome, reply) then s.catching + {c} else s.catching,
           log := s.log + ReportEvents(c, outcome, reply))
      else s
    case Catch(c, reply, now) =>
      if c in s.catching then
        s.(rows := OnRow(s.rows, c.delivery, (row: Row) => CaughtRow(row, c, reply, now)),
           catching := s.catching - {c},
           log := s.log + CatchEvents(s.log, c, reply))
      else s
    case Crash(c) => s.(inFlight := s.inFlight - {c}, catching := s.catching - {c})
    case Reap => s.(rows := map d | d in s.rows :: ReapedRow(s.rows[d], s.endpoints))
    case Purge(d) => s.(rows := s.rows - {d})
  }

  function Exec(steps: seq<Step>): State {
    if steps == [] then INITIAL else Apply(Exec(steps[..|steps| - 1]), steps[|steps| - 1])
  }

  // ---- every run: overlaps, crashes and lost replies included --------------------------

  function UnderWay(s: State): set<Claim> { s.inFlight + s.catching }

  /** The claim carries an attempt number its delivery has already been given. */
  predicate Given(s: State, c: Claim) {
    && c.delivery in s.used && 1 <= c.attempts
    && (c.delivery in s.rows ==> c.attempts <= s.rows[c.delivery].attempts)
  }

  ghost predicate AllGiven(s: State) {
    && s.rows.Keys <= s.used
    && (forall c :: c in UnderWay(s) ==> Given(s, c))
    && (forall i :: 0 <= i < |s.log| ==> Given(s, s.log[i].claim))
  }

  ghost predicate LogInOrder(log: seq<Event>) {
    forall i, j :: 0 <= i < j < |log| && log[i].kind.Claimed? && log[j].kind.Claimed?
                   && log[i].claim.delivery == log[j].claim.delivery
      ==> log[i].claim.attempts < log[j].claim.attempts
  }

  /** Nothing happens to a claim twice, and nothing is rescheduled at the attempt ceiling. */
  ghost predicate LogDistinct(log: seq<Event>) {
    && (forall i, j :: 0 <= i < j < |log| ==> log[i] != log[j])
    && (forall i :: 0 <= i < |log| && !log[i].kind.Claimed? ==> log[i].claim.attempts < MAX_ATTEMPTS)
  }

  /** How far a claim has come decides what the log may say of it. */
  ghost predicate LogFits(s: State) {
    && s.inFlight !! s.catching
    && (forall c :: c in s.inFlight ==>
          Event(Rescheduled, c) !in s.log && Event(RescheduledAgain, c) !in s.log && Event(ReplyLost, c) !in s.log)
    && (forall c :: c in s.catching ==> Event(RescheduledAgain, c) !in s.log)
    && (forall c :: c in s.catching && Event(Rescheduled, c) in s.log ==> Event(ReplyLost, c) in s.log)
    && (forall c :: Event(RescheduledAgain, c) in s.log ==> Event(ReplyLost, c) in s.log)
  }

  ghost predicate Inv(s: State) { AllGiven(s) && LogInOrder(s.log) && LogDistinct(s.log) && LogFits(s) }

  lemma GivenStays(s: State, step: Step, c: Claim)
    requires Given(s, c) && s.rows.Keys <= s.used
    ensures Given(Apply(s, step), c)
  {
  }

  lemma NewEvents(s: State, step: Step)
    ensures |Apply(s, step).log| >= |s.log| && Apply(s, step).log[..|s.log|] == s.log
    ensures forall i :: |s.log| <= i < |Apply(s, step).log| ==>
              (step.ClaimDue? || step.Report? || step.Catch?) && NewEvent(s, step, Apply(s, step).log[i])
  {
  }

  /** The event is one that this step may log. */
  predicate NewEvent(s: State, step: Step, e: Event) {
    match step
    case ClaimDue(d, _) => d in s.rows && e == Event(Claimed, Claim(d, s.rows[d].attempts + 1))
    case Report(c, outcome, reply, _) => c in s.inFlight && e in ReportEvents(c, outcome, reply)
    case Catch(c, reply, _) => c in s.catching && e in CatchEvents(s.log, c, reply)
    case _ => false
  }

  lemma GivenStep(s: State, step: Step)
    requires AllGiven(s)
    ensures AllGiven(Apply(s, step))
  {
    var t := Apply(s, step);
    forall c | c in UnderWay(t) ensures Given(t, c) {
      if c in UnderWay(s) { GivenStays(s, step, c); }
    }
    NewEvents(s, step);
    forall i | 0 <= i < |t.log| ensures Given(t, t.log[i].claim) {
      if i < |s.log| {
        assert t.log[i] == t.log[..|s.log|][i];
        GivenStays(s, step, s.log[i].claim);
      } else if step.Report? || step.Catch? {
        GivenStays(s, step, step.claim);
      }
    }
  }

  lemma LogOrderStep(s: State, step: Step)
    requires Inv(s)
    ensures LogInOrder(Apply(s, step).log)
  {
    hide Given;
    assert AllGiven(s);
    if step.ClaimDue? { ClaimIsNewest(s, step.delivery); }
  }

  /** The number a claim is given is above every number in the log. */
  lemma ClaimIsNewest(s: State, d: DeliveryId)
    requires AllGiven(s)
    ensures forall i :: 0 <= i < |s.log| && s.log[i].claim.delivery == d && d in s.rows
              ==> s.log[i].claim.attempts <= s.rows[d].attempts
    ensures forall c :: c in UnderWay(s) && c.delivery == d && d in s.rows
              ==> c.attempts <= s.rows[d].attempts
  {
    forall i | 0 <= i < |s.log| && s.log[i].claim.delivery == d && d in s.rows
      ensures s.log[i].claim.attempts <= s.rows[d].attempts
    {
      assert Given(s, s.log[i].claim);
    }
  }

  lemma NotInLog(log: seq<Event>, e: Event)
    requires e !in log && (forall i, j :: 0 <= i < j < |log| ==> log[i] != log[j])
    ensures forall i, j :: 0 <= i < j < |log + [e]| ==> (log + [e])[i] != (log + [e])[j]
  {
  }

  lemma LogDistinctStep(s: State, step: Step)
    requires Inv(s)
    ensures LogDistinct(Apply(s, step).log)
  {
    hide Given;
    hide AllGiven;
    hide LogInOrder;
    match step
    case ClaimDue(d, now) =>
      ClaimIsNewest(s, d);
      if d in s.rows { NotInLog(s.log, Event(Claimed, Claim(d, s.rows[d].attempts + 1))); }
    case Report(c, outcome, reply, _) =>
      if c in s.inFlight && Reschedules(c, outcome, reply) {
        NotInLog(s.log, Event(Rescheduled, c));
        if reply.Unanswered? {
          NotInLog(s.log + [Event(Rescheduled, c)], Event(ReplyLost, c));
          assert s.log + [Event(Rescheduled, c)] + [Event(ReplyLost, c)] == Apply(s, step).log;
        }
      }
    case Catch(c, reply, _) =>
      if c in s.catching && reply != Rejected && c.attempts < MAX_ATTEMPTS {
        NotInLog(s.log, CatchEvents(s.log, c, reply)[0]);
      }
    case _ =>
  }

  lemma LogFitsStep(s: State, step: Step)
    requires Inv(s)
    ensures LogFits(Apply(s, step))
  {
    hide Given;
    hide LogInOrder;
    hide LogDistinct;
    var t := Apply(s, step);
    if step.ClaimDue? && step.delivery in s.rows {
      ClaimIsNewest(s, step.delivery);
      hide AllGiven;
      NewClaimUnlogged(s, Claim(step.delivery, s.rows[step.delivery].attempts + 1));
    }
  }

  lemma NewClaimUnlogged(s: State, c: Claim)
    requires forall i :: 0 <= i < |s.log| && s.log[i].claim.delivery == c.delivery
               ==> s.log[i].claim.attempts < c.attempts
    ensures forall kind :: Event(kind, c) !in s.log
  {
  }

  lemma InvStep(s: State, step: Step)
    requires Inv(s)
    ensures Inv(Apply(s, step))
  {
    hide Apply;
    GivenStep(s, step);
    LogOrderStep(s, step);
    LogDistinctStep(s, step);
    LogFitsStep(s, step);
  }

  lemma {:induction false} InvAlways(steps: seq<Step>)
    ensures Inv(Exec(steps))
  {
    if steps != [] {
      hide Inv;
      hide Apply;
      InvAlways(steps[..|steps| - 1]);
      InvStep(Exec(steps[..|steps| - 1]), steps[|steps| - 1]);
    } else {
      hide Apply;
    }
  }

  /** In every run, no two claims of one delivery carry the same attempt number. */
  lemma {:induction false} ClaimsNeverShareAnAttempt(steps: seq<Step>, i: nat, j: nat)
    requires var log := Exec(steps).log; i < j < |log| && log[i].kind.Claimed? && log[j].kind.Claimed?
    ensures Exec(steps).log[i].claim != Exec(steps).log[j].claim
  {
    hide Exec;
    InvAlways(steps);
  }

  // ---- how often and how long a delivery is put off ------------------------------------

  predicate EventOf(e: Event, kind: Kind, d: DeliveryId) { e.kind == kind && e.claim.delivery == d }

  function Count(log: seq<Event>, kind: Kind, d: DeliveryId): nat {
    if log == [] then 0
    else Count(log[..|log| - 1], kind, d) + (if EventOf(log[|log| - 1], kind, d) then 1 else 0)
  }

  /** The delays that the events of one kind schedule, added up. */
  function Backoff(log: seq<Event>, kind: Kind, d: DeliveryId): nat {
    if log == [] then 0
    else
      Backoff(log[..|log| - 1], kind, d)
      + (if EventOf(log[|log| - 1], kind, d) then BackoffMs(log[|log| - 1].claim.attempts) else 0)
  }

  predicate At(log: seq<Event>, kind: Kind, d: DeliveryId, n: nat) { Event(kind, Claim(d, n)) in log }

  /** Back-off slots 1..k that events of one kind have used up, and what they add up to. */
  function UsedSlots(log: seq<Event>, kind: Kind, d: DeliveryId, k: nat): nat {
    if k == 0 then 0 else UsedSlots(log, kind, d, k - 1) + (if At(log, kind, d, k) then 1 else 0)
  }

  function UsedBackoff(log: seq<Event>, kind: Kind, d: DeliveryId, k: nat): nat {
    if k == 0 then 0 else UsedBackoff(log, kind, d, k - 1) + (if At(log, kind, d, k) then BackoffMs(k) else 0)
  }

  lemma {:induction false} SlotsAfter(log: seq<Event>, e: Event, kind: Kind, d: DeliveryId, k: nat)
    requires e !in log
    ensures UsedSlots(log + [e], kind, d, k)
         == UsedSlots(log, kind, d, k) + (if EventOf(e, kind, d) && 1 <= e.claim.attempts <= k then 1 else 0)
    ensures UsedBackoff(log + [e], kind, d, k)
         == UsedBackoff(log, kind, d, k)
            + (if EventOf(e, kind, d) && 1 <= e.claim.attempts <= k then BackoffMs(e.claim.attempts) else 0)
  {
    if k > 0 {
      hide BackoffMs;
      SlotsAfter(log, e, kind, d, k - 1);
      assert At(log + [e], kind, d, k) <==> At(log, kind, d, k) || e == Event(kind, Claim(d, k));
    }
  }

  /** Distinct events below the ceiling fill distinct slots. */
  lemma {:induction false} EventsFillSlots(log: seq<Event>, kind: Kind, d: DeliveryId)
    requires !kind.Claimed? && LogDistinct(log) && forall i :: 0 <= i < |log| ==> 1 <= log[i].claim.attempts
    ensures Count(log, kind, d) == UsedSlots(log, kind, d, MAX_ATTEMPTS - 1)
    ensures Backoff(log, kind, d) == UsedBackoff(log, kind, d, MAX_ATTEMPTS - 1)
  {
    if log != [] {
      var init, e := log[..|log| - 1], log[|log| - 1];
      EventsFillSlots(init, kind, d);
      assert log == init + [e];
      assert e !in init;
      hide BackoffMs;
      hide UsedSlots;
      hide UsedBackoff;
      SlotsAfter(init, e, kind, d, MAX_ATTEMPTS - 1);
    } else {
      NoSlots(kind, d, MAX_ATTEMPTS - 1);
    }
  }

  lemma {:induction false} NoSlots(kind: Kind, d: DeliveryId, k: nat)
    ensures UsedSlots([], kind, d, k) == 0 && UsedBackoff([], kind, d, k) == 0
  {
    if k > 0 { NoSlots(kind, d, k - 1); }
  }

  /** k slots hold at most k events, and the doubling delays of k slots add up to 2^k - 1 base delays. */
  lemma {:induction false} SlotsBounded(log: seq<Event>, kind: Kind, d: DeliveryId, k: nat)
    ensures UsedSlots(log, kind, d, k) <= k
    ensures UsedBackoff(log, kind, d, k) <= BASE_BACKOFF_MS * (Pow2(k) - 1)
  {
    if k > 0 {
      SlotsBounded(log, kind, d, k - 1);
      assert BackoffMs(k) == BASE_BACKOFF_MS * Pow2(k - 1);
    }
  }

  /** Where one kind is logged the other is too. */
  lemma {:induction false} SlotsWithin(log: seq<Event>, few: Kind, many: Kind, d: DeliveryId, k: nat)
    requires forall c :: Event(few, c) in log ==> Event(many, c) in log
    ensures UsedSlots(log, few, d, k) <= UsedSlots(log, many, d, k)
    ensures UsedBackoff(log, few, d, k) <= UsedBackoff(log, many, d, k)
  {
    if k > 0 {
      hide BackoffMs;
      SlotsWithin(log, few, many, d, k - 1);
    }
  }

  /** How often the delivery is put back in the queue, by a first write or again by a catch, and for how long. */
  function RescheduleCount(log: seq<Event>, d: DeliveryId): nat {
    Count(log, Rescheduled, d) + Count(log, RescheduledAgain, d)
  }

  function TotalBackoff(log: seq<Event>, d: DeliveryId): nat {
    Backoff(log, Rescheduled, d) + Backoff(log, RescheduledAgain, d)
  }

  /**
   Over a delivery's whole life, whatever overlaps and crashes, it is put back in the queue at most
   MAX_ATTEMPTS - 1 times, and once more for every reschedule whose reply was lost; its delays total
   at most BASE * (2^(MAX_ATTEMPTS-1) - 1), and once more the delay of each of those. Such losses
   are themselves at most one for each attempt but the last.
   */
  lemma {:induction false} RetriesBounded(steps: seq<Step>, d: DeliveryId)
    ensures var log := Exec(steps).log;
      && RescheduleCount(log, d) <= MAX_ATTEMPTS - 1 + Count(log, ReplyLost, d)
      && TotalBackoff(log, d) <= BASE_BACKOFF_MS * (Pow2(MAX_ATTEMPTS - 1) - 1) + Backoff(log, ReplyLost, d)
      && Count(log, ReplyLost, d) <= MAX_ATTEMPTS - 1
      && Backoff(log, ReplyLost, d) <= BASE_BACKOFF_MS * (Pow2(MAX_ATTEMPTS - 1) - 1)
  {
    InvAlways(steps);
    var log := Exec(steps).log;
    LogNumbers(Exec(steps));
    hide Exec;
    hide UsedSlots;
    hide UsedBackoff;
    hide LogDistinct;
    EventsFillSlots(log, Rescheduled, d);
    EventsFillSlots(log, RescheduledAgain, d);
    EventsFillSlots(log, ReplyLost, d);
    SlotsBounded(log, Rescheduled, d, MAX_ATTEMPTS - 1);
    SlotsBounded(log, ReplyLost, d, MAX_ATTEMPTS - 1);
    SlotsWithin(log, RescheduledAgain, ReplyLost, d, MAX_ATTEMPTS - 1);
  }

  lemma LogNumbers(s: State)
    requires Inv(s)
    ensures forall i :: 0 <= i < |s.log| ==> 1 <= s.log[i].claim.attempts
  {
    forall i | 0 <= i < |s.log| ensures 1 <= s.log[i].claim.attempts { assert Given(s, s.log[i].claim); }
  }

  /** A dead delivery was blocked, lost its endpoint, or failed an attempt at or past the ceiling. */
  predicate DeathExplained(row: Row) {
    row.status == Dead ==>
      row.lastError.Some?
      && (row.lastError.value.Blocked? || row.lastError.value.EndpointDeleted?
          || row.lastError.value.attempt >= MAX_ATTEMPTS)
  }

  lemma {:induction false} DeathAlwaysExplained(steps: seq<Step>, d: DeliveryId)
    requires d in Exec(steps).rows
    ensures DeathExplained(Exec(steps).rows[d])
  {
    if steps != [] {
      var init := steps[..|steps| - 1];
      if d in Exec(init).rows { DeathAlwaysExplained(init, d); }
    }
  }

  // ---- when succeeded and dead are final ------------------------------------------------

  /**
   Something may still overwrite a finished delivery: an attempt being sent, or a catch still to
   run, unless all it can do is bury a delivery that is dead already.
   */
  predicate Unsettled(s: State, d: DeliveryId)
    requires d in s.rows
  {
    || (exists c :: c in s.inFlight && c.delivery == d)
    || (exists c :: c in s.catching && c.delivery == d && (s.rows[d].status.Succeeded? || c.attempts < MAX_ATTEMPTS))
  }

  lemma SettledStep(s: State, step: Step, d: DeliveryId)
    requires s.rows.Keys <= s.used && d in s.rows && s.rows[d].status != Pending && !Unsettled(s, d)
    requires d in Apply(s, step).rows
    ensures Apply(s, step).rows[d].status == s.rows[d].status && !Unsettled(Apply(s, step), d)
  {
  }

  lemma ExecSnoc(steps: seq<Step>, step: Step)
    ensures Exec(steps + [step]) == Apply(Exec(steps), step)
  {
    assert (steps + [step])[..|steps|] == steps;
  }

  lemma {:induction false} SettledStays(steps: seq<Step>, more: seq<Step>, d: DeliveryId)
    requires d in Exec(steps).rows && Exec(steps).rows[d].status != Pending && !Unsettled(Exec(steps), d)
    requires d in Exec(steps + more).rows
    ensures Exec(steps + more).rows[d].status == Exec(steps).rows[d].status && !Unsettled(Exec(steps + more), d)
    decreases |more|
  {
    if more == [] {
      assert steps + more == steps;
    } else {
      var init, last := more[..|more| - 1], more[|more| - 1];
      assert steps + more == steps + init + [last];
      ExecSnoc(steps + init, last);
      InvAlways(steps);
      InvAlways(steps + init);
      hide Exec;
      hide Unsettled;
      UsedGrows(steps, init, d);
      RowsNeverReturn(Exec(steps + init), last, d);
      hide Apply;
      SettledStays(steps, init, d);
      SettledStep(Exec(steps + init), last, d);
    }
  }

  /** A purged delivery never comes back, so a row that is there after the step was there before it. */
  lemma RowsNeverReturn(s: State, step: Step, d: DeliveryId)
    requires d in s.used && d in Apply(s, step).rows
    ensures d in s.rows
  {
  }

  lemma {:induction false} UsedGrows(steps: seq<Step>, more: seq<Step>, d: DeliveryId)
    requires d in Exec(steps).used
    ensures d in Exec(steps + more).used
    decreases |more|
  {
    if more == [] {
      assert steps + more == steps;
    } else {
      var init := more[..|more| - 1];
      assert (steps + more)[..|steps + more| - 1] == steps + init;
      UsedGrows(steps, init, d);
    }
  }

  /** What is still under way on an unsettled delivery can change its status in one step. */
  lemma UnsettledCanChange(s: State, d: DeliveryId) returns (step: Step)
    requires d in s.rows && s.rows[d].status != Pending && Unsettled(s, d)
    ensures d in Apply(s, step).rows && Apply(s, step).rows[d].status != s.rows[d].status
  {
    if c :| c in s.inFlight && c.delivery == d {
      step := Report(c, Responded(if s.rows[d].status.Dead? then 200 else 500), Answered, 0);
    } else {
      var c :| c in s.catching && c.delivery == d && (s.rows[d].status.Succeeded? || c.attempts < MAX_ATTEMPTS);
      step := Catch(c, Answered, 0);
    }
  }

  /**
   In every run, a finished delivery keeps its status for good, whatever comes next, if and only if
   no attempt on it is still being sent and no catch that can still change it has yet to run.
   */
  lemma {:induction false} FinalIffSettled(steps: seq<Step>, d: DeliveryId)
    requires d in Exec(steps).rows && Exec(steps).rows[d].status != Pending
    ensures (forall more :: d in Exec(steps + more).rows ==>
        Exec(steps + more).rows[d].status == Exec(steps).rows[d].status)
       <==> !Unsettled(Exec(steps), d)
  {
    if Unsettled(Exec(steps), d) {
      var step := UnsettledCanChange(Exec(steps), d);
      ExecSnoc(steps, step);
      assert d in Exec(steps + [step]).rows;
    } else {
      hide Exec;
      hide Unsettled;
      forall more | d in Exec(steps + more).rows
        ensures Exec(steps + more).rows[d].status == Exec(steps).rows[d].status
      {
        SettledStays(steps, more, d);
      }
    }
  }

  // ---- runs in which every finished delivery is final --------------------------------------

  /** An attempt on the delivery is under way, being sent or about to run its catch. */
  predicate Holds(s: State, d: DeliveryId) { exists c :: c in UnderWay(s) && c.delivery == d }

  /** A claim overlaps when an attempt on the same delivery is still under way. */
  predicate Overlaps(s: State, step: Step) { step.ClaimDue? && Apply(s, step) != s && Holds(s, step.delivery) }

  /** The reaper cuts in when it buries a delivery whose attempt is still under way. */
  predicate CutsIn(s: State, step: Step) {
    step.Reap? && exists d :: d in s.rows && Orphaned(s.rows[d], s.endpoints) && Holds(s, d)
  }

  /** A success is recorded without the worker hearing of it, which sends it into its catch. */
  predicate LosesSuccess(s: State, step: Step) {
    step.Report? && step.claim in s.inFlight && step.reply.Unanswered? && step.outcome.Responded?
    && IsSuccess(step.outcome.status)
  }

  predicate NoOverlap(steps: seq<Step>) { forall i :: 0 <= i < |steps| ==> !Overlaps(Exec(steps[..i]), steps[i]) }

  predicate NoCutIn(steps: seq<Step>) { forall i :: 0 <= i < |steps| ==> !CutsIn(Exec(steps[..i]), steps[i]) }

  predicate NoLostSuccess(steps: seq<Step>) {
    forall i :: 0 <= i < |steps| ==> !LosesSuccess(Exec(steps[..i]), steps[i])
  }

  lemma PrefixRuns(steps: seq<Step>)
    requires steps != []
    ensures NoOverlap(steps) ==>
          NoOverlap(steps[..|steps| - 1]) && !Overlaps(Exec(steps[..|steps| - 1]), steps[|steps| - 1])
    ensures NoCutIn(steps) ==> NoCutIn(steps[..|steps| - 1]) && !CutsIn(Exec(steps[..|steps| - 1]), steps[|steps| - 1])
    ensures NoLostSuccess(steps) ==>
              NoLostSuccess(steps[..|steps| - 1]) && !LosesSuccess(Exec(steps[..|steps| - 1]), steps[|steps| - 1])
  {
    hide Overlaps;
    hide CutsIn;
    hide LosesSuccess;
    hide Exec;
    var init := steps[..|steps| - 1];
    forall i | 0 <= i < |init| ensures init[..i] == steps[..i] && init[i] == steps[i] {}
    assert steps[..|init|] == init;
  }

  /** At most one attempt per delivery is under way, and it holds the newest number. */
  ghost predicate Serial(s: State) {
    && (forall c, c' :: c in UnderWay(s) && c' in UnderWay(s) && c.delivery == c'.delivery ==> c == c')
    && (forall c :: c in UnderWay(s) && c.delivery in s.rows ==> s.rows[c.delivery].attempts == c.attempts)
  }

  /** No finished delivery is unsettled. */
  ghost predicate FinishedSettled(s: State) {
    forall d :: d in s.rows && s.rows[d].status != Pending ==> !Unsettled(s, d)
  }

  lemma SerialStep(s: State, step: Step)
    requires Inv(s) && Serial(s) && !Overlaps(s, step)
    ensures Serial(Apply(s, step))
  {
    hide LogFits;
    hide LogDistinct;
    hide LogInOrder;
    hide ReportEvents;
    hide CatchEvents;
    assert AllGiven(s);
  }

  lemma FinishedSettledStep(s: State, step: Step)
    requires Inv(s) && Serial(s) && FinishedSettled(s)
    requires !Overlaps(s, step) && !CutsIn(s, step) && !LosesSuccess(s, step)
    ensures FinishedSettled(Apply(s, step))
  {
    var t := Apply(s, step);
    forall d | d in t.rows && t.rows[d].status != Pending ensures !Unsettled(t, d) {
      assert s.rows.Keys <= s.used;
      hide Inv;
      hide Unsettled;
      if d in s.rows && s.rows[d].status == Pending {
        FinishingSettles(s, step, d);
      } else {
        assert !Unsettled(s, d);
        SettledStep(s, step, d);
      }
    }
  }

  /** The step that finishes a delivery leaves nothing under way that could change it again. */
  lemma FinishingSettles(s: State, step: Step, d: DeliveryId)
    requires Serial(s) && s.inFlight !! s.catching
    requires !CutsIn(s, step) && !LosesSuccess(s, step)
    requires d in s.rows && s.rows[d].status == Pending && d in Apply(s, step).rows
    requires Apply(s, step).rows[d].status != Pending
    ensures !Unsettled(Apply(s, step), d)
  {
    var t := Apply(s, step);
    if step.Report? {
      OnlyClaim(s, step.claim);
    } else if step.Catch? {
      OnlyClaim(s, step.claim);
    }
  }

  lemma OnlyClaim(s: State, c: Claim)
    requires Serial(s) && c in UnderWay(s)
    ensures forall c' :: c' in UnderWay(s) && c'.delivery == c.delivery ==> c' == c
  {
  }

  lemma {:induction false} SerialAlways(steps: seq<Step>)
    requires NoOverlap(steps)
    ensures Serial(Exec(steps))
    ensures NoCutIn(steps) && NoLostSuccess(steps) ==> FinishedSettled(Exec(steps))
  {
    if steps != [] {
      var init := steps[..|steps| - 1];
      hide *;
      PrefixRuns(steps);
      SerialAlways(init);
      InvAlways(init);
      ExecLast(steps);
      SerialStep(Exec(init), steps[|steps| - 1]);
      if NoCutIn(steps) && NoLostSuccess(steps) { FinishedSettledStep(Exec(init), steps[|steps| - 1]); }
    }
  }

  lemma ExecLast(steps: seq<Step>)
    requires steps != []
    ensures Exec(steps) == Apply(Exec(steps[..|steps| - 1]), steps[|steps| - 1])
  {
  }

  /**
   Without overlapping claims, without the reaper cutting in and without a success whose reply is
   lost, succeeded and dead are final.
   */
  lemma {:induction false} FinishedStaysFinished(steps: seq<Step>, more: seq<Step>, d: DeliveryId)
    requires NoOverlap(steps) && NoCutIn(steps) && NoLostSuccess(steps)
    requires d in Exec(steps).rows && Exec(steps).rows[d].status != Pending
    requires d in Exec(steps + more).rows
    ensures Exec(steps + more).rows[d].status == Exec(steps).rows[d].status
  {
    SerialAlways(steps);
    hide Exec;
    SettledStays(steps, more, d);
  }

  // ---- runs that need each condition ------------------------------------------------------

  const CLAIMED_ONCE: seq<Step> := [SetEndpoint(7, true), Enqueue(0, 7, 0), ClaimDue(0, 0)]

  lemma ClaimedOnce()
    ensures Exec(CLAIMED_ONCE[..2]).inFlight == {} && Exec(CLAIMED_ONCE[..2]).catching == {}
    ensures Exec(CLAIMED_ONCE).rows == map[0 := Row(7, Pending, 1, 0, None)]
    ensures Exec(CLAIMED_ONCE).inFlight == {Claim(0, 1)} && Exec(CLAIMED_ONCE).catching == {}
    ensures Exec(CLAIMED_ONCE).endpoints == map[7 := true] && Exec(CLAIMED_ONCE).log == [Event(Claimed, Claim(0, 1))]
  {
    var l := CLAIMED_ONCE;
    assert l[..1] == [] + [l[0]] && l[..2] == l[..1] + [l[1]] && l == l[..2] + [l[2]];
    ExecSnoc([], l[0]);
    ExecSnoc(l[..1], l[1]);
    ExecSnoc(l[..2], l[2]);
  }

  /** A run that claims once and goes on without another claim has no overlap. */
  lemma OneClaimNoOverlap(more: seq<Step>)
    requires forall i :: 0 <= i < |more| ==> !more[i].ClaimDue?
    ensures NoOverlap(CLAIMED_ONCE + more)
  {
    var steps := CLAIMED_ONCE + more;
    ClaimedOnce();
    forall i | 0 <= i < |steps| ensures !Overlaps(Exec(steps[..i]), steps[i]) {
      if i == 2 {
        assert steps[..2] == CLAIMED_ONCE[..2];
      } else if i >= 3 {
        assert steps[i] == more[i - 3];
      }
    }
  }

  lemma NoReapNoCutIn(steps: seq<Step>)
    requires forall i :: 0 <= i < |steps| ==> !steps[i].Reap?
    ensures NoCutIn(steps)
  {
  }

  lemma AnsweredNoLostSuccess(steps: seq<Step>)
    requires forall i :: 0 <= i < |steps| ==> !(steps[i].Report? && steps[i].reply.Unanswered?)
    ensures NoLostSuccess(steps)
  {
  }

  /** With an overlap alone, the late failure puts a delivery that has succeeded back in the queue. */
  lemma OverlapRevivesSucceeded()
    ensures var done := CLAIMED_ONCE + [ClaimDue(0, 0)] + [Report(Claim(0, 1), Responded(200), Answered, 1)];
            var late := done + [Report(Claim(0, 2), Responded(500), Answered, 2)];
            NoCutIn(late) && NoLostSuccess(late) &&
            0 in Exec(done).rows && Exec(done).rows[0].status == Succeeded &&
            0 in Exec(late).rows && Exec(late).rows[0].status == Pending
  {
    ClaimedOnce();
    var twice := CLAIMED_ONCE + [ClaimDue(0, 0)];
    ExecSnoc(CLAIMED_ONCE, ClaimDue(0, 0));
    assert Exec(twice).rows == map[0 := Row(7, Pending, 2, 0, None)] && Claim(0, 2) in Exec(twice).inFlight;
    ExecSnoc(twice, Report(Claim(0, 1), Responded(200), Answered, 1));
    var done := twice + [Report(Claim(0, 1), Responded(200), Answered, 1)];
    assert Exec(done).rows == map[0 := Row(7, Succeeded, 2, 0, None)] && Claim(0, 2) in Exec(done).inFlight;
    ExecSnoc(done, Report(Claim(0, 2), Responded(500), Answered, 2));
    NoReapNoCutIn(done + [Report(Claim(0, 2), Responded(500), Answered, 2)]);
    AnsweredNoLostSuccess(done + [Report(Claim(0, 2), Responded(500), Answered, 2)]);
  }

  /** With a reaper that cuts in alone, the attempt it did not wait for revives a dead delivery. */
  lemma CutInRevivesDead()
    ensures var reaped := CLAIMED_ONCE + [DeleteEndpoint(7)] + [Reap];
            var late := reaped + [Report(Claim(0, 1), Responded(500), Answered, 2)];
            NoOverlap(late) && NoLostSuccess(late) &&
            0 in Exec(reaped).rows && Exec(reaped).rows[0].status == Dead &&
            0 in Exec(late).rows && Exec(late).rows[0].status == Pending
  {
    ClaimedOnce();
    var orphaned := CLAIMED_ONCE + [DeleteEndpoint(7)];
    var report := Report(Claim(0, 1), Responded(500), Answered, 2);
    ExecSnoc(CLAIMED_ONCE, DeleteEndpoint(7));
    ExecSnoc(orphaned, Reap);
    ExecSnoc(orphaned + [Reap], report);
    assert orphaned + [Reap] + [report] == CLAIMED_ONCE + [DeleteEndpoint(7), Reap, report];
    OneClaimNoOverlap([DeleteEndpoint(7), Reap, report]);
    AnsweredNoLostSuccess(orphaned + [Reap] + [report]);
  }

  /** With a lost reply alone, the catch of a recorded success puts the delivery back in the queue. */
  lemma LostReplyRevivesSucceeded()
    ensures var done := CLAIMED_ONCE + [Report(Claim(0, 1), Responded(200), Unanswered, 1)];
            var caught := done + [Catch(Claim(0, 1), Answered, 2)];
            NoOverlap(caught) && NoCutIn(caught) &&
            0 in Exec(done).rows && Exec(done).rows[0].status == Succeeded &&
            0 in Exec(caught).rows && Exec(caught).rows[0].status == Pending
  {
    ClaimedOnce();
    var report, caught := Report(Claim(0, 1), Responded(200), Unanswered, 1), Catch(Claim(0, 1), Answered, 2);
    ExecSnoc(CLAIMED_ONCE, report);
    ExecSnoc(CLAIMED_ONCE + [report], caught);
    assert CLAIMED_ONCE + [report] + [caught] == CLAIMED_ONCE + [report, caught];
    OneClaimNoOverlap([report, caught]);
    NoReapNoCutIn(CLAIMED_ONCE + [report] + [caught]);
  }

  /** And the catch of a recorded failure reschedules the one attempt a second time. */
  lemma LostReplyReschedulesTwice()
    ensures var caught := CLAIMED_ONCE + [Report(Claim(0, 1), Responded(500), Unanswered, 1)]
        + [Catch(Claim(0, 1), Answered, 2)];
            RescheduleCount(Exec(caught).log, 0) == 2 && TotalBackoff(Exec(caught).log, 0) == 2 * BASE_BACKOFF_MS
  {
    ClaimedOnce();
    var report, caught := Report(Claim(0, 1), Responded(500), Unanswered, 1), Catch(Claim(0, 1), Answered, 2);
    ExecSnoc(CLAIMED_ONCE, report);
    ExecSnoc(CLAIMED_ONCE + [report], caught);
    var c := Claim(0, 1);
    var log := [Event(Claimed, c), Event(Rescheduled, c), Event(ReplyLost, c)];
    assert Exec(CLAIMED_ONCE + [report]).log == log;
    assert Event(Rescheduled, c) == log[1];
    assert Exec(CLAIMED_ONCE + [report] + [caught]).log == log + [Event(RescheduledAgain, c)];
    CountTwice(c);
  }

  lemma CountTwice(c: Claim)
    requires c == Claim(0, 1)
    ensures var log := [Event(Claimed, c), Event(Rescheduled, c), Event(ReplyLost, c)] + [Event(RescheduledAgain, c)];
            RescheduleCount(log, 0) == 2 && TotalBackoff(log, 0) == 2 * BASE_BACKOFF_MS
  {
    var l1, l2, l3 := [Event(Claimed, c)], [Event(Claimed, c), Event(Rescheduled, c)],
                      [Event(Claimed, c), Event(Rescheduled, c), Event(ReplyLost, c)];
    var l4 := l3 + [Event(RescheduledAgain, c)];
    assert l1[..0] == [] && l2[..1] == l1 && l3[..2] == l2 && l4[..3] == l3;
    assert BackoffMs(1) == BASE_BACKOFF_MS;
    assert Count(l1, Rescheduled, 0) == 0 && Count(l2, Rescheduled, 0) == 1 && Count(l3, Rescheduled, 0) == 1;
    assert Backoff(l1, Rescheduled, 0) == 0 && Backoff(l2, Rescheduled, 0) == BASE_BACKOFF_MS;
    assert Backoff(l3, Rescheduled, 0) == BASE_BACKOFF_MS;
    assert Count(l1, RescheduledAgain, 0) == 0 && Count(l2, RescheduledAgain, 0) == 0;
    assert Backoff(l1, RescheduledAgain, 0) == 0 && Backoff(l2, RescheduledAgain, 0) == 0;
    assert Count(l3, RescheduledAgain, 0) == 0 && Backoff(l3, RescheduledAgain, 0) == 0;
  }

  // ---- the attempt ceiling ------------------------------------------------------------------

  /** The worker gives the claim up without its last write: it crashed, or the store refused that write. */
  predicate Abandons(step: Step, d: DeliveryId) {
    || (step.Crash? && step.claim.delivery == d)
    || (step.Catch? && step.claim.delivery == d && step.reply.Rejected?)
    || (step.Report? && step.claim.delivery == d && step.outcome.UrlBlocked? && step.reply.Rejected?)
  }

  function AbandonedOf(steps: seq<Step>, d: DeliveryId): nat {
    if steps == [] then 0
    else AbandonedOf(steps[..|steps| - 1], d) + (if Abandons(steps[|steps| - 1], d) then 1 else 0)
  }

  /**
   Without overlapping claims a delivery is attempted at most MAX_ATTEMPTS times, plus one for
   each attempt that was given up. So MAX_ATTEMPTS - attempts measures what is left.
   */
  lemma {:induction false} AttemptsBounded(steps: seq<Step>, d: DeliveryId)
    requires NoOverlap(steps) && d in Exec(steps).rows
    ensures Exec(steps).rows[d].attempts <= MAX_ATTEMPTS + AbandonedOf(steps, d)
    ensures Exec(steps).rows[d].status == Pending && !Holds(Exec(steps), d)
            ==> Exec(steps).rows[d].attempts < MAX_ATTEMPTS + AbandonedOf(steps, d)
  {
    if steps != [] {
      var init, last := steps[..|steps| - 1], steps[|steps| - 1];
      PrefixRuns(steps);
      SerialAlways(init);
      InvAlways(init);
      hide NoOverlap;
      hide Apply;
      hide Holds;
      hide Serial;
      if d in Exec(init).rows {
        AttemptsBounded(init, d);
        AttemptsStep(Exec(init), last, d, AbandonedOf(init, d));
      } else {
        FirstSeenUnattempted(Exec(init), last, d);
      }
    }
  }

  lemma FirstSeenUnattempted(s: State, step: Step, d: DeliveryId)
    requires d !in s.rows && d in Apply(s, step).rows
    ensures Apply(s, step).rows[d].attempts == 0
  {
  }

  lemma AttemptsStep(s: State, step: Step, d: DeliveryId, abandoned: nat)
    requires Inv(s) && Serial(s) && !Overlaps(s, step) && d in s.rows && d in Apply(s, step).rows
    requires s.rows[d].attempts <= MAX_ATTEMPTS + abandoned
    requires s.rows[d].status == Pending && !Holds(s, d) ==> s.rows[d].attempts < MAX_ATTEMPTS + abandoned
    ensures var t, k := Apply(s, step), abandoned + (if Abandons(step, d) then 1 else 0);
            t.rows[d].attempts <= MAX_ATTEMPTS + k &&
            (t.rows[d].status == Pending && !Holds(t, d) ==> t.rows[d].attempts < MAX_ATTEMPTS + k)
  {
    var t := Apply(s, step);
    if Holds(s, d) && !Holds(t, d) {
      var c :| c in UnderWay(s) && c.delivery == d;
      assert c !in UnderWay(t);
    }
  }
}
