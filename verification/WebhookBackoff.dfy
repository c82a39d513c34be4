/** When a delivery is sent again: what is due, and the delays between failures that follow one another. */
module WebhookBackoff {
  import opened Options
  import opened Replies
  import opened WebhookOutbox

  // ---- one statement ------------------------------------------------------------------------------

  /** A claim takes a delivery exactly when it is pending, its time has come and its endpoint is enabled. */
  lemma ClaimedIffDue(s: State, d: DeliveryId, now: int)
    ensures Apply(s, ClaimDue(d, now)) != s
       <==> d in s.rows && s.rows[d].status == Pending && s.rows[d].nextAttemptAt <= now
            && s.rows[d].endpoint in s.endpoints && s.endpoints[s.rows[d].endpoint]
  {
    var t := Apply(s, ClaimDue(d, now));
    if d in s.rows && Due(s.rows[d], s.endpoints, now) { assert t.log != s.log; }
  }

  /** A status from 200 to 299 delivers, whatever the row said before. */
  lemma SuccessIsRecorded(s: State, c: Claim, status: int, reply: Reply, now: int)
    requires c in s.inFlight && c.delivery in s.rows && reply != Rejected && 200 <= status <= 299
    ensures var row := Apply(s, Report(c, Responded(status), reply, now)).rows[c.delivery];
            row == s.rows[c.delivery].(status := Succeeded, lastError := None)
  {
  }

  /**
   Any other status puts the delivery off, for a delay that starts at the base and doubles with every
   attempt, or buries it at the last attempt.
   */
  lemma FailureIsPutOff(s: State, c: Claim, status: int, reply: Reply, now: int)
    requires c in s.inFlight && c.delivery in s.rows && reply != Rejected && 1 <= c.attempts
    requires status < 200 || status > 299
    ensures var row, after := s.rows[c.delivery], Apply(s, Report(c, Responded(status), reply, now)).rows[c.delivery];
            if c.attempts < MAX_ATTEMPTS then
              after == row.(status := Pending, lastError := Some(Failed(c.attempts)),
                            nextAttemptAt := now + BASE_BACKOFF_MS * Pow2(c.attempts - 1))
            else after == row.(status := Dead, lastError := Some(Failed(c.attempts)))
  {
  }

  /** Only such a failure whose write took effect, short of the last attempt, is counted as putting off. */
  lemma PuttingOffIsLogged(s: State, c: Claim, outcome: Outcome, reply: Reply, now: int)
    requires c in s.inFlight
    ensures Apply(s, Report(c, outcome, reply, now)).log != s.log
       <==> outcome.Responded? && (outcome.status < 200 || outcome.status > 299)
            && reply != Rejected && c.attempts < MAX_ATTEMPTS
  {
    assert s.log + [] == s.log;
  }

  /** The reaper buries exactly the pending deliveries whose endpoint is gone, and changes nothing else. */
  lemma ReapedIffOrphaned(s: State, d: DeliveryId)
    ensures Apply(s, Reap) == s.(rows := Apply(s, Reap).rows) && Apply(s, Reap).rows.Keys == s.rows.Keys
    ensures d in s.rows ==>
              Apply(s, Reap).rows[d]
              == if s.rows[d].status == Pending && s.rows[d].endpoint !in s.endpoints
                 then s.rows[d].(status := Dead, lastError := Some(EndpointDeleted)) else s.rows[d]
  {
  }

  // ---- failures that follow one another -------------------------------------------------------------

  /** A claim, the status the receiver answered with, and when the failure was written. */
  datatype Round = Round(claimedAt: int, status: int, failedAt: int)

  /** The `n`-th round of a delivery's life. */
  function RoundSteps(d: DeliveryId, round: Round, n: nat): seq<Step> {
    [ClaimDue(d, round.claimedAt), Report(Claim(d, n), Responded(round.status), Answered, round.failedAt)]
  }

  function AllSteps(d: DeliveryId, rounds: seq<Round>): seq<Step> {
    if rounds == [] then []
    else AllSteps(d, rounds[..|rounds| - 1]) + RoundSteps(d, rounds[|rounds| - 1], |rounds|)
  }

  /**
   When the delivery is due after these rounds: at first, or a delay of 2^(k-1) base delays after the last
   failure.
   */
  function NextTime(first: int, rounds: seq<Round>): int {
    if rounds == [] then first else rounds[|rounds| - 1].failedAt + BASE_BACKOFF_MS * Pow2(|rounds| - 1)
  }

  /** Every round is a failure, and is claimed no earlier than it is due. */
  predicate Punctual(first: int, rounds: seq<Round>) {
    rounds == []
    || (Punctual(first, rounds[..|rounds| - 1])
        && rounds[|rounds| - 1].claimedAt >= NextTime(first, rounds[..|rounds| - 1])
        && (rounds[|rounds| - 1].status < 200 || rounds[|rounds| - 1].status > 299))
  }

  /** The delivery is pending, its endpoint is enabled, and it has been claimed `n` times. */
  predicate Waiting(s: State, d: DeliveryId, n: nat, next: int) {
    && d in s.rows && s.rows[d].status == Pending && s.rows[d].attempts == n && s.rows[d].nextAttemptAt == next
    && s.rows[d].endpoint in s.endpoints && s.endpoints[s.rows[d].endpoint]
  }

  lemma BackoffMore(log: seq<Event>, e: Event, kind: Kind, d: DeliveryId)
    ensures Backoff(log + [e], kind, d)
         == Backoff(log, kind, d) + (if EventOf(e, kind, d) then BackoffMs(e.claim.attempts) else 0)
  {
    hide BackoffMs;
    assert (log + [e])[..|log|] == log;
  }

  lemma {:induction false} NoBackoff(log: seq<Event>, kind: Kind, d: DeliveryId)
    requires forall i :: 0 <= i < |log| ==> log[i].claim.delivery != d
    ensures Backoff(log, kind, d) == 0
  {
    if log != [] { NoBackoff(log[..|log| - 1], kind, d); }
  }

  /** Before its first claim nothing has put the delivery off. */
  lemma NotPutOffYet(steps: seq<Step>, d: DeliveryId)
    requires d in Exec(steps).rows && Exec(steps).rows[d].attempts == 0
    ensures TotalBackoff(Exec(steps).log, d) == 0
  {
    var s := Exec(steps);
    InvAlways(steps);
    assert AllGiven(s);
    hide Exec;
    forall i | 0 <= i < |s.log| ensures s.log[i].claim.delivery != d { assert Given(s, s.log[i].claim); }
    NoBackoff(s.log, Rescheduled, d);
    NoBackoff(s.log, RescheduledAgain, d);
  }

  /** One round that fails: put off below the ceiling, buried at it. */
  lemma OneRound(s: State, d: DeliveryId, n: nat, next: int, round: Round)
    requires Waiting(s, d, n, next) && round.claimedAt >= next && (round.status < 200 || round.status > 299)
    ensures var steps := RoundSteps(d, round, n + 1);
            var t := Apply(Apply(s, steps[0]), steps[1]);
            && (n + 1 < MAX_ATTEMPTS ==>
                  && Waiting(t, d, n + 1, round.failedAt + BASE_BACKOFF_MS * Pow2(n))
                  && TotalBackoff(t.log, d) == TotalBackoff(s.log, d) + BASE_BACKOFF_MS * Pow2(n))
            && (n + 1 >= MAX_ATTEMPTS ==>
                  d in t.rows && t.rows[d].status == Dead && TotalBackoff(t.log, d) == TotalBackoff(s.log, d))
  {
    var c := Claim(d, n + 1);
    var claimed := Apply(s, ClaimDue(d, round.claimedAt));
    ClaimTaken(s, d, n, next, round.claimedAt);
    FailureIsPutOff(claimed, c, round.status, Answered, round.failedAt);
    FailureLogged(claimed, c, round.status, round.failedAt);
    hide Apply;
    hide Backoff;
    BackoffMore(s.log, Event(Claimed, c), Rescheduled, d);
    BackoffMore(s.log, Event(Claimed, c), RescheduledAgain, d);
    BackoffMore(claimed.log, Event(Rescheduled, c), Rescheduled, d);
    BackoffMore(claimed.log, Event(Rescheduled, c), RescheduledAgain, d);
    assert BackoffMs(n + 1) == BASE_BACKOFF_MS * Pow2(n);
    hide BackoffMs;
    hide Pow2;
  }

  lemma ClaimTaken(s: State, d: DeliveryId, n: nat, next: int, now: int)
    requires Waiting(s, d, n, next) && next <= now
    ensures var t, c := Apply(s, ClaimDue(d, now)), Claim(d, n + 1);
            && t.log == s.log + [Event(Claimed, c)] && c in t.inFlight && t.endpoints == s.endpoints
            && d in t.rows && t.rows[d] == s.rows[d].(attempts := n + 1)
  {
  }

  lemma FailureLogged(s: State, c: Claim, status: int, now: int)
    requires c in s.inFlight && (status < 200 || status > 299)
    ensures var t := Apply(s, Report(c, Responded(status), Answered, now));
            && t.endpoints == s.endpoints && t.rows.Keys == s.rows.Keys
            && t.log == if c.attempts < MAX_ATTEMPTS then s.log + [Event(Rescheduled, c)] else s.log
  {
  }

  lemma TwoMore(steps: seq<Step>, a: Step, b: Step)
    ensures Exec(steps + [a, b]) == Apply(Apply(Exec(steps), a), b)
  {
    ExecSnoc(steps, a);
    ExecSnoc(steps + [a], b);
    assert steps + [a] + [b] == steps + [a, b];
  }

  /** What `k` failures in turn have come to; the last of MAX_ATTEMPTS adds no delay. */
  predicate PutOff(s: State, d: DeliveryId, k: nat, next: int) {
    && (k < MAX_ATTEMPTS ==> TotalBackoff(s.log, d) == BASE_BACKOFF_MS * (Pow2(k) - 1) && Waiting(s, d, k, next))
    && (k == MAX_ATTEMPTS ==>
          TotalBackoff(s.log, d) == BASE_BACKOFF_MS * (Pow2(k - 1) - 1) && d in s.rows && s.rows[d].status == Dead)
  }

  lemma OneMore(s: State, d: DeliveryId, k: nat, next: int, round: Round)
    requires k < MAX_ATTEMPTS && PutOff(s, d, k, next)
    requires round.claimedAt >= next && (round.status < 200 || round.status > 299)
    ensures var steps := RoundSteps(d, round, k + 1);
            PutOff(Apply(Apply(s, steps[0]), steps[1]), d, k + 1, round.failedAt + BASE_BACKOFF_MS * Pow2(k))
  {
    OneRound(s, d, k, next, round);
    hide Apply;
    hide TotalBackoff;
    hide Waiting;
  }

  /**
   From any run on, a delivery that has not been claimed yet and then fails k times in turn has waited
   for BASE * (2^k - 1) in all, the last time for BASE * 2^(k-1) from the failure on; the last of
   MAX_ATTEMPTS failures buries it without a further delay.
   */
  lemma {:induction false} FailuresDoubleTheDelay(before: seq<Step>, d: DeliveryId, first: int, rounds: seq<Round>)
    requires Waiting(Exec(before), d, 0, first) && Punctual(first, rounds) && |rounds| <= MAX_ATTEMPTS
    ensures PutOff(Exec(before + AllSteps(d, rounds)), d, |rounds|, NextTime(first, rounds))
    decreases |rounds|
  {
    hide *;
    if rounds == [] {
      NoRounds(before, d, first);
    } else {
      var n := |rounds| - 1;
      LastRound(before, d, first, rounds);
      FailuresDoubleTheDelay(before, d, first, rounds[..n]);
      OneMore(Exec(before + AllSteps(d, rounds[..n])), d, n, NextTime(first, rounds[..n]), rounds[n]);
    }
  }

  lemma NoRounds(before: seq<Step>, d: DeliveryId, first: int)
    requires Waiting(Exec(before), d, 0, first)
    ensures PutOff(Exec(before + AllSteps(d, [])), d, 0, NextTime(first, []))
    ensures 0 < MAX_ATTEMPTS
  {
    assert before + AllSteps(d, []) == before;
    NotPutOffYet(before, d);
    hide Exec;
    hide TotalBackoff;
  }

  lemma LastRound(before: seq<Step>, d: DeliveryId, first: int, rounds: seq<Round>)
    requires rounds != [] && Punctual(first, rounds)
    ensures var n := |rounds| - 1;
            var init, last, steps := rounds[..n], rounds[n], RoundSteps(d, rounds[n], n + 1);
            && Punctual(first, init) && last.claimedAt >= NextTime(first, init)
            && (last.status < 200 || last.status > 299)
            && NextTime(first, rounds) == last.failedAt + BASE_BACKOFF_MS * Pow2(n)
            && |steps| == 2
            && Exec(before + AllSteps(d, rounds))
               == Apply(Apply(Exec(before + AllSteps(d, init)), steps[0]), steps[1])
  {
    var n := |rounds| - 1;
    var so, steps := before + AllSteps(d, rounds[..n]), RoundSteps(d, rounds[n], n + 1);
    assert before + AllSteps(d, rounds) == so + [steps[0], steps[1]];
    hide Exec;
    hide Apply;
    TwoMore(so, steps[0], steps[1]);
  }
}
